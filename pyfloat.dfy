/**
 * The part of Python's `float(text)` that the consumer relies on: a decimal numeral with an
 * optional sign and an optional fractional part. The value is exact (a `real`).
 */
module PyFloat {
  import opened Wrappers
  import PyStr

  predicate IsDigit(c: char)
  {
    '0' <= c <= '9'
  }

  predicate AllDigits(s: string)
  {
    forall i :: 0 <= i < |s| ==> IsDigit(s[i])
  }

  /** Value of a string of decimal digits, most significant first. */
  function DigitsValue(s: string): nat
    requires AllDigits(s)
  {
    if s == [] then 0
    else 10 * DigitsValue(s[..|s| - 1]) + (s[|s| - 1] as int - '0' as int)
  }

  function Pow10(k: nat): (r: nat)
    ensures r >= 1
  {
    if k == 0 then 1 else 10 * Pow10(k - 1)
  }

  /** `v` divided by ten `k` times: the value of `v` with the point moved `k` places left. */
  function Scale(v: int, k: nat): (r: real)
    ensures v >= 0 ==> r >= 0.0
  {
    if k == 0 then v as real else Scale(v, k - 1) / 10.0
  }

  /** Moving the point `k` places left is dividing by `10^k`. */
  lemma {:induction false} ScaleIsDivision(v: int, k: nat)
    ensures Scale(v, k) == v as real / Pow10(k) as real
    decreases k
  {
    if k > 0 {
      ScaleIsDivision(v, k - 1);
      var p := Pow10(k - 1) as real;
      assert Pow10(k) as real == 10.0 * p;
      assert (v as real / p) / 10.0 == v as real / (10.0 * p);
    }
  }

  /** Moving the point commutes with negation. */
  lemma {:induction false} ScaleNegate(v: int, k: nat)
    ensures Scale(-v, k) == -Scale(v, k)
    decreases k
  {
    if k > 0 {
      ScaleNegate(v, k - 1);
    }
  }

  /** A whole number shifted `k` places left comes back whole after moving the point. */
  lemma {:induction false} ScaleShift(x: int, y: int, k: nat)
    ensures Scale(x * Pow10(k) + y, k) == x as real + Scale(y, k)
    decreases k
  {
    if k > 0 {
      ScaleShift(10 * x, y, k - 1);
      assert x * Pow10(k) == (10 * x) * Pow10(k - 1);
    }
  }

  /**
   * An unsigned numeral: digits, or digits '.' digits with at least one digit on
   * either side (`"5"`, `"5."`, `".5"`, `"225.5"`).
   */
  function ParseUnsigned(s: string): (r: Option<real>)
    ensures r.Some? ==> r.value >= 0.0
  {
    var parts := PyStr.Split(s, '.');
    if |parts| == 1 && parts[0] != [] && AllDigits(parts[0]) then
      Some(DigitsValue(parts[0]) as real)
    else if |parts| == 2 && parts[0] + parts[1] != [] && AllDigits(parts[0]) && AllDigits(parts[1]) then
      Some(PointValue(parts[0], parts[1]))
    else
      None
  }

  /** The value of the digits `whole`, a point, and the digits `frac`. */
  function PointValue(whole: string, frac: string): (r: real)
    requires AllDigits(whole) && AllDigits(frac)
    ensures r >= 0.0
  {
    DigitsValue(whole) as real + Scale(DigitsValue(frac), |frac|)
  }

  /** Only digits and at most one point make up an accepted unsigned numeral, and one digit at least. */
  lemma UnsignedChars(s: string)
    requires ParseUnsigned(s).Some?
    ensures exists i :: 0 <= i < |s| && IsDigit(s[i])
    ensures forall i :: 0 <= i < |s| ==> IsDigit(s[i]) || s[i] == '.'
    ensures PyStr.Count(s, '.') <= 1
  {
    var parts := PyStr.Split(s, '.');
    assert |parts| == PyStr.Count(s, '.') + 1;
    PyStr.JoinSplit(s, '.');
    if |parts| == 2 {
      assert s == parts[0] + "." + parts[1];
      DigitsPointDigits(parts[0], parts[1]);
    } else {
      assert s == parts[0];
      assert IsDigit(s[0]);
    }
  }

  /** `float(s)` restricted to optionally signed decimal numerals; `None` where Python raises. */
  function ParseNumber(s: string): (r: Option<real>)
    ensures r.Some? ==> s != [] && (r.value < 0.0 ==> s[0] == '-')
  {
    if s == [] then None
    else if s[0] == '-' then
      match ParseUnsigned(s[1..])
      case Some(v) => Some(-v)
      case None => None
    else if s[0] == '+' then ParseUnsigned(s[1..])
    else ParseUnsigned(s)
  }

  /**
   * A text that `float` accepts is a sign at most, then digits and points only: any
   * other character makes it rejected.
   */
  lemma NumeralChars(s: string)
    requires ParseNumber(s).Some?
    ensures exists i :: 0 <= i < |s| && IsDigit(s[i])
    ensures forall i :: 0 <= i < |s| ==> IsDigit(s[i]) || s[i] == '.' || (i == 0 && s[i] in {'+', '-'})
  {
    if s[0] in {'+', '-'} {
      var rest := s[1..];
      UnsignedChars(rest);
      var j :| 0 <= j < |rest| && IsDigit(rest[j]);
      assert s[j + 1] == rest[j];
      forall i | 1 <= i < |s| ensures IsDigit(s[i]) || s[i] == '.' {
        assert s[i] == rest[i - 1];
      }
    } else {
      UnsignedChars(s);
    }
  }

  /** Decimal digits of `n`, as `str(n)` writes them. */
  function FormatNat(n: nat): (s: string)
    ensures s != [] && AllDigits(s)
  {
    var last := "0123456789"[n % 10];
    if n < 10 then [last] else FormatNat(n / 10) + [last]
  }

  /** `str(i)` for an integer. */
  function FormatInt(i: int): (s: string)
    ensures s != []
  {
    if i < 0 then "-" + FormatNat(-i) else FormatNat(i)
  }

  lemma {:induction false} FormatNatValue(n: nat)
    ensures DigitsValue(FormatNat(n)) == n
  {
    var s := FormatNat(n);
    if n >= 10 {
      FormatNatValue(n / 10);
      assert s[..|s| - 1] == FormatNat(n / 10);
    }
  }

  /** Digits never contain the decimal point. */
  lemma DigitsHaveNoPoint(s: string)
    requires AllDigits(s)
    ensures '.' !in s
  {
    assert forall i :: 0 <= i < |s| ==> s[i] != '.';
  }

  /** A non-empty run of digits is an unsigned numeral denoting its digits' value. */
  lemma ParseDigits(s: string)
    requires s != [] && AllDigits(s)
    ensures ParseUnsigned(s) == Some(DigitsValue(s) as real)
  {
    DigitsHaveNoPoint(s);
    PyStr.SplitFree(s, '.');
  }

  /** Appending digits shifts the value left by their count. */
  lemma {:induction false} DigitsValueAppend(a: string, b: string)
    requires AllDigits(a) && AllDigits(b)
    ensures AllDigits(a + b)
    ensures DigitsValue(a + b) == DigitsValue(a) * Pow10(|b|) + DigitsValue(b)
    decreases |b|
  {
    assert forall i :: 0 <= i < |a + b| ==> (a + b)[i] == if i < |a| then a[i] else b[i - |a|];
    if b == [] {
      assert a + b == a;
    } else {
      var init := b[..|b| - 1];
      DigitsValueAppend(a, init);
      assert (a + b)[..|a + b| - 1] == a + init;
      var x, p, y := DigitsValue(a), Pow10(|init|), DigitsValue(init);
      var d := b[|b| - 1] as int - '0' as int;
      ShiftDigit(x, p, y, d);
    }
  }

  /** One more digit on the right multiplies what precedes it by ten. */
  lemma ShiftDigit(x: int, p: int, y: int, d: int)
    ensures 10 * (x * p + y) + d == x * (10 * p) + (10 * y + d)
  {
    assert 10 * (x * p) == x * (10 * p);
  }

  /**
   * A numeral with a point denotes all its digits read as one whole number, with the
   * point moved left by the number of digits after it: `"225.5"` is 2255 / 10.
   */
  lemma ParseUnsignedPoint(a: string, b: string)
    requires AllDigits(a) && AllDigits(b) && a + b != []
    ensures AllDigits(a + b)
    ensures ParseUnsigned(a + "." + b) == Some(Scale(DigitsValue(a + b), |b|))
  {
    PointParse(a, b);
    PointValueShift(a, b);
  }

  /** The whole part plus the fraction is all the digits with the point moved left. */
  lemma PointValueShift(a: string, b: string)
    requires AllDigits(a) && AllDigits(b)
    ensures AllDigits(a + b) && PointValue(a, b) == Scale(DigitsValue(a + b), |b|)
  {
    DigitsValueAppend(a, b);
    ScaleShift(DigitsValue(a), DigitsValue(b), |b|);
  }

  /** A numeral with a point is its whole part plus its fraction digits moved right of the point. */
  lemma PointParse(a: string, b: string)
    requires AllDigits(a) && AllDigits(b) && a + b != []
    ensures ParseUnsigned(a + "." + b) == Some(PointValue(a, b))
  {
    SplitPoint(a, b);
    PartsValue(a + "." + b, a, b);
  }

  /** A text that splits at its point into two runs of digits reads as the whole part plus the fraction. */
  lemma PartsValue(s: string, a: string, b: string)
    requires AllDigits(a) && AllDigits(b) && a + b != [] && PyStr.Split(s, '.') == [a, b]
    ensures ParseUnsigned(s) == Some(PointValue(a, b))
  {
    var parts := PyStr.Split(s, '.');
    assert |parts| == 2 && parts[0] == a && parts[1] == b;
  }

  /** Digits, a point and digits split at the point into the two runs of digits. */
  lemma SplitPoint(a: string, b: string)
    requires AllDigits(a) && AllDigits(b)
    ensures PyStr.Split(a + "." + b, '.') == [a, b]
  {
    DigitsHaveNoPoint(a);
    DigitsHaveNoPoint(b);
    PyStr.SplitPrefix(a, b, '.');
    PyStr.SplitFree(b, '.');
    assert a + "." + b == a + ['.'] + b;
  }

  /** The same with a leading sign: a minus negates the value, a plus leaves it. */
  lemma ParseNumberPoint(a: string, b: string)
    requires AllDigits(a) && AllDigits(b) && a + b != []
    ensures AllDigits(a + b)
    ensures var v := Scale(DigitsValue(a + b), |b|);
            ParseNumber(a + "." + b) == Some(v) &&
            ParseNumber("+" + a + "." + b) == Some(v) &&
            ParseNumber("-" + a + "." + b) == Some(-v)
  {
    var v := Scale(DigitsValue(a + b), |b|);
    assert AllDigits(a + b) && ParseUnsigned(a + "." + b) == Some(v) by {
      ParseUnsignedPoint(a, b);
    }
    assert (a + "." + b)[0] == '.' || IsDigit((a + "." + b)[0]);
    SignedPoint(a, b, v);
  }

  /** Signs in front of digits, a point and digits. */
  lemma SignedPoint(a: string, b: string, v: real)
    requires ParseUnsigned(a + "." + b) == Some(v)
    requires (a + "." + b)[0] != '+' && (a + "." + b)[0] != '-'
    ensures ParseNumber(a + "." + b) == Some(v)
    ensures ParseNumber("+" + a + "." + b) == Some(v) && ParseNumber("-" + a + "." + b) == Some(-v)
  {
    var s := a + "." + b;
    assert "+" + a + "." + b == "+" + s && "-" + a + "." + b == "-" + s;
    SignedValue(s, v);
  }

  /** An unsigned numeral keeps its value under a plus and is negated under a minus. */
  lemma SignedValue(s: string, v: real)
    requires s != [] && s[0] != '+' && s[0] != '-' && ParseUnsigned(s) == Some(v)
    ensures ParseNumber(s) == Some(v) && ParseNumber("+" + s) == Some(v) && ParseNumber("-" + s) == Some(-v)
  {
    ParseSigned(s);
  }

  /** The sign of a numeral that starts with neither sign. */
  lemma ParseSigned(s: string)
    requires s != [] && s[0] != '+' && s[0] != '-'
    ensures ParseNumber(s) == ParseUnsigned(s)
    ensures ParseNumber("+" + s) == ParseUnsigned(s)
    ensures ParseNumber("-" + s) == match ParseUnsigned(s) case Some(v) => Some(-v) case None => None
  {
    assert ("+" + s)[1..] == s && ("-" + s)[1..] == s;
  }

  /** Parsing what `str(i)` printed gives back `i`. */
  lemma ParseFormatInt(i: int)
    ensures ParseNumber(FormatInt(i)) == Some(i as real)
  {
    var n: nat := if i < 0 then -i else i;
    var digits := FormatNat(n);
    ParseDigits(digits);
    FormatNatValue(n);
    var s := FormatInt(i);
    if i < 0 {
      assert s[0] == '-' && s[1..] == digits;
    } else {
      assert s == digits;
      assert IsDigit(s[0]);
      assert s[0] != '-' && s[0] != '+';
    }
  }

  /** A numeral's digits are plain text for `repr`. */
  lemma FormatIntPlain(i: int)
    ensures PyStr.Plain(FormatInt(i))
  {
    var s := FormatInt(i);
    forall k | 0 <= k < |s| ensures s[k] == '-' || IsDigit(s[k]) {
      if i < 0 && k > 0 {
        assert s[k] == FormatNat(-i)[k - 1];
      }
    }
  }

  /** `k` zero digits. */
  function Zeros(k: nat): (s: string)
    ensures |s| == k && AllDigits(s) && DigitsValue(s) == 0
  {
    if k == 0 then "" else
      var s := Zeros(k - 1) + "0";
      assert s[..k - 1] == Zeros(k - 1);
      s
  }

  /** Digits padded on the left with zeros to at least `k` of them, as `str.zfill` does. */
  function ZeroFill(d: string, k: nat): (s: string)
    ensures |s| >= k && |s| >= |d|
  {
    if |d| >= k then d else Zeros(k - |d|) + d
  }

  /** Zero-filling keeps digits digits and keeps their value. */
  lemma ZeroFillValue(d: string, k: nat)
    requires AllDigits(d)
    ensures AllDigits(ZeroFill(d, k)) && DigitsValue(ZeroFill(d, k)) == DigitsValue(d)
  {
    if |d| < k {
      DigitsValueAppend(Zeros(k - |d|), d);
    }
  }

  /**
   * `m / 10^k` written in decimal with exactly `k` digits after the point and at least one
   * before it (`"225.5"` for 2255 and 1, `"-0.05"` for -5 and 2), and as a whole number
   * when `k` is 0.
   */
  function FormatFixed(m: int, k: nat): (s: string)
    ensures s != []
  {
    if k == 0 then FormatInt(m)
    else if m < 0 then "-" + FixedBody(FormatNat(-m), k)
    else FixedBody(FormatNat(m), k)
  }

  /** Digits zero-filled to `k + 1` of them, with a point before the last `k`. */
  function FixedBody(digits: string, k: nat): (s: string)
    requires 1 <= k
  {
    var d := ZeroFill(digits, k + 1);
    d[..|d| - k] + "." + d[|d| - k..]
  }

  /** The body is the filled digits cut into a whole part and `k` fraction digits. */
  lemma FixedBodyParts(digits: string, k: nat)
    requires 1 <= k && AllDigits(digits)
    ensures var d := ZeroFill(digits, k + 1);
            var a, b := d[..|d| - k], d[|d| - k..];
            FixedBody(digits, k) == a + "." + b && |b| == k && a != [] &&
            AllDigits(a) && AllDigits(b) && DigitsValue(a + b) == DigitsValue(digits)
  {
    var d := ZeroFill(digits, k + 1);
    ZeroFillValue(digits, k + 1);
    SplitDigits(d, |d| - k);
  }

  /** Both sides of a cut through digits are digits, and together they are the whole. */
  lemma SplitDigits(d: string, x: nat)
    requires x <= |d| && AllDigits(d)
    ensures AllDigits(d[..x]) && AllDigits(d[x..]) && d[..x] + d[x..] == d
  {
    assert forall i :: 0 <= i < |d| - x ==> d[x..][i] == d[x + i];
  }

  /** The body starts with a digit and holds nothing but digits and the point. */
  lemma FixedBodyChars(digits: string, k: nat)
    requires 1 <= k && AllDigits(digits)
    ensures var s := FixedBody(digits, k);
            IsDigit(s[0]) && forall i :: 0 <= i < |s| ==> IsDigit(s[i]) || s[i] == '.'
  {
    var d := ZeroFill(digits, k + 1);
    var a, b := d[..|d| - k], d[|d| - k..];
    assert FixedBody(digits, k) == a + "." + b && a != [] && AllDigits(a) && AllDigits(b) by {
      FixedBodyParts(digits, k);
    }
    PointChars(a, b);
  }

  /** Digits, a point and digits start with a digit and hold nothing else. */
  lemma PointChars(a: string, b: string)
    requires a != [] && AllDigits(a) && AllDigits(b)
    ensures var s := a + "." + b;
            IsDigit(s[0]) && forall i :: 0 <= i < |s| ==> IsDigit(s[i]) || s[i] == '.'
  {
    DigitsPointDigits(a, b);
    assert (a + "." + b)[0] == a[0];
  }

  /** Digits, a point and digits, one digit at least: a digit in front of or just after the point, and nothing else. */
  lemma DigitsPointDigits(a: string, b: string)
    requires AllDigits(a) && AllDigits(b) && a + b != []
    ensures var s := a + "." + b;
            (IsDigit(s[0]) || IsDigit(s[1])) && forall i :: 0 <= i < |s| ==> IsDigit(s[i]) || s[i] == '.'
  {
    var s := a + "." + b;
    forall i | 0 <= i < |s| ensures IsDigit(s[i]) || s[i] == '.' {
      if i < |a| {
        assert s[i] == a[i];
      } else if i > |a| {
        assert s[i] == b[i - |a| - 1];
      }
    }
    if a == [] {
      assert s[1] == b[0];
    } else {
      assert s[0] == a[0];
    }
  }

  /** The body denotes the digits' value with the point moved `k` places left. */
  lemma FixedBodyValue(digits: string, k: nat)
    requires 1 <= k && AllDigits(digits)
    ensures ParseUnsigned(FixedBody(digits, k)) == Some(Scale(DigitsValue(digits), k))
  {
    var d := ZeroFill(digits, k + 1);
    var a, b := d[..|d| - k], d[|d| - k..];
    assert FixedBody(digits, k) == a + "." + b && |b| == k && AllDigits(a) && AllDigits(b) && a != []
        && DigitsValue(a + b) == DigitsValue(digits) by {
      FixedBodyParts(digits, k);
    }
    PointNumeral(FixedBody(digits, k), a, b, DigitsValue(digits));
  }

  /** A text that is digits, a point and digits denotes those digits' value with the point moved. */
  lemma PointNumeral(t: string, a: string, b: string, n: nat)
    requires AllDigits(a) && AllDigits(b) && a + b != [] && t == a + "." + b
    requires AllDigits(a + b) && DigitsValue(a + b) == n
    ensures ParseUnsigned(t) == Some(Scale(n, |b|))
  {
    ParseUnsignedPoint(a, b);
  }

  /** What `FormatFixed` wrote parses back to `m` with the point moved `k` places left. */
  lemma ParseFormatFixed(m: int, k: nat)
    ensures ParseNumber(FormatFixed(m, k)) == Some(Scale(m, k))
  {
    if k == 0 {
      ParseFormatInt(m);
      assert FormatFixed(m, k) == FormatInt(m);
    } else if m < 0 {
      FixedValue(-m, k);
      NegativeNumeral(FixedBody(FormatNat(-m), k), m, k);
      assert FormatFixed(m, k) == "-" + FixedBody(FormatNat(-m), k);
    } else {
      FixedValue(m, k);
      ParseSigned(FixedBody(FormatNat(m), k));
      assert FormatFixed(m, k) == FixedBody(FormatNat(m), k);
    }
  }

  /** A minus before an unsigned numeral for `-m` moved `k` places gives `m` moved `k` places. */
  lemma NegativeNumeral(body: string, m: int, k: nat)
    requires body != [] && body[0] != '+' && body[0] != '-'
    requires ParseUnsigned(body) == Some(Scale(-m, k))
    ensures ParseNumber("-" + body) == Some(Scale(m, k))
  {
    ParseSigned(body);
    ScaleNegate(m, k);
  }

  /** The body written for `n` denotes `n / 10^k`, and starts with neither sign. */
  lemma FixedValue(n: nat, k: nat)
    requires 1 <= k
    ensures var body := FixedBody(FormatNat(n), k);
            body != [] && body[0] != '+' && body[0] != '-' &&
            ParseUnsigned(body) == Some(Scale(n, k))
  {
    var digits := FormatNat(n);
    FixedBodyChars(digits, k);
    FormatNatValue(n);
    FixedBodyValue(digits, k);
  }

  /** What `FormatFixed` writes is plain text for `repr`. */
  lemma FormatFixedPlain(m: int, k: nat)
    ensures PyStr.Plain(FormatFixed(m, k))
  {
    if k == 0 {
      FormatIntPlain(m);
    } else {
      var n: nat := if m < 0 then -m else m;
      var body := FixedBody(FormatNat(n), k);
      FixedBodyChars(FormatNat(n), k);
      var s := FormatFixed(m, k);
      forall i | 0 <= i < |s| ensures IsDigit(s[i]) || s[i] == '.' || s[i] == '-' {
        if m < 0 && i > 0 {
          assert s[i] == body[i - 1];
        }
      }
    }
  }
}
