/**
 * The two pieces of Python's `str` that the producer and the consumer agree on:
 * `s.split(sep)` with an explicit one-character separator, and `repr` of a string
 * (which is what `str` of a tuple of strings prints for each element).
 */
module PyStr {

  /** Number of occurrences of `c` in `s`. */
  function Count(s: string, c: char): nat
  {
    if s == [] then 0 else (if s[0] == c then 1 else 0) + Count(s[1..], c)
  }

  /**
   * `s.split(sep)`: the maximal runs between separators, in order. Python always returns
   * one more piece than there are separators, and no piece holds the separator.
   */
  function Split(s: string, sep: char): (pieces: seq<string>)
    ensures |pieces| == Count(s, sep) + 1
  {
    if s == [] then [[]]
    else
      var rest := Split(s[1..], sep);
      if s[0] == sep then [[]] + rest
      else [[s[0]] + rest[0]] + rest[1..]
  }

  /** No piece holds the separator. */
  lemma {:induction false} SplitPiecesFree(s: string, sep: char)
    ensures forall i :: 0 <= i < |Split(s, sep)| ==> sep !in Split(s, sep)[i]
  {
    if s != [] {
      SplitPiecesFree(s[1..], sep);
      var rest := Split(s[1..], sep);
      if s[0] != sep {
        assert sep !in [s[0]] + rest[0];
      }
    }
  }

  /** `sep.join(pieces)`: the inverse of `Split`. */
  function Join(pieces: seq<string>, sep: char): string
    requires |pieces| >= 1
  {
    if |pieces| == 1 then pieces[0]
    else pieces[0] + [sep] + Join(pieces[1..], sep)
  }

  /** Splitting and joining again gives back the original string. */
  lemma {:induction false} JoinSplit(s: string, sep: char)
    ensures Join(Split(s, sep), sep) == s
  {
    if s != [] {
      JoinSplit(s[1..], sep);
      var rest := Split(s[1..], sep);
      if s[0] != sep {
        if |rest| == 1 {
          assert Join(Split(s, sep), sep) == [s[0]] + rest[0];
        } else {
          assert Split(s, sep)[1..] == rest[1..];
          assert Join(Split(s, sep), sep) == [s[0]] + rest[0] + [sep] + Join(rest[1..], sep);
        }
      }
    }
  }

  /** Joining separator-free pieces and splitting again gives back the pieces. */
  lemma {:induction false} SplitJoin(pieces: seq<string>, sep: char)
    requires |pieces| >= 1
    requires forall i :: 0 <= i < |pieces| ==> sep !in pieces[i]
    ensures Split(Join(pieces, sep), sep) == pieces
  {
    if |pieces| == 1 {
      SplitFree(pieces[0], sep);
    } else {
      SplitJoin(pieces[1..], sep);
      SplitPrefix(pieces[0], Join(pieces[1..], sep), sep);
      assert Join(pieces, sep) == pieces[0] + [sep] + Join(pieces[1..], sep);
    }
  }

  /** A string without the separator is a single piece. */
  lemma {:induction false} SplitFree(s: string, sep: char)
    requires sep !in s
    ensures Split(s, sep) == [s]
  {
    if s != [] {
      SplitFree(s[1..], sep);
      assert s[0] != sep by { assert s[0] in s; }
      assert [s[0]] + s[1..] == s;
    }
  }

  /** A separator-free prefix followed by the separator is the first piece. */
  lemma {:induction false} SplitPrefix(a: string, b: string, sep: char)
    requires sep !in a
    ensures Split(a + [sep] + b, sep) == [a] + Split(b, sep)
  {
    var s := a + [sep] + b;
    if a == [] {
      assert s[0] == sep && s[1..] == b;
    } else {
      SplitPrefix(a[1..], b, sep);
      assert s[1..] == a[1..] + [sep] + b;
      var rest := Split(s[1..], sep);
      assert rest == [a[1..]] + Split(b, sep);
      assert s[0] == a[0] != sep;
      assert Split(s, sep) == [[a[0]] + rest[0]] + rest[1..];
      assert [a[0]] + a[1..] == a;
    }
  }

  /** Lower-case hexadecimal digit, as `repr` writes `\xNN`. */
  function HexDigit(d: nat): char
    requires d < 16
  {
    "0123456789abcdef"[d]
  }

  /** The ASCII control characters that `repr` writes as an escape. */
  predicate IsControl(c: char)
  {
    c < ' ' || c as int == 0x7F
  }

  /** How `repr` writes one character of a string quoted by `quote`. */
  function EscapeChar(c: char, quote: char): (r: string)
    ensures |r| >= 1
    ensures r == [c] <==> c != quote && c != '\\' && !IsControl(c)
  {
    if c == quote || c == '\\' then ['\\', c]
    else if c == '\t' then "\\t"
    else if c == '\n' then "\\n"
    else if c == '\r' then "\\r"
    else if IsControl(c) then ['\\', 'x', HexDigit(c as int / 16), HexDigit(c as int % 16)]
    else [c]
  }

  /**
   * The characters of `s` as `repr` writes them between `quote`s. A plain string without
   * the quote is written as itself.
   */
  function Escape(s: string, quote: char): (r: string)
    ensures |r| >= |s|
    ensures Plain(s) && quote !in s ==> r == s
  {
    if s == [] then []
    else
      var rest := Escape(s[1..], quote);
      assert Plain(s) ==> Plain(s[1..]);
      EscapeChar(s[0], quote) + rest
  }

  /**
   * `repr(s)`: single quotes unless the string holds a single quote and no double quote,
   * then double quotes; the quote in use and the backslash are escaped. A plain string
   * comes out between single quotes as it is.
   */
  function Repr(s: string): (r: string)
    ensures |r| >= |s| + 2 && r[0] == r[|r| - 1]
    ensures r[0] == '"' <==> '\'' in s && '"' !in s
    ensures Plain(s) ==> r == "'" + s + "'"
  {
    var quote := if '\'' in s && '"' !in s then '"' else '\'';
    assert Plain(s) ==> quote == '\'' && quote !in s;
    [quote] + Escape(s, quote) + [quote]
  }

  /**
   * Within `repr`'s quotes, every occurrence of the quote in use is escaped by a
   * backslash, so the first and last characters are the only bare quotes.
   */
  lemma {:induction false} EscapeQuotesEscaped(s: string, quote: char, i: nat)
    requires quote == '\'' || quote == '"'
    requires i < |Escape(s, quote)| && Escape(s, quote)[i] == quote
    ensures 0 < i && Escape(s, quote)[i - 1] == '\\'
    decreases |s|
  {
    var e, rest := EscapeChar(s[0], quote), Escape(s[1..], quote);
    var r := e + rest;
    assert Escape(s, quote) == r;
    if i < |e| {
      EscapeCharQuote(s[0], quote, i);
      assert r[i - 1] == e[0];
    } else {
      assert rest[i - |e|] == quote;
      EscapeQuotesEscaped(s[1..], quote, i - |e|);
      assert r[i - 1] == rest[i - |e| - 1];
    }
  }

  /** The only quote `EscapeChar` writes is the escaped quote itself. */
  lemma EscapeCharQuote(c: char, quote: char, i: nat)
    requires quote == '\'' || quote == '"'
    requires i < |EscapeChar(c, quote)| && EscapeChar(c, quote)[i] == quote
    ensures c == quote && EscapeChar(c, quote) == ['\\', quote] && i == 1
  {
  }

  /** Strings that `repr` prints verbatim between single quotes. */
  predicate Plain(s: string)
  {
    forall i :: 0 <= i < |s| ==> ' ' <= s[i] && s[i] as int < 0x7F && s[i] != '\'' && s[i] != '\\'
  }

  /** Printable characters other than `quote` and the backslash are written as themselves. */
  lemma {:induction false} EscapeVerbatim(s: string, quote: char)
    requires forall i :: 0 <= i < |s| ==> ' ' <= s[i] && s[i] as int < 0x7F && s[i] != quote && s[i] != '\\'
    ensures Escape(s, quote) == s
    decreases |s|
  {
    if s != [] {
      EscapeVerbatim(s[1..], quote);
      assert EscapeChar(s[0], quote) == [s[0]];
    }
  }

  /**
   * Printable text with a single quote in it and no double quote or backslash: `repr`
   * switches to double quotes and writes the text as it is.
   */
  lemma DoubleQuotedRepr(s: string)
    requires '\'' in s
    requires forall i :: 0 <= i < |s| ==> ' ' <= s[i] && s[i] as int < 0x7F && s[i] != '"' && s[i] != '\\'
    ensures Repr(s) == "\"" + s + "\""
  {
    EscapeVerbatim(s, '"');
  }

  /** Plain texts without double quotes, joined by two single quotes, are such text. */
  lemma TwoQuotesText(p: string, q: string, r: string)
    requires Plain(p) && Plain(q) && Plain(r)
    requires '"' !in p && '"' !in q && '"' !in r
    ensures var s := p + "'" + q + "'" + r;
            '\'' in s &&
            forall i :: 0 <= i < |s| ==> ' ' <= s[i] && s[i] as int < 0x7F && s[i] != '"' && s[i] != '\\'
  {
    var s := p + "'" + q + "'" + r;
    assert s[|p|] == '\'';
    forall i | 0 <= i < |s| ensures ' ' <= s[i] && s[i] as int < 0x7F && s[i] != '"' && s[i] != '\\' {
      if i < |p| {
        assert s[i] == p[i];
      } else if |p| < i < |p| + 1 + |q| {
        assert s[i] == q[i - |p| - 1];
      } else if i > |p| + 1 + |q| {
        assert s[i] == r[i - |p| - |q| - 2];
      }
    }
  }

  /** `str((a, b))` for two strings: Python's tuple repr. */
  function TupleRepr(a: string, b: string): (r: string)
    ensures Plain(a) && Plain(b) ==> r == "('" + a + "', '" + b + "')"
  {
    "(" + Repr(a) + ", " + Repr(b) + ")"
  }

  /** The tuple repr of two plain strings is the five pieces joined by single quotes. */
  lemma TupleReprJoin(a: string, b: string)
    requires Plain(a) && Plain(b)
    ensures TupleRepr(a, b) == Join(["(", a, ", ", b, ")"], '\'')
  {
    QuotedPairJoin(a, b);
  }

  /** Five pieces joined by `sep` are the pieces with `sep` between neighbours. */
  lemma JoinFive(a: string, b: string, c: string, d: string, e: string, sep: char)
    ensures Join([a, b, c, d, e], sep) == a + [sep] + b + [sep] + c + [sep] + d + [sep] + e
  {
    var pieces := [a, b, c, d, e];
    assert Join(pieces[3..], sep) == d + [sep] + e;
    assert Join(pieces[2..], sep) == c + [sep] + d + [sep] + e;
    assert Join(pieces[1..], sep) == b + [sep] + c + [sep] + d + [sep] + e;
  }

  /** Five pieces joined by single quotes: two strings quoted inside a tuple's brackets. */
  lemma QuotedPairJoin(a: string, b: string)
    ensures Join(["(", a, ", ", b, ")"], '\'') == "('" + a + "', '" + b + "')"
  {
    var pieces := ["(", a, ", ", b, ")"];
    assert Join(pieces[3..], '\'') == b + "'" + ")";
    assert Join(pieces[2..], '\'') == ", " + "'" + b + "'" + ")";
    assert Join(pieces[1..], '\'') == a + "'" + ", " + "'" + b + "'" + ")";
  }

  /**
   * The tuple repr of two plain strings splits on the single quote into exactly five
   * pieces, the second and fourth being the two strings.
   */
  lemma TupleReprSplit(a: string, b: string)
    requires Plain(a) && Plain(b)
    ensures Split(TupleRepr(a, b), '\'') == ["(", a, ", ", b, ")"]
  {
    TupleReprJoin(a, b);
    assert '\'' !in a && '\'' !in b;
    SplitJoin(["(", a, ", ", b, ")"], '\'');
  }
}
