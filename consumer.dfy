/**
 * The smoker consumer: each message body is decoded into a timestamp and a temperature,
 * the temperature is appended to a window of the last `MaxDequeSpace` readings, and once
 * the window is full a drop of at least `DropThreshold` from its oldest to its newest
 * reading raises a flag carrying both readings and the current timestamp.
 */
module SmokerConsumer {
  import opened Wrappers
  import PyStr
  import PyFloat

  /** Capacity of the window: two readings a minute for two and a half minutes. */
  const MaxDequeSpace: nat := 5

  /** A drop of this many degrees (or more) across a full window raises a flag. */
  const DropThreshold: real := 15.0

  /** One decoded message. */
  datatype Reading = Reading(timestamp: string, temperature: real)

  /** Why a body was rejected: the unpacking into five pieces or `float` raised. */
  datatype ParseError = WrongPieceCount(pieces: nat) | NotANumber(text: string)

  /** The flag: oldest and newest temperature of the window and the current timestamp. */
  datatype Alert = Alert(older: real, newer: real, timestamp: string)

  /**
   * Splits the body on the single quote, requires exactly five pieces, and converts the
   * fourth to a number; the second is the timestamp.
   */
  function ParseBody(body: string): (r: Result<Reading, ParseError>)
    ensures PyStr.Count(body, '\'') != 4 <==> r == Err(WrongPieceCount(PyStr.Count(body, '\'') + 1))
    ensures r.Ok? ==> '\'' !in r.value.timestamp
  {
    var pieces := PyStr.Split(body, '\'');
    PyStr.SplitPiecesFree(body, '\'');
    if |pieces| != 5 then Err(WrongPieceCount(|pieces|))
    else
      match PyFloat.ParseNumber(pieces[3])
      case None => Err(NotANumber(pieces[3]))
      case Some(t) => Ok(Reading(pieces[1], t))
  }

  /**
   * What a body of five quote-free pieces decodes to: the second piece is the timestamp,
   * and the fourth is the temperature if it is a number, else the body is rejected with
   * it. With `PyStr.JoinSplit` this covers every body that has four single quotes.
   */
  lemma ParseBodyPieces(front: string, timestamp: string, comma: string, temperature: string, back: string)
    requires '\'' !in front && '\'' !in timestamp && '\'' !in comma
    requires '\'' !in temperature && '\'' !in back
    ensures ParseBody(PyStr.Join([front, timestamp, comma, temperature, back], '\''))
         == match PyFloat.ParseNumber(temperature)
            case Some(v) => Ok(Reading(timestamp, v))
            case None => Err(NotANumber(temperature))
  {
    PyStr.SplitJoin([front, timestamp, comma, temperature, back], '\'');
  }

  /** The last `n` elements of `s`, or all of `s` when it is shorter. */
  function LastN(s: seq<real>, n: nat): (r: seq<real>)
    ensures |r| == if |s| < n then |s| else n
  {
    if |s| <= n then s else s[|s| - n..]
  }

  /**
   * `append` on a deque created with `maxlen = n`: when the deque is full, the oldest
   * element is discarded to make room.
   */
  function Append(w: seq<real>, n: nat, x: real): (r: seq<real>)
    requires 1 <= n && |w| <= n
    ensures |r| == if |w| < n then |w| + 1 else n
    ensures r[|r| - 1] == x
    ensures forall k :: 0 <= k < |r| - 1 ==> r[k] == w[k + |w| + 1 - |r|]
  {
    if |w| == n then w[1..] + [x] else w + [x]
  }

  /** The flag check on the window after the append, for a message stamped `timestamp`. */
  function Flag(w: seq<real>, n: nat, timestamp: string): (r: Option<Alert>)
    requires 1 <= n
    ensures r.Some? ==> |w| == n && r.value.older - r.value.newer >= DropThreshold
  {
    if |w| == n && w[0] - w[|w| - 1] >= DropThreshold then
      Some(Alert(w[0], w[|w| - 1], timestamp))
    else
      None
  }

  /** Every body decoded on its own, in order: what the window logic sees. */
  function Decode(bodies: seq<string>): seq<Result<Reading, ParseError>>
  {
    seq(|bodies|, i requires 0 <= i < |bodies| => ParseBody(bodies[i]))
  }

  /** Decoding a stream in two parts decodes each part on its own. */
  lemma DecodeAppend(a: seq<string>, b: seq<string>)
    ensures Decode(a + b) == Decode(a) + Decode(b)
  {
    assert forall i :: 0 <= i < |b| ==> (a + b)[|a| + i] == b[i];
  }

  /** The window after one message, and what the message produced. */
  datatype Step = Step(window: seq<real>, output: Result<Option<Alert>, ParseError>)

  /** One call of the message handler on the window `w`, once the body is decoded. */
  function Next(w: seq<real>, n: nat, msg: Result<Reading, ParseError>): (s: Step)
    requires 1 <= n && |w| <= n
    ensures |s.window| <= n
    ensures s.output.Err? <==> msg.Err?
    ensures msg.Err? ==> s == Step(w, Err(msg.error))
  {
    match msg
    case Err(e) => Step(w, Err(e))
    case Ok(reading) =>
      var after := Append(w, n, reading.temperature);
      Step(after, Ok(Flag(after, n, reading.timestamp)))
  }

  /** The window after a sequence of messages, and what each message produced, in order. */
  datatype Trace = Trace(window: seq<real>, outputs: seq<Result<Option<Alert>, ParseError>>)

  /**
   * The consumer over a stream of messages. A message that fails to decode makes the
   * handler raise, which ends the consumer: its output is the last one, and the messages
   * after it are never handled. So the messages handled are all those before the first
   * failure, plus that failure if there is one.
   */
  function Run(w: seq<real>, n: nat, msgs: seq<Result<Reading, ParseError>>): (t: Trace)
    requires 1 <= n && |w| <= n
    ensures |t.window| <= n
    ensures |t.outputs| <= |msgs|
    ensures msgs != [] ==> t.outputs != []
    ensures forall k :: 0 <= k < |t.outputs| - 1 ==> msgs[k].Ok?
    ensures |t.outputs| < |msgs| ==> msgs[|t.outputs| - 1].Err?
    decreases |msgs|
  {
    if msgs == [] then Trace(w, [])
    else
      var first := Next(w, n, msgs[0]);
      if first.output.Err? then Trace(w, [first.output])
      else
        var rest := Run(first.window, n, msgs[1..]);
        Trace(rest.window, [first.output] + rest.outputs)
  }

  /** The temperature a decoded message adds to the window: none when it failed. */
  function Admitted(msg: Result<Reading, ParseError>): seq<real>
  {
    if msg.Ok? then [msg.value.temperature] else []
  }

  /** The temperatures of the messages that decoded, in order: what enters the window. */
  function Accepted(msgs: seq<Result<Reading, ParseError>>): (temps: seq<real>)
    ensures |temps| <= |msgs|
  {
    if msgs == [] then [] else Accepted(msgs[..|msgs| - 1]) + Admitted(msgs[|msgs| - 1])
  }

  /** Appending to the last `n` readings keeps exactly the last `n` readings. */
  lemma AppendSlides(h: seq<real>, n: nat, x: real)
    requires 1 <= n
    ensures Append(LastN(h, n), n, x) == LastN(h + [x], n)
  {
    if |h| > n {
      assert LastN(h, n)[1..] == h[|h| - n + 1..];
    }
  }

  lemma AcceptedSnoc(msgs: seq<Result<Reading, ParseError>>, i: nat)
    requires i < |msgs|
    ensures Accepted(msgs[..i + 1]) == Accepted(msgs[..i]) + Admitted(msgs[i])
  {
    assert msgs[..i + 1][..i] == msgs[..i];
  }

  lemma {:induction false} AcceptedPrefix(msgs: seq<Result<Reading, ParseError>>)
    requires msgs != []
    ensures Accepted(msgs) == Admitted(msgs[0]) + Accepted(msgs[1..])
    decreases |msgs|
  {
    var k := |msgs| - 1;
    if k > 0 {
      var init, tail := msgs[..k], msgs[1..];
      AcceptedPrefix(init);
      assert init[0] == msgs[0];
      assert init[1..] == tail[..k - 1];
      assert tail[k - 1] == msgs[k];
      calc {
        Accepted(msgs);
        Accepted(init) + Admitted(msgs[k]);
        Admitted(msgs[0]) + Accepted(tail[..k - 1]) + Admitted(msgs[k]);
        Admitted(msgs[0]) + (Accepted(tail[..k - 1]) + Admitted(tail[k - 1]));
        Admitted(msgs[0]) + Accepted(tail);
      }
    } else {
      assert msgs[..0] == [] && msgs[1..] == [];
    }
  }

  /** One message moves the window from the last `n` accepted readings to the next such window. */
  lemma NextSlides(h: seq<real>, n: nat, msg: Result<Reading, ParseError>)
    requires 1 <= n
    ensures Next(LastN(h, n), n, msg).window == LastN(h + Admitted(msg), n)
  {
    if msg.Ok? {
      AppendSlides(h, n, msg.value.temperature);
    } else {
      assert h + [] == h;
    }
  }

  /**
   * The window after any sequence of messages holds the last `n` readings of all that
   * were accepted among the messages handled, in arrival order.
   */
  lemma {:induction false} RunWindow(h: seq<real>, n: nat, msgs: seq<Result<Reading, ParseError>>)
    requires 1 <= n
    ensures var t := Run(LastN(h, n), n, msgs);
            t.window == LastN(h + Accepted(msgs[..|t.outputs|]), n)
    decreases |msgs|
  {
    var t := Run(LastN(h, n), n, msgs);
    if msgs == [] {
      assert msgs[..0] == [];
      assert h + [] == h;
    } else if msgs[0].Err? {
      assert msgs[..1][..0] == [];
      assert h + [] == h;
    } else {
      var h' := h + Admitted(msgs[0]);
      var rest := Run(LastN(h', n), n, msgs[1..]);
      NextSlides(h, n, msgs[0]);
      RunWindow(h', n, msgs[1..]);
      assert |t.outputs| == |rest.outputs| + 1;
      AcceptedShift(h, msgs, |rest.outputs| + 1);
    }
  }

  /** Starting empty, after `k` accepted readings the window holds `min(k, n)` of them. */
  lemma WindowSize(n: nat, bodies: seq<string>)
    requires 1 <= n
    ensures var t := Run([], n, Decode(bodies));
            var k := |Accepted(Decode(bodies)[..|t.outputs|])|;
            |t.window| == if k < n then k else n
  {
    var t := Run([], n, Decode(bodies));
    var acc := Accepted(Decode(bodies)[..|t.outputs|]);
    RunWindow([], n, Decode(bodies));
    assert LastN([], n) == [];
    assert [] + acc == acc;
  }

  lemma AcceptedShift(h: seq<real>, msgs: seq<Result<Reading, ParseError>>, i: nat)
    requires 1 <= i <= |msgs|
    ensures h + Admitted(msgs[0]) + Accepted(msgs[1..][..i - 1]) == h + Accepted(msgs[..i])
  {
    AcceptedPrefix(msgs[..i]);
    assert msgs[..i][1..] == msgs[1..][..i - 1];
    assert msgs[..i][0] == msgs[0];
  }

  /** The `i`-th output is what the handler makes of message `i` on the window built by the first `i`. */
  lemma {:induction false} RunOutput(h: seq<real>, n: nat, msgs: seq<Result<Reading, ParseError>>, i: nat)
    requires 1 <= n && i < |Run(LastN(h, n), n, msgs).outputs|
    ensures Run(LastN(h, n), n, msgs).outputs[i]
         == Next(LastN(h + Accepted(msgs[..i]), n), n, msgs[i]).output
    decreases i
  {
    var w := LastN(h, n);
    var first := Next(w, n, msgs[0]);
    if msgs[0].Err? {
      assert i == 0 && msgs[..0] == [];
      assert h + [] == h;
      return;
    }
    assert Run(w, n, msgs).outputs == [first.output] + Run(first.window, n, msgs[1..]).outputs;
    if i == 0 {
      assert msgs[..0] == [];
      assert h + [] == h;
    } else {
      var h' := h + Admitted(msgs[0]);
      NextSlides(h, n, msgs[0]);
      RunOutput(h', n, msgs[1..], i - 1);
      AcceptedShift(h, msgs, i);
      assert msgs[1..][i - 1] == msgs[i];
    }
  }

  /**
   * The flag rule stated on the whole history instead of the window: with `acc` the
   * readings accepted so far, the newest being `reading`'s, a flag is due exactly when
   * there are at least `n` of them and the one `n - 1` places before the newest exceeds
   * it by `DropThreshold` or more.
   */
  function FlagOnHistory(acc: seq<real>, n: nat, reading: Reading): Option<Alert>
    requires 1 <= n
  {
    if |acc| >= n && acc[|acc| - n] - reading.temperature >= DropThreshold
    then Some(Alert(acc[|acc| - n], reading.temperature, reading.timestamp))
    else None
  }

  /**
   * What one message produces, on the window of the last `n` accepted readings `h`,
   * `acc` being the readings accepted once it is handled: a failed message leaves them
   * as they were; an accepted one adds its temperature and is flagged as
   * `FlagOnHistory` says.
   */
  lemma NextOutput(h: seq<real>, acc: seq<real>, n: nat, msg: Result<Reading, ParseError>)
    requires 1 <= n && acc == h + Admitted(msg)
    ensures var out := Next(LastN(h, n), n, msg).output;
            match msg
            case Err(e) => out == Err(e) && acc == h
            case Ok(reading) =>
              acc[|acc| - 1] == reading.temperature && out == Ok(FlagOnHistory(acc, n, reading))
  {
    NextSlides(h, n, msg);
    if msg.Ok? && |acc| >= n {
      assert LastN(acc, n)[0] == acc[|acc| - n];
    } else if msg.Err? {
      assert acc == h;
    }
  }

  /**
   * The detector over a whole stream, from an empty window: a handled message `i` fails
   * exactly when it did not decode, and otherwise is flagged exactly as `FlagOnHistory`
   * says of the readings accepted up to and including it. Each qualifying message raises
   * its own flag.
   */
  lemma AlertsOfRun(n: nat, msgs: seq<Result<Reading, ParseError>>, i: nat)
    requires 1 <= n && i < |Run([], n, msgs).outputs|
    ensures var out := Run([], n, msgs).outputs[i];
            var acc := Accepted(msgs[..i + 1]);
            match msgs[i]
            case Err(e) => out == Err(e) && acc == Accepted(msgs[..i])
            case Ok(reading) =>
              acc[|acc| - 1] == reading.temperature && out == Ok(FlagOnHistory(acc, n, reading))
  {
    var before := Accepted(msgs[..i]);
    assert LastN([], n) == [];
    assert i < |Run(LastN([], n), n, msgs).outputs|;
    assert [] + before == before;
    RunOutput([], n, msgs, i);
    AcceptedSnoc(msgs, i);
    NextOutput(before, Accepted(msgs[..i + 1]), n, msgs[i]);
  }

  /** No flag is raised before `n` readings have been accepted. */
  lemma NoAlertBeforeFull(n: nat, msgs: seq<Result<Reading, ParseError>>, i: nat)
    requires 1 <= n && i < |Run([], n, msgs).outputs|
    requires |Accepted(msgs[..i + 1])| < n
    ensures var out := Run([], n, msgs).outputs[i]; !(out.Ok? && out.value.Some?)
  {
    AlertsOfRun(n, msgs, i);
  }

  /** The temperatures of a sequence of readings. */
  function Temperatures(readings: seq<Reading>): seq<real>
  {
    seq(|readings|, i requires 0 <= i < |readings| => readings[i].temperature)
  }

  /** When every message decoded, what enters the window is exactly their temperatures. */
  lemma {:induction false} AcceptedAllOk(msgs: seq<Result<Reading, ParseError>>, readings: seq<Reading>)
    requires |msgs| == |readings|
    requires forall i :: 0 <= i < |msgs| ==> msgs[i] == Ok(readings[i])
    ensures Accepted(msgs) == Temperatures(readings)
    decreases |msgs|
  {
    if msgs != [] {
      var k := |msgs| - 1;
      AcceptedAllOk(msgs[..k], readings[..k]);
      assert Temperatures(readings) == Temperatures(readings[..k]) + [readings[k].temperature];
    }
  }

  /**
   * On a stream of messages that all decode, message `i` flags exactly when it is at least
   * the `n`-th reading and the reading `n - 1` messages earlier exceeds it by
   * `DropThreshold` or more; the flag carries those two temperatures and message `i`'s
   * timestamp. Every message is handled.
   */
  lemma AlertsOfReadings(n: nat, msgs: seq<Result<Reading, ParseError>>, readings: seq<Reading>, i: nat)
    requires 1 <= n && i < |msgs| == |readings|
    requires forall k :: 0 <= k < |msgs| ==> msgs[k] == Ok(readings[k])
    ensures |Run([], n, msgs).outputs| == |msgs|
    ensures Run([], n, msgs).outputs[i]
         == Ok(if i + 1 >= n && readings[i + 1 - n].temperature - readings[i].temperature >= DropThreshold
               then Some(Alert(readings[i + 1 - n].temperature, readings[i].temperature, readings[i].timestamp))
               else None)
  {
    var prefix := msgs[..i + 1];
    AcceptedAllOk(prefix, readings[..i + 1]);
    var acc := Accepted(prefix);
    assert |acc| == i + 1;
    assert i + 1 >= n ==> acc[|acc| - n] == readings[i + 1 - n].temperature;
    assert msgs[i] == Ok(readings[i]);
    var t := Run([], n, msgs);
    assert |t.outputs| == |msgs|;
    AlertsOfRun(n, msgs, i);
  }

  /** The window of the smoker consumer, updated in place by each delivered message. */
  class Detector {
    const capacity: nat
    var window: seq<real>
    /** Every temperature ever appended, oldest first. */
    ghost var accepted: seq<real>

    ghost predicate Valid()
      reads this
    {
      1 <= capacity && window == LastN(accepted, capacity)
    }

    /** `deque(maxlen=capacity)`: an empty window. */
    constructor (capacity: nat)
      requires 1 <= capacity
      ensures Valid()
      ensures this.capacity == capacity && window == [] && accepted == []
    {
      this.capacity := capacity;
      window := [];
      accepted := [];
    }

    /** The message handler: decode, append, check. A body that fails to decode changes nothing. */
    method Observe(body: string) returns (result: Result<Option<Alert>, ParseError>)
      requires Valid()
      modifies this
      ensures Valid()
      ensures accepted == old(accepted) + Admitted(ParseBody(body))
      ensures window == Next(old(window), capacity, ParseBody(body)).window
      ensures result == Next(old(window), capacity, ParseBody(body)).output
      ensures ParseBody(body).Err? ==> result == Err(ParseBody(body).error) && window == old(window)
      ensures result.Ok? ==>
                (result.value.Some? <==> |window| == capacity && window[0] - window[|window| - 1] >= DropThreshold)
      ensures result.Ok? && result.value.Some? ==>
                result.value.value == Alert(window[0], window[|window| - 1], ParseBody(body).value.timestamp)
    {
      match ParseBody(body) {
        case Err(e) =>
          result := Err(e);
        case Ok(reading) =>
          AppendSlides(accepted, capacity, reading.temperature);
          window := Append(window, capacity, reading.temperature);
          accepted := accepted + [reading.temperature];
          result := Ok(None);
          if |window| == capacity {
            var drop := window[0] - window[|window| - 1];
            if drop >= DropThreshold {
              result := Ok(Some(Alert(window[0], window[|window| - 1], reading.timestamp)));
            }
          }
      }
    }
  }
}
