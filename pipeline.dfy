/**
 * The producer and the smoker consumer together: the smoker column of a CSV file is
 * published to the smoker queue and fed to the detector. Worked cases follow: a
 * 16-degree drop, an 8-degree drop, drops of 15.0 and 14.9 between readings with a
 * decimal digit, a sixth reading sliding the window to an exact 15-degree drop, and any
 * file with fewer readings than the window holds.
 */
module Pipeline {
  import opened Wrappers
  import PyStr
  import PyFloat
  import SmokerConsumer
  import Producer

  /**
   * Data rows the pipeline carries without loss: four fields each. Every row with a
   * smoker reading has a Time and a reading that `repr` writes verbatim. The food
   * columns may hold anything.
   */
  predicate SmokerRowsPlain(rows: seq<seq<string>>)
  {
    forall k :: 0 <= k < |rows| ==>
      |rows[k]| == 4 && (rows[k][1] != "" ==> PyStr.Plain(rows[k][0]) && PyStr.Plain(rows[k][1]))
  }

  /** The bodies the smoker consumer receives when the producer publishes `file`. */
  function SmokerStream(file: seq<seq<string>>): seq<string>
  {
    Producer.QueueBodies(Producer.Publish(file).sent, Producer.SmokerQueue)
  }

  /** What the smoker consumer makes of each of its messages when the producer publishes `file`. */
  function SmokerOutputs(file: seq<seq<string>>): seq<Result<Option<SmokerConsumer.Alert>, SmokerConsumer.ParseError>>
  {
    SmokerConsumer.Run([], SmokerConsumer.MaxDequeSpace, SmokerConsumer.Decode(SmokerStream(file))).outputs
  }

  /**
   * What the smoker column of the data rows stands for, read straight off the file: one
   * entry per row with a non-empty smoker field, in file order. Each entry is that row's
   * Time with the number the field denotes, or the rejection of a field that is not a
   * number; no other rejection occurs.
   */
  function SmokerReadings(rows: seq<seq<string>>): (msgs: seq<Result<SmokerConsumer.Reading, SmokerConsumer.ParseError>>)
    requires forall k :: 0 <= k < |rows| ==> |rows[k]| == 4
    ensures |msgs| <= |rows|
    ensures forall k :: 0 <= k < |msgs| && msgs[k].Err? ==> msgs[k].error.NotANumber?
  {
    if rows == [] then [] else SmokerReading(rows[0]) + SmokerReadings(rows[1..])
  }

  /** What one row's smoker column stands for: nothing when the field is empty. */
  function SmokerReading(row: seq<string>): seq<Result<SmokerConsumer.Reading, SmokerConsumer.ParseError>>
    requires |row| == 4
  {
    var time, text := row[0], row[1];
    if text == "" then []
    else match PyFloat.ParseNumber(text)
      case Some(v) => [Ok(SmokerConsumer.Reading(time, v))]
      case None => [Err(SmokerConsumer.NotANumber(text))]
  }

  /** One row's smoker tuple, if any, decodes into what the row's smoker column stands for. */
  lemma DecodeSmokerRow(row: seq<string>)
    requires |row| == 4 && (row[1] != "" ==> PyStr.Plain(row[0]) && PyStr.Plain(row[1]))
    ensures SmokerConsumer.Decode(if row[1] != "" then [PyStr.TupleRepr(row[0], row[1])] else [])
         == SmokerReading(row)
  {
    if row[1] != "" {
      Producer.BodyRoundTrip(row[0], row[1]);
    }
  }

  /** The smoker queue's tuples decode, one by one, into what the smoker column stands for. */
  lemma {:induction false} DecodeSmokerColumn(rows: seq<seq<string>>)
    requires SmokerRowsPlain(rows)
    ensures SmokerConsumer.Decode(Producer.ColumnTuples(rows, Producer.SmokerQueue)) == SmokerReadings(rows)
    decreases |rows|
  {
    if rows != [] {
      var row := rows[0];
      var head := if row[1] != "" then [PyStr.TupleRepr(row[0], row[1])] else [];
      var tail := Producer.ColumnTuples(rows[1..], Producer.SmokerQueue);
      assert Producer.ColumnTuples(rows, Producer.SmokerQueue) == head + tail;
      assert SmokerRowsPlain(rows[1..]) by {
        forall k | 0 <= k < |rows[1..]| ensures rows[1..][k] == rows[k + 1] { }
      }
      DecodeSmokerColumn(rows[1..]);
      SmokerConsumer.DecodeAppend(head, tail);
      DecodeSmokerRow(row);
    }
  }

  /**
   * End to end: for a file with a header and such data rows, the smoker consumer receives
   * exactly the smoker column's readings, in file order. Its outputs are the detector's
   * run over them.
   */
  lemma SmokerStreamDecodes(header: seq<string>, rows: seq<seq<string>>)
    requires SmokerRowsPlain(rows)
    ensures SmokerConsumer.Decode(SmokerStream([header] + rows)) == SmokerReadings(rows)
    ensures SmokerOutputs([header] + rows)
         == SmokerConsumer.Run([], SmokerConsumer.MaxDequeSpace, SmokerReadings(rows)).outputs
  {
    var file := [header] + rows;
    assert file[1..] == rows;
    Producer.PublishOutcome(file);
    assert Producer.Publish(file).sent == Producer.Messages(rows);
    Producer.QueueStream(rows, Producer.SmokerQueue);
    DecodeSmokerColumn(rows);
  }

  /**
   * End to end, for any reading the consumer handles: it fails exactly when the smoker
   * field is not a number. Otherwise it is flagged exactly as `FlagOnHistory` says of the
   * readings so far, with a window of `MaxDequeSpace`.
   */
  lemma SmokerFileAlert(header: seq<string>, rows: seq<seq<string>>, i: nat)
    requires SmokerRowsPlain(rows)
    requires i < |SmokerConsumer.Run([], SmokerConsumer.MaxDequeSpace, SmokerReadings(rows)).outputs|
    ensures i < |SmokerOutputs([header] + rows)|
    ensures var msgs := SmokerReadings(rows);
            var out := SmokerOutputs([header] + rows)[i];
            var acc := SmokerConsumer.Accepted(msgs[..i + 1]);
            match msgs[i]
            case Err(e) => out == Err(e) && e.NotANumber?
            case Ok(reading) =>
              acc[|acc| - 1] == reading.temperature &&
              out == Ok(SmokerConsumer.FlagOnHistory(acc, SmokerConsumer.MaxDequeSpace, reading))
  {
    SmokerStreamDecodes(header, rows);
    SmokerConsumer.AlertsOfRun(SmokerConsumer.MaxDequeSpace, SmokerReadings(rows), i);
  }

  /**
   * The flag expected for the `i`-th smoker reading: raised when the reading four places
   * earlier is at least `DropThreshold` higher, carrying both and the `i`-th timestamp.
   */
  function Expected(readings: seq<SmokerConsumer.Reading>, i: nat): Result<Option<SmokerConsumer.Alert>, SmokerConsumer.ParseError>
    requires i < |readings|
  {
    var newer := readings[i];
    Ok(if i >= 4 && readings[i - 4].temperature - newer.temperature >= SmokerConsumer.DropThreshold
       then Some(SmokerConsumer.Alert(readings[i - 4].temperature, newer.temperature, newer.timestamp))
       else None)
  }

  /**
   * End to end, for a file whose smoker fields are all numbers, `readings` being their
   * values: every reading is handled, and the `i`-th flags exactly as `Expected` says.
   */
  lemma SmokerFileAlerts(header: seq<string>, rows: seq<seq<string>>, readings: seq<SmokerConsumer.Reading>)
    requires SmokerRowsPlain(rows)
    requires |SmokerReadings(rows)| == |readings|
    requires forall k :: 0 <= k < |readings| ==> SmokerReadings(rows)[k] == Ok(readings[k])
    ensures var out := SmokerOutputs([header] + rows);
            |out| == |readings| &&
            forall i :: 0 <= i < |readings| ==> out[i] == Expected(readings, i)
  {
    SmokerStreamDecodes(header, rows);
    RunExpected(SmokerReadings(rows), readings);
  }

  /** The detector with a window of `MaxDequeSpace` over readings that all decoded. */
  lemma RunExpected(msgs: seq<Result<SmokerConsumer.Reading, SmokerConsumer.ParseError>>, readings: seq<SmokerConsumer.Reading>)
    requires |msgs| == |readings|
    requires forall k :: 0 <= k < |readings| ==> msgs[k] == Ok(readings[k])
    ensures var out := SmokerConsumer.Run([], SmokerConsumer.MaxDequeSpace, msgs).outputs;
            |out| == |readings| &&
            forall i :: 0 <= i < |readings| ==> out[i] == Expected(readings, i)
  {
    var out := SmokerConsumer.Run([], SmokerConsumer.MaxDequeSpace, msgs).outputs;
    forall i | 0 <= i < |readings|
      ensures |out| == |readings| && out[i] == Expected(readings, i)
    {
      SmokerConsumer.AlertsOfReadings(SmokerConsumer.MaxDequeSpace, msgs, readings, i);
    }
    if readings == [] {
      assert |out| <= |msgs|;
    }
  }

  /**
   * Data rows with only a smoker reading: a Time each, and `temps[k]` written with the
   * point `places` digits from its right end (`2505` and 1 is `"250.5"`; with 0 places a
   * whole number).
   */
  function SmokerRows(times: seq<string>, temps: seq<int>, places: nat): seq<seq<string>>
    requires |times| == |temps|
  {
    seq(|times|, k requires 0 <= k < |times| => [times[k], PyFloat.FormatFixed(temps[k], places), "", ""])
  }

  /** Such smoker rows stand for their own Times and the temperatures written in them. */
  lemma {:induction false} FixedReadings(times: seq<string>, temps: seq<int>, places: nat)
    requires |times| == |temps|
    requires forall k :: 0 <= k < |times| ==> PyStr.Plain(times[k])
    ensures SmokerRowsPlain(SmokerRows(times, temps, places))
    ensures |SmokerReadings(SmokerRows(times, temps, places))| == |times|
    ensures forall k :: 0 <= k < |times| ==>
              SmokerReadings(SmokerRows(times, temps, places))[k]
              == Ok(SmokerConsumer.Reading(times[k], PyFloat.Scale(temps[k], places)))
    decreases |times|
  {
    var rows := SmokerRows(times, temps, places);
    assert SmokerRowsPlain(rows) by {
      forall k | 0 <= k < |times| ensures PyStr.Plain(rows[k][1]) {
        PyFloat.FormatFixedPlain(temps[k], places);
      }
    }
    if times != [] {
      var tail := SmokerReadings(rows[1..]);
      assert rows[1..] == SmokerRows(times[1..], temps[1..], places);
      FixedReadings(times[1..], temps[1..], places);
      assert SmokerReadings(rows) == [Ok(SmokerConsumer.Reading(times[0], PyFloat.Scale(temps[0], places)))] + tail by {
        FixedRow(times[0], temps[0], places);
        assert rows[0] == [times[0], PyFloat.FormatFixed(temps[0], places), "", ""];
      }
      forall k | 1 <= k < |times|
        ensures SmokerReadings(rows)[k] == Ok(SmokerConsumer.Reading(times[k], PyFloat.Scale(temps[k], places)))
      {
        assert SmokerReadings(rows)[k] == tail[k - 1];
        assert times[1..][k - 1] == times[k] && temps[1..][k - 1] == temps[k];
      }
    }
  }

  /** One such smoker row stands for its Time and the temperature written in it. */
  lemma FixedRow(time: string, temp: int, places: nat)
    ensures SmokerReading([time, PyFloat.FormatFixed(temp, places), "", ""])
         == [Ok(SmokerConsumer.Reading(time, PyFloat.Scale(temp, places)))]
  {
    PyFloat.ParseFormatFixed(temp, places);
  }

  /** The readings a file of `SmokerRows` stands for. */
  function Readings(times: seq<string>, temps: seq<int>, places: nat): seq<SmokerConsumer.Reading>
    requires |times| == |temps|
  {
    seq(|times|, k requires 0 <= k < |times| => SmokerConsumer.Reading(times[k], PyFloat.Scale(temps[k], places)))
  }

  /** End to end for a file of such smoker rows. */
  lemma WorkedCase(header: seq<string>, times: seq<string>, temps: seq<int>, places: nat)
    requires |times| == |temps| && forall k :: 0 <= k < |times| ==> PyStr.Plain(times[k])
    ensures var out := SmokerOutputs([header] + SmokerRows(times, temps, places));
            |out| == |times| &&
            forall i :: 0 <= i < |times| ==> out[i] == Expected(Readings(times, temps, places), i)
  {
    FixedReadings(times, temps, places);
    SmokerFileAlerts(header, SmokerRows(times, temps, places), Readings(times, temps, places));
  }

  /** Five readings falling 16 degrees: the fifth raises a flag with 250 and 234. */
  lemma DropOf16Flags(header: seq<string>, times: seq<string>)
    requires |times| == 5 && forall k :: 0 <= k < 5 ==> PyStr.Plain(times[k])
    ensures SmokerOutputs([header] + SmokerRows(times, [250, 245, 240, 236, 234], 0))
         == [Ok(None), Ok(None), Ok(None), Ok(None), Ok(Some(SmokerConsumer.Alert(250.0, 234.0, times[4])))]
  {
    var temps := [250, 245, 240, 236, 234];
    var out := SmokerOutputs([header] + SmokerRows(times, temps, 0));
    var readings := Readings(times, temps, 0);
    WorkedCase(header, times, temps, 0);
    FiveReadings(out, readings);
    assert readings[0].temperature == 250.0 && readings[4].temperature == 234.0;
    assert out == out[..4] + [out[4]];
  }

  /** Five readings falling 8 degrees: no flag. */
  lemma DropOf8DoesNotFlag(header: seq<string>, times: seq<string>)
    requires |times| == 5 && forall k :: 0 <= k < 5 ==> PyStr.Plain(times[k])
    ensures SmokerOutputs([header] + SmokerRows(times, [250, 248, 246, 244, 242], 0))
         == [Ok(None), Ok(None), Ok(None), Ok(None), Ok(None)]
  {
    var temps := [250, 248, 246, 244, 242];
    var out := SmokerOutputs([header] + SmokerRows(times, temps, 0));
    var readings := Readings(times, temps, 0);
    WorkedCase(header, times, temps, 0);
    FiveReadings(out, readings);
    assert readings[0].temperature == 250.0 && readings[4].temperature == 242.0;
    assert out == out[..4] + [out[4]];
  }

  /**
   * Readings with a decimal digit, `"250.5"` down to `"235.5"`: a drop of exactly 15.0
   * flags, with the values the fields denote.
   */
  lemma DecimalDropOf15Flags(header: seq<string>, times: seq<string>)
    requires |times| == 5 && forall k :: 0 <= k < 5 ==> PyStr.Plain(times[k])
    ensures SmokerOutputs([header] + SmokerRows(times, [2505, 2450, 2400, 2360, 2355], 1))
         == [Ok(None), Ok(None), Ok(None), Ok(None), Ok(Some(SmokerConsumer.Alert(250.5, 235.5, times[4])))]
  {
    var temps := [2505, 2450, 2400, 2360, 2355];
    var out := SmokerOutputs([header] + SmokerRows(times, temps, 1));
    var readings := Readings(times, temps, 1);
    WorkedCase(header, times, temps, 1);
    FiveReadings(out, readings);
    assert readings[0].temperature == 250.5 && readings[4].temperature == 235.5;
    assert out == out[..4] + [out[4]];
  }

  /** The same readings ending at `"235.6"`: a drop of 14.9 falls short of the threshold. */
  lemma DecimalDropOf14Point9DoesNotFlag(header: seq<string>, times: seq<string>)
    requires |times| == 5 && forall k :: 0 <= k < 5 ==> PyStr.Plain(times[k])
    ensures SmokerOutputs([header] + SmokerRows(times, [2505, 2450, 2400, 2360, 2356], 1))
         == [Ok(None), Ok(None), Ok(None), Ok(None), Ok(None)]
  {
    var temps := [2505, 2450, 2400, 2360, 2356];
    var out := SmokerOutputs([header] + SmokerRows(times, temps, 1));
    var readings := Readings(times, temps, 1);
    WorkedCase(header, times, temps, 1);
    FiveReadings(out, readings);
    assert readings[0].temperature == 250.5 && readings[4].temperature == 235.6;
    assert out == out[..4] + [out[4]];
  }

  /**
   * A file of four-field rows with fewer non-empty smoker fields than the window holds
   * raises no flag, whatever the fields say and however `repr` writes them: the smoker
   * queue carries one tuple per such field, so the window never fills.
   */
  lemma FewReadingsNeverFlag(header: seq<string>, rows: seq<seq<string>>)
    requires forall k :: 0 <= k < |rows| ==> |rows[k]| == 4
    requires |SmokerReadings(rows)| < SmokerConsumer.MaxDequeSpace
    ensures var out := SmokerOutputs([header] + rows);
            forall i :: 0 <= i < |out| ==> !(out[i].Ok? && out[i].value.Some?)
  {
    var file := [header] + rows;
    assert SmokerStream(file) == Producer.ColumnTuples(rows, Producer.SmokerQueue) by {
      assert file[1..] == rows;
      Producer.PublishOutcome(file);
      Producer.QueueStream(rows, Producer.SmokerQueue);
    }
    SmokerTupleCount(rows);
    var msgs := SmokerConsumer.Decode(SmokerStream(file));
    assert |msgs| < SmokerConsumer.MaxDequeSpace;
    forall i | 0 <= i < |SmokerOutputs(file)|
      ensures var out := SmokerOutputs(file)[i]; !(out.Ok? && out.value.Some?)
    {
      assert |msgs[..i + 1]| == i + 1;
      SmokerConsumer.NoAlertBeforeFull(SmokerConsumer.MaxDequeSpace, msgs, i);
    }
  }

  /** The smoker queue carries one tuple per non-empty smoker field, plain or not. */
  lemma {:induction false} SmokerTupleCount(rows: seq<seq<string>>)
    requires forall k :: 0 <= k < |rows| ==> |rows[k]| == 4
    ensures |Producer.ColumnTuples(rows, Producer.SmokerQueue)| == |SmokerReadings(rows)|
    decreases |rows|
  {
    if rows != [] {
      assert forall k :: 0 <= k < |rows[1..]| ==> rows[1..][k] == rows[k + 1];
      SmokerTupleCount(rows[1..]);
    }
  }

  /** Five expected outputs: no flag before the window fills, then whatever the fifth reading gives. */
  lemma FiveReadings(out: seq<Result<Option<SmokerConsumer.Alert>, SmokerConsumer.ParseError>>,
                     readings: seq<SmokerConsumer.Reading>)
    requires |readings| == 5 && |out| == 5 && forall i :: 0 <= i < 5 ==> out[i] == Expected(readings, i)
    ensures out[..4] == [Ok(None), Ok(None), Ok(None), Ok(None)]
    ensures out[4] == Expected(readings, 4)
  {
    assert out[0] == Expected(readings, 0) && out[1] == Expected(readings, 1);
    assert out[2] == Expected(readings, 2) && out[3] == Expected(readings, 3);
  }

  /**
   * A sixth reading slides the window to 245 .. 230: the drop is measured from the
   * window's current oldest reading, not the first ever, and a drop of exactly 15 flags.
   */
  lemma ExactDropOf15FlagsAfterSlide(header: seq<string>, times: seq<string>)
    requires |times| == 6 && forall k :: 0 <= k < 6 ==> PyStr.Plain(times[k])
    ensures SmokerOutputs([header] + SmokerRows(times, [250, 245, 240, 236, 234, 230], 0))
         == [Ok(None), Ok(None), Ok(None), Ok(None),
             Ok(Some(SmokerConsumer.Alert(250.0, 234.0, times[4]))),
             Ok(Some(SmokerConsumer.Alert(245.0, 230.0, times[5])))]
  {
    var temps := [250, 245, 240, 236, 234, 230];
    var out := SmokerOutputs([header] + SmokerRows(times, temps, 0));
    WorkedCase(header, times, temps, 0);
    SlideCase(times, out, Readings(times, temps, 0));
  }

  /** The outputs `Expected` gives for the six readings 250, 245, 240, 236, 234, 230. */
  lemma SlideCase(times: seq<string>, out: seq<Result<Option<SmokerConsumer.Alert>, SmokerConsumer.ParseError>>,
                  readings: seq<SmokerConsumer.Reading>)
    requires |times| == 6
    requires readings == Readings(times, [250, 245, 240, 236, 234, 230], 0)
    requires |out| == 6 && forall i :: 0 <= i < 6 ==> out[i] == Expected(readings, i)
    ensures out == [Ok(None), Ok(None), Ok(None), Ok(None),
                    Ok(Some(SmokerConsumer.Alert(250.0, 234.0, times[4]))),
                    Ok(Some(SmokerConsumer.Alert(245.0, 230.0, times[5])))]
  {
    assert readings[0].temperature == 250.0 && readings[4].temperature == 234.0;
    assert readings[1].temperature == 245.0 && readings[5].temperature == 230.0;
    assert out[4] == Expected(readings, 4) && out[5] == Expected(readings, 5);
  }
}
