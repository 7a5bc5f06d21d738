/**
 * The producer: after skipping the header row of the CSV file, every data row
 * `Time, Smoker, Food1, Food2` is published as up to three messages, one per non-empty
 * temperature column, each carrying `str((Time, Temp))` to that column's queue.
 */
module Producer {
  import opened Wrappers
  import PyStr
  import PyFloat
  import SmokerConsumer

  /**
   * The three queues `str5_q_smoker`, `str5_q_food_1` and `str5_q_food_2`, in the order
   * a row is published to them.
   */
  datatype Queue = SmokerQueue | Food1Queue | Food2Queue

  /** Position of a queue's column in a row: Time is column 0. */
  function ColumnIndex(q: Queue): (k: nat)
    ensures 1 <= k <= 3
  {
    match q
    case SmokerQueue => 1
    case Food1Queue => 2
    case Food2Queue => 3
  }

  /**
   * One `basic_publish`: the routing key and the `(Time, Temp)` tuple whose `str` is
   * the body.
   */
  datatype Message = Message(queue: Queue, time: string, temp: string)
  {
    /**
     * The body on the wire: `str((time, temp))`, which for plain texts is the two
     * between single quotes inside a tuple's brackets.
     */
    function Body(): (b: string)
      ensures PyStr.Plain(time) && PyStr.Plain(temp) ==> b == "('" + time + "', '" + temp + "')"
    {
      PyStr.TupleRepr(time, temp)
    }
  }

  /**
   * What stops the producer: `next(reader)` on an empty file, or a data row that does
   * not unpack into four fields (`line` is its index in the file, the header being 0).
   */
  datatype ProducerError = MissingHeader | WrongFieldCount(line: nat, fields: nat)

  /** The messages published, in order, and the error that ended the loop, if any. */
  datatype Outcome = Outcome(sent: seq<Message>, error: Option<ProducerError>)

  /** The message for one temperature column of a row, if its field is non-empty. */
  function ColumnMessage(row: seq<string>, q: Queue): seq<Message>
    requires |row| == 4
  {
    if row[ColumnIndex(q)] != "" then [Message(q, row[0], row[ColumnIndex(q)])] else []
  }

  /** The messages of one data row: smoker, then food 1, then food 2. */
  function RowMessages(row: seq<string>): seq<Message>
    requires |row| == 4
  {
    ColumnMessage(row, SmokerQueue) + ColumnMessage(row, Food1Queue) + ColumnMessage(row, Food2Queue)
  }

  /** The messages of a run of well-formed data rows, in file order. */
  function Messages(rows: seq<seq<string>>): seq<Message>
    requires forall k :: 0 <= k < |rows| ==> |rows[k]| == 4
  {
    if rows == [] then [] else RowMessages(rows[0]) + Messages(rows[1..])
  }

  /** Index of the first data row from `from` on that does not have four fields, or `|file|`. */
  function FirstBadRow(file: seq<seq<string>>, from: nat): (j: nat)
    requires from <= |file|
    ensures from <= j <= |file|
    ensures forall k :: from <= k < j ==> |file[k]| == 4
    ensures j < |file| ==> |file[j]| != 4
    decreases |file| - from
  {
    if from == |file| || |file[from]| != 4 then from else FirstBadRow(file, from + 1)
  }

  /** The whole producer run on a file already split into rows by the CSV reader. */
  function Publish(file: seq<seq<string>>): Outcome
  {
    if file == [] then Outcome([], Some(MissingHeader))
    else
      var j := FirstBadRow(file, 1);
      Outcome(Messages(file[1..j]), if j < |file| then Some(WrongFieldCount(j, |file[j]|)) else None)
  }

  lemma {:induction false} MessagesAppend(rows: seq<seq<string>>, row: seq<string>)
    requires forall k :: 0 <= k < |rows| ==> |rows[k]| == 4
    requires |row| == 4
    ensures Messages(rows + [row]) == Messages(rows) + RowMessages(row)
  {
    if rows == [] {
      assert Messages([row]) == RowMessages(row) + Messages([]);
    } else {
      assert (rows + [row])[1..] == rows[1..] + [row];
      MessagesAppend(rows[1..], row);
    }
  }

  /** One more well-formed data row extends the messages published so far by its own. */
  lemma NextRow(file: seq<seq<string>>, i: nat)
    requires 1 <= i < |file|
    requires forall k :: 1 <= k < i ==> |file[k]| == 4
    requires |file[i]| == 4
    ensures forall k :: 1 <= k < i + 1 ==> |file[k]| == 4
    ensures Messages(file[1..i + 1]) == Messages(file[1..i]) + RowMessages(file[i])
  {
    MessagesAppend(file[1..i], file[i]);
    assert file[1..i + 1] == file[1..i] + [file[i]];
  }

  /**
   * The body of the `for row in reader` loop: unpack the row into Time and the three
   * temperatures, and publish a tuple for each temperature that is not the empty string.
   */
  method PublishRow(row: seq<string>) returns (published: seq<Message>)
    requires |row| == 4
    ensures published == RowMessages(row)
  {
    var time, smoker, food1, food2 := row[0], row[1], row[2], row[3];
    published := [];
    if smoker != "" {
      published := published + [Message(SmokerQueue, time, smoker)];
    }
    if food1 != "" {
      published := published + [Message(Food1Queue, time, food1)];
    }
    if food2 != "" {
      published := published + [Message(Food2Queue, time, food2)];
    }
  }

  /**
   * `send_msg` after the connection is set up: consume the header, then publish each
   * data row in turn until the rows run out or one fails to unpack.
   */
  method SendMsg(file: seq<seq<string>>) returns (out: Outcome)
    ensures out == Publish(file)
  {
    if file == [] {
      return Outcome([], Some(MissingHeader));
    }
    var sent: seq<Message> := [];
    var i := 1;
    while i < |file|
      invariant 1 <= i <= |file|
      invariant forall k :: 1 <= k < i ==> |file[k]| == 4
      invariant sent == Messages(file[1..i])
    {
      var row := file[i];
      if |row| != 4 {
        return Outcome(sent, Some(WrongFieldCount(i, |row|)));
      }
      var published := PublishRow(row);
      NextRow(file, i);
      sent := sent + published;
      i := i + 1;
    }
    assert file[1..i] == file[1..];
    return Outcome(sent, None);
  }

  /**
   * A row yields one message per non-empty temperature field and none for an empty one,
   * in column order; each pairs the row's own Time with that column's text and goes to
   * that column's queue.
   */
  lemma RowRouting(row: seq<string>)
    requires |row| == 4
    ensures var ms := RowMessages(row);
            |ms| <= 3 &&
            (forall i :: 0 <= i < |ms| ==>
               row[ColumnIndex(ms[i].queue)] != "" &&
               ms[i].time == row[0] && ms[i].temp == row[ColumnIndex(ms[i].queue)]) &&
            (forall i, j :: 0 <= i < j < |ms| ==> ColumnIndex(ms[i].queue) < ColumnIndex(ms[j].queue)) &&
            (forall q: Queue :: row[ColumnIndex(q)] != "" ==> exists i :: 0 <= i < |ms| && ms[i].queue == q)
  {
    var ms := RowMessages(row);
    var s, f1, f2 := ColumnMessage(row, SmokerQueue), ColumnMessage(row, Food1Queue), ColumnMessage(row, Food2Queue);
    assert ms == s + f1 + f2;
    forall i | 0 <= i < |ms|
      ensures row[ColumnIndex(ms[i].queue)] != ""
      ensures ms[i].time == row[0] && ms[i].temp == row[ColumnIndex(ms[i].queue)]
      ensures ColumnIndex(ms[i].queue) == if i < |s| then 1 else if i < |s| + |f1| then 2 else 3
    {
      if i < |s| {
        assert ms[i] == s[i];
      } else if i < |s| + |f1| {
        assert ms[i] == f1[i - |s|];
      } else {
        assert ms[i] == f2[i - |s| - |f1|];
      }
    }
    forall q: Queue | row[ColumnIndex(q)] != "" ensures exists i :: 0 <= i < |ms| && ms[i].queue == q {
      match q
      case SmokerQueue => assert ms[0].queue == q;
      case Food1Queue => assert ms[|s|].queue == q;
      case Food2Queue => assert ms[|s| + |f1|].queue == q;
    }
  }

  /** The bodies of the messages routed to `q`, in publishing order. */
  function QueueBodies(ms: seq<Message>, q: Queue): (bodies: seq<string>)
    ensures |bodies| <= |ms|
  {
    if ms == [] then []
    else (if ms[0].queue == q then [ms[0].Body()] else []) + QueueBodies(ms[1..], q)
  }

  /** The tuples of the rows whose `q` column is non-empty, in file order. */
  function ColumnTuples(rows: seq<seq<string>>, q: Queue): seq<string>
    requires forall k :: 0 <= k < |rows| ==> |rows[k]| == 4
  {
    if rows == [] then []
    else
      var row := rows[0];
      (if row[ColumnIndex(q)] != "" then [PyStr.TupleRepr(row[0], row[ColumnIndex(q)])] else [])
      + ColumnTuples(rows[1..], q)
  }

  lemma {:induction false} QueueBodiesAppend(a: seq<Message>, b: seq<Message>, q: Queue)
    ensures QueueBodies(a + b, q) == QueueBodies(a, q) + QueueBodies(b, q)
  {
    if a != [] {
      var head := if a[0].queue == q then [a[0].Body()] else [];
      QueueBodiesAppend(a[1..], b, q);
      assert (a + b)[0] == a[0];
      assert (a + b)[1..] == a[1..] + b;
      calc {
        QueueBodies(a + b, q);
        head + QueueBodies(a[1..] + b, q);
        head + (QueueBodies(a[1..], q) + QueueBodies(b, q));
        (head + QueueBodies(a[1..], q)) + QueueBodies(b, q);
      }
    } else {
      assert a + b == b;
    }
  }

  lemma ColumnQueueBodies(row: seq<string>, c: Queue, q: Queue)
    requires |row| == 4
    ensures QueueBodies(ColumnMessage(row, c), q)
         == if c == q && row[ColumnIndex(q)] != "" then [PyStr.TupleRepr(row[0], row[ColumnIndex(q)])] else []
  {
    if row[ColumnIndex(c)] != "" {
      var m := Message(c, row[0], row[ColumnIndex(c)]);
      assert ColumnMessage(row, c) == [m];
      assert QueueBodies([m], q) == (if c == q then [m.Body()] else []) + QueueBodies([], q);
    }
  }

  lemma RowQueueBodies(row: seq<string>, q: Queue)
    requires |row| == 4
    ensures QueueBodies(RowMessages(row), q)
         == if row[ColumnIndex(q)] != "" then [PyStr.TupleRepr(row[0], row[ColumnIndex(q)])] else []
  {
    var s, f1, f2 := ColumnMessage(row, SmokerQueue), ColumnMessage(row, Food1Queue), ColumnMessage(row, Food2Queue);
    QueueBodiesAppend(s + f1, f2, q);
    QueueBodiesAppend(s, f1, q);
    ColumnQueueBodies(row, SmokerQueue, q);
    ColumnQueueBodies(row, Food1Queue, q);
    ColumnQueueBodies(row, Food2Queue, q);
  }

  /**
   * Each queue receives, in file order, exactly one message per row whose column for
   * that queue is non-empty: the rows' interleaving across queues loses nothing and
   * reorders nothing within a queue.
   */
  lemma {:induction false} QueueStream(rows: seq<seq<string>>, q: Queue)
    requires forall k :: 0 <= k < |rows| ==> |rows[k]| == 4
    ensures QueueBodies(Messages(rows), q) == ColumnTuples(rows, q)
  {
    if rows != [] {
      QueueStream(rows[1..], q);
      QueueBodiesAppend(RowMessages(rows[0]), Messages(rows[1..]), q);
      RowQueueBodies(rows[0], q);
    }
  }

  lemma {:induction false} MessagesFromRows(rows: seq<seq<string>>, m: Message)
    requires forall k :: 0 <= k < |rows| ==> |rows[k]| == 4
    requires m in Messages(rows)
    ensures exists k :: 0 <= k < |rows| && m in RowMessages(rows[k])
  {
    if m !in RowMessages(rows[0]) {
      MessagesFromRows(rows[1..], m);
      var k :| 0 <= k < |rows[1..]| && m in RowMessages(rows[1..][k]);
      assert rows[1..][k] == rows[k + 1];
    }
  }

  /**
   * The producer's outcome: an empty file fails at the header; otherwise every data row
   * up to the first one that is not four fields wide is published in file order, and
   * that row, if any, is the error. The header row itself never yields a message.
   */
  lemma PublishOutcome(file: seq<seq<string>>)
    ensures file == [] ==> Publish(file) == Outcome([], Some(MissingHeader))
    ensures Publish(file).error == None <==> file != [] && forall k :: 1 <= k < |file| ==> |file[k]| == 4
    ensures Publish(file).error.Some? && Publish(file).error.value.WrongFieldCount? ==>
              var j := Publish(file).error.value.line;
              1 <= j < |file| && |file[j]| != 4 && Publish(file).error.value.fields == |file[j]| &&
              (forall k :: 1 <= k < j ==> |file[k]| == 4) &&
              Publish(file).sent == Messages(file[1..j])
    ensures Publish(file).error == None ==> Publish(file).sent == Messages(file[1..])
    ensures forall m :: m in Publish(file).sent ==>
              exists k :: 1 <= k < |file| && |file[k]| == 4 && m in RowMessages(file[k])
  {
    if file != [] {
      var j := FirstBadRow(file, 1);
      var rows := file[1..j];
      forall m | m in Publish(file).sent
        ensures exists k :: 1 <= k < |file| && |file[k]| == 4 && m in RowMessages(file[k])
      {
        MessagesFromRows(rows, m);
        var k :| 0 <= k < |rows| && m in RowMessages(rows[k]);
        assert rows[k] == file[k + 1];
      }
      if j == |file| {
        assert file[1..j] == file[1..];
      }
    }
  }

  /**
   * The wire format round trip: a body the producer writes for a Time and a temperature
   * text without quotes, backslashes or control characters is decoded by the smoker
   * consumer into that Time and the number the text denotes, or rejected as not a number.
   */
  lemma BodyRoundTrip(time: string, temp: string)
    requires PyStr.Plain(time) && PyStr.Plain(temp)
    ensures SmokerConsumer.ParseBody(PyStr.TupleRepr(time, temp))
         == match PyFloat.ParseNumber(temp)
            case Some(v) => Ok(SmokerConsumer.Reading(time, v))
            case None => Err(SmokerConsumer.NotANumber(temp))
  {
    PyStr.TupleReprJoin(time, temp);
    SmokerConsumer.ParseBodyPieces("(", time, ", ", temp, ")");
  }

  /**
   * A Time holding two single quotes and no double quote is `repr`-ed between double
   * quotes, so its body still splits into five pieces and the consumer takes the text
   * between the two quotes for the timestamp.
   */
  lemma QuotedTimeMisread(p: string, q: string, r: string, temp: string)
    requires PyStr.Plain(p) && PyStr.Plain(q) && PyStr.Plain(r) && PyStr.Plain(temp)
    requires '"' !in p && '"' !in q && '"' !in r
    ensures SmokerConsumer.ParseBody(PyStr.TupleRepr(p + "'" + q + "'" + r, temp))
         == match PyFloat.ParseNumber(temp)
            case Some(v) => Ok(SmokerConsumer.Reading(q, v))
            case None => Err(SmokerConsumer.NotANumber(temp))
  {
    var front, comma := "(\"" + p, r + "\", ";
    assert PyStr.TupleRepr(p + "'" + q + "'" + r, temp) == PyStr.Join([front, q, comma, temp, ")"], '\'') by {
      QuotedTimeRepr(p, q, r, temp);
    }
    SmokerConsumer.ParseBodyPieces(front, q, comma, temp, ")");
  }

  /** The tuple repr of such a Time and plain text, cut at its single quotes. */
  lemma QuotedTimeRepr(p: string, q: string, r: string, temp: string)
    requires PyStr.Plain(p) && PyStr.Plain(q) && PyStr.Plain(r) && PyStr.Plain(temp)
    requires '"' !in p && '"' !in q && '"' !in r
    ensures PyStr.TupleRepr(p + "'" + q + "'" + r, temp)
         == PyStr.Join(["(\"" + p, q, r + "\", ", temp, ")"], '\'')
  {
    var time := p + "'" + q + "'" + r;
    assert PyStr.TupleRepr(time, temp) == "(" + ("\"" + time + "\"") + ", " + ("'" + temp + "'") + ")" by {
      PyStr.TwoQuotesText(p, q, r);
      PyStr.DoubleQuotedRepr(time);
    }
    Regroup(p, q, r, temp);
    PyStr.JoinFive("(\"" + p, q, r + "\", ", temp, ")", '\'');
  }

  /** The same characters, grouped around the four single quotes. */
  lemma Regroup(p: string, q: string, r: string, temp: string)
    ensures "(" + ("\"" + (p + "'" + q + "'" + r) + "\"") + ", " + ("'" + temp + "'") + ")"
         == ("(\"" + p) + ['\''] + q + ['\''] + (r + "\", ") + ['\''] + temp + ['\''] + ")"
  {
  }

  /**
   * The same on the temperature side: a temperature text `p'q'r` with no double quote,
   * sent with a plain Time, is read as the number `q` denotes.
   */
  lemma QuotedTempMisread(time: string, p: string, q: string, r: string)
    requires PyStr.Plain(time) && PyStr.Plain(p) && PyStr.Plain(q) && PyStr.Plain(r)
    requires '"' !in p && '"' !in q && '"' !in r
    ensures SmokerConsumer.ParseBody(PyStr.TupleRepr(time, p + "'" + q + "'" + r))
         == match PyFloat.ParseNumber(q)
            case Some(v) => Ok(SmokerConsumer.Reading(time, v))
            case None => Err(SmokerConsumer.NotANumber(q))
  {
    var comma, back := ", \"" + p, r + "\")";
    assert PyStr.TupleRepr(time, p + "'" + q + "'" + r) == PyStr.Join(["(", time, comma, q, back], '\'') by {
      QuotedTempRepr(time, p, q, r);
    }
    SmokerConsumer.ParseBodyPieces("(", time, comma, q, back);
  }

  /** The tuple repr of plain text and such a temperature text, cut at its single quotes. */
  lemma QuotedTempRepr(time: string, p: string, q: string, r: string)
    requires PyStr.Plain(time) && PyStr.Plain(p) && PyStr.Plain(q) && PyStr.Plain(r)
    requires '"' !in p && '"' !in q && '"' !in r
    ensures PyStr.TupleRepr(time, p + "'" + q + "'" + r)
         == PyStr.Join(["(", time, ", \"" + p, q, r + "\")"], '\'')
  {
    var temp := p + "'" + q + "'" + r;
    assert PyStr.TupleRepr(time, temp) == "(" + ("'" + time + "'") + ", " + ("\"" + temp + "\"") + ")" by {
      PyStr.TwoQuotesText(p, q, r);
      PyStr.DoubleQuotedRepr(temp);
    }
    RegroupTemp(time, p, q, r);
    PyStr.JoinFive("(", time, ", \"" + p, q, r + "\")", '\'');
  }

  /** The same characters, grouped around the four single quotes. */
  lemma RegroupTemp(time: string, p: string, q: string, r: string)
    ensures "(" + ("'" + time + "'") + ", " + ("\"" + (p + "'" + q + "'" + r) + "\"") + ")"
         == "(" + ['\''] + time + ['\''] + (", \"" + p) + ['\''] + q + ['\''] + (r + "\")")
  {
  }
}
