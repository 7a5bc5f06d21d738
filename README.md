# Smart smoker streaming: a Dafny model

The smart smoker system streams the readings of a smoker thermometer log through three
message queues. A producer reads a CSV file whose rows are `Time, Smoker, Food1, Food2`. It
skips the header row. For every data row, it publishes the pair `(Time, Temp)` of each
non-empty temperature column to that column's queue (`str5_q_smoker`, `str5_q_food_1`,
`str5_q_food_2`), in that order. The body of each message is Python's `str` of the tuple.

The smoker consumer takes each body apart again:
- it splits the body on the single quote into exactly five pieces;
- it converts the fourth piece to a number;
- it appends the number to a window that keeps the last five readings (`deque(maxlen=5)`);
- once the window is full, it raises a flag when the oldest reading exceeds the newest by
  15 degrees or more. The flag carries both temperatures and the message's timestamp.

The model has six modules, one per file:

- `Wrappers` (`wrappers.dfy`): `Option` and `Result`.
- `PyStr` (`pystr.dfy`): Python's `str.split` on one character, with its inverse `Join`. Also
  `repr` of a string (quote selection and escaping) and `str` of a pair of strings.
- `PyFloat` (`pyfloat.dfy`): the decimal numerals `float()` accepts, with exact `real` values.
  Also an integer formatter and a fixed-point formatter (`"250.5"`, `"-0.05"`) that produce
  such numerals.
- `SmokerConsumer` (`consumer.dfy`): the body decoder `ParseBody` and the deque as pure
  functions (`LastN`, `Append`, `Flag`, `Next`, `Run`). Also the `Detector` class, whose
  `window` field `Observe` updates in place as `deque_and_flag` does. The lemmas relate the
  window to the whole history of accepted readings.
- `Producer` (`producer.dfy`): the publishing loop. `SendMsg` and `PublishRow` are methods
  with the source's loop and branches. `Publish` is the function that specifies them.
- `Pipeline` (`pipeline.dfy`): both sides together. The smoker column of any file of
  four-field rows is published, decoded and run through the window. Worked cases follow:
  a 16-degree drop, an 8-degree drop, drops of 15.0 and 14.9 between readings with a decimal
  digit, and a sixth reading that slides the window to an exact 15-degree drop. Any file with
  fewer than five smoker readings raises no flag.

Temperatures are exact reals. A failed message is modelled as an error value:
- a body that is not five pieces gives `WrongPieceCount`;
- a fourth piece that is not a number gives `NotANumber`;
- a data row that is not four fields gives `WrongFieldCount`;
- an empty file gives `MissingHeader`.

On the consumer side such an error ends the stream: the handler raises out of
`start_consuming`, and the program exits. `Run` therefore stops at the first failed message.
On the producer side, the messages of earlier rows have already been published when a bad
row raises. `Outcome` therefore records both the messages sent and the error.

## Model

| member | source | states |
|---|---|---|
| SmokerConsumer.ParseBody | temperature_consumer_smoker.py:48-51 | A body whose number of single quotes is not four is rejected with its piece count. An accepted timestamp contains no single quote. |
| SmokerConsumer.ParseBodyPieces | temperature_consumer_smoker.py:48-51 | A body of five quote-free pieces, which is every body with four single quotes, decodes to the second piece as the timestamp and the number the fourth piece denotes. If the fourth piece is not a number, the body is rejected with it. |
| SmokerConsumer.LastN | temperature_consumer_smoker.py:28 | The window of capacity `n` over a history holds as many readings as the history has, but at most `n`. |
| SmokerConsumer.Append | temperature_consumer_smoker.py:54 | Appending grows a non-full window by one, keeps a full one at `n`, puts the new reading last and keeps the surviving readings in their order, so only the oldest is evicted. |
| SmokerConsumer.Flag | temperature_consumer_smoker.py:58-69 | A flag is raised only on a full window whose oldest reading exceeds the newest by at least 15.0. |
| SmokerConsumer.DecodeAppend | temperature_consumer_smoker.py:89-90 | Each delivered body is decoded on its own: decoding a stream in two parts decodes each part separately. |
| SmokerConsumer.Next | temperature_consumer_smoker.py:34-69 | One handler call: the window stays within capacity; the call fails exactly when the body did not decode; a failed call leaves the window unchanged. |
| SmokerConsumer.Run | temperature_consumer_smoker.py:135-144 | Over a stream, every message before the last one handled decoded. The stream ends early only at a message that failed. The window stays within capacity. |
| SmokerConsumer.AppendSlides | temperature_consumer_smoker.py:54 | Appending to the last `n` readings of a history gives the last `n` readings of the history extended by the new one. |
| SmokerConsumer.NextSlides | temperature_consumer_smoker.py:48-54 | After one message, the window is the last `n` of the accepted readings, a failed message adding none. |
| SmokerConsumer.RunWindow | temperature_consumer_smoker.py:28 | After any stream, the window holds the last `n` readings accepted among the messages handled, in arrival order. |
| SmokerConsumer.WindowSize | temperature_consumer_smoker.py:21 | Starting empty, after `k` accepted readings the window holds `min(k, n)`. |
| SmokerConsumer.RunOutput | temperature_consumer_smoker.py:34-69 | The `i`-th output is the handler applied to message `i`, on the window built from the readings accepted before it. |
| SmokerConsumer.NextOutput | temperature_consumer_smoker.py:58-69 | One message, stated on the history: a failure adds nothing; an accepted reading is flagged exactly when at least `n` readings exist and the one `n - 1` places earlier exceeds it by 15.0 or more. The flag carries those two values and the message's timestamp. |
| SmokerConsumer.AlertsOfRun | temperature_consumer_smoker.py:58-69 | In a whole stream from an empty window, each handled message fails exactly when it did not decode. Otherwise it is flagged exactly by the history rule above, so every qualifying message raises its own flag. |
| SmokerConsumer.NoAlertBeforeFull | temperature_consumer_smoker.py:58 | No flag is raised while fewer than `n` readings have been accepted. |
| SmokerConsumer.AcceptedAllOk | temperature_consumer_smoker.py:54 | When every message decodes, the readings entering the window are exactly their temperatures, in order. |
| SmokerConsumer.AlertsOfReadings | temperature_consumer_smoker.py:58-65 | On a stream where every message decodes, every message is handled. Message `i` flags exactly when `i + 1 >= n` and reading `i + 1 - n` exceeds reading `i` by at least 15.0 (inclusive). |
| SmokerConsumer.Detector.constructor | temperature_consumer_smoker.py:28 | The window starts empty with the given capacity. |
| SmokerConsumer.Detector.Observe | temperature_consumer_smoker.py:34-69 | Updates the window in place as the handler does, keeping it equal to the last `capacity` accepted readings. A body that fails to decode is reported and leaves the window unchanged. A flag is returned exactly when the window is full and its first reading exceeds its last by 15.0 or more, and it carries those two readings and the body's timestamp. |
| Producer.ColumnIndex | temperature_producer.py:123 | Each queue reads one of the three temperature columns after Time. |
| Producer.Message.Body | temperature_producer.py:135-136 | The body is `str((Time, Temp))`; for plain texts that is `('Time', 'Temp')`. |
| Producer.FirstBadRow | temperature_producer.py:120-123 | Finds the first data row that does not unpack into four fields; every row before it does. |
| Producer.PublishRow | temperature_producer.py:123-147 | The loop body publishes exactly the row's messages. |
| Producer.SendMsg | temperature_producer.py:89-147 | The loop's result is `Publish`: the header is consumed, data rows are published in file order, and the loop stops at the first row that does not unpack. |
| Producer.RowRouting | temperature_producer.py:134-147 | A row yields one message per non-empty temperature field and none for an empty one. Messages come in the order smoker, food 1, food 2. Each message pairs the row's Time with that column's text and goes to that column's queue. |
| Producer.MessagesAppend | temperature_producer.py:120-147 | One more data row appends its own messages after those of the earlier rows. |
| Producer.QueueStream | temperature_producer.py:120-147 | Each queue receives, in file order, the tuple of every row whose column for that queue is non-empty, and nothing else. |
| Producer.RowQueueBodies | temperature_producer.py:134-147 | A row puts exactly one tuple on each queue whose column is non-empty and nothing on the others. |
| Producer.MessagesFromRows | temperature_producer.py:120-147 | Every message comes from some data row. |
| Producer.PublishOutcome | temperature_producer.py:95-147 | An empty file fails at the header with nothing sent. The run succeeds exactly when every data row has four fields. A failure names the first bad row and its width, after that row's predecessors were published. Every message sent comes from a data row, never the header. |
| Producer.QuotedTimeMisread | temperature_consumer_smoker.py:48-51 | A Time `p'q'r` with two single quotes and no double quote, sent with a plain temperature text, is decoded with `q` as its timestamp: `repr` switches to double quotes, and the split still finds five pieces. |
| Producer.QuotedTempMisread | temperature_consumer_smoker.py:48-51 | A temperature text `p'q'r` with two single quotes and no double quote, sent with a plain Time, is decoded as the number `q` denotes, or rejected with `q` as not a number. |
| Producer.BodyRoundTrip | temperature_producer.py:135-136 | For a Time and a temperature text of printable ASCII without quotes or backslashes, the consumer decodes the body `str((Time, Temp))` into that Time and the number the text denotes, or rejects it as not a number. |
| PyStr.Split | temperature_consumer_smoker.py:48 | `str.split` on one character gives one more piece than there are separators. |
| PyStr.SplitPiecesFree | temperature_consumer_smoker.py:48 | No piece contains the separator. |
| PyStr.JoinSplit | temperature_consumer_smoker.py:48 | Joining the pieces with the separator gives back the string. |
| PyStr.SplitJoin | temperature_consumer_smoker.py:48 | Splitting a join of separator-free pieces gives back the pieces. |
| PyStr.EscapeChar | temperature_producer.py:136 | A character is written as itself exactly when it is not the active quote, not a backslash and not an ASCII control character. |
| PyStr.Escape | temperature_producer.py:136 | Escaping never shortens a string, and leaves a plain string without the quote as it is. |
| PyStr.Repr | temperature_producer.py:136 | `repr` puts the same quote at both ends. It uses double quotes exactly when the string holds a single quote and no double quote. A plain string comes out between single quotes as it is. |
| PyStr.EscapeVerbatim | temperature_producer.py:136 | Printable ASCII other than the quote in use and the backslash is written as itself. |
| PyStr.DoubleQuotedRepr | temperature_producer.py:136 | Printable ASCII holding a single quote but no double quote or backslash comes out between double quotes, unchanged. |
| PyStr.EscapeQuotesEscaped | temperature_producer.py:136 | Between `repr`'s quotes, every occurrence of the quote in use is preceded by a backslash. |
| PyStr.TupleRepr | temperature_producer.py:135-136 | `str((a, b))` of two plain strings is `('a', 'b')`. |
| PyStr.TupleReprJoin | temperature_producer.py:135-136 | `str((a, b))` of two plain strings is the pieces `(`, `a`, `, `, `b`, `)` joined by single quotes. |
| PyStr.QuotedPairJoin | temperature_producer.py:135-136 | Those five pieces joined by single quotes are `('a', 'b')`. |
| PyStr.TupleReprSplit | temperature_consumer_smoker.py:48 | `str((a, b))` of two plain strings splits on the single quote into `(`, `a`, `, `, `b`, `)`. |
| PyFloat.ParseUnsigned | temperature_consumer_smoker.py:51 | An accepted unsigned numeral has a non-negative value. |
| PyFloat.UnsignedChars | temperature_consumer_smoker.py:51 | An accepted unsigned numeral has at least one digit, only digits and points, and at most one point. |
| PyFloat.ParseUnsignedPoint | temperature_consumer_smoker.py:51 | Digits, a point and digits, with at least one digit in all, denote all the digits read as one whole number with the point moved left once per fraction digit: `"225.5"` is 2255 / 10. |
| PyFloat.ScaleIsDivision | temperature_consumer_smoker.py:51 | Moving the point `k` places left is dividing by `10^k`. |
| PyFloat.DigitsValueAppend | temperature_consumer_smoker.py:51 | Two runs of digits written one after the other denote the first times `10^(length of the second)` plus the second. |
| PyFloat.ParseNumberPoint | temperature_consumer_smoker.py:51 | The same numeral with no sign or a plus keeps that value; with a minus it is negated. |
| PyFloat.ParseNumber | temperature_consumer_smoker.py:51 | An accepted numeral is non-empty, and a negative value comes only from a leading minus. |
| PyFloat.NumeralChars | temperature_consumer_smoker.py:51 | An accepted numeral has a digit and otherwise only digits, points and a leading sign. |
| PyFloat.ParseDigits | temperature_consumer_smoker.py:51 | A string of digits parses to its decimal value. |
| PyFloat.ParseFormatInt | temperature_consumer_smoker.py:51 | A whole number written in decimal parses back to itself. |
| PyFloat.ParseFormatFixed | temperature_consumer_smoker.py:51 | An integer `m` written with the point `k` digits from its right end (zero-filled as needed, a minus in front when negative) parses back to `m / 10^k`. |
| PyFloat.FormatFixedPlain | temperature_producer.py:136 | Such a numeral is plain text, which `repr` writes as it is. |
| Pipeline.SmokerReadings | temperature_producer.py:134-136 | Read straight off the file, the smoker column stands for one reading per row with a non-empty smoker field, in file order. A field that is not a number is the only rejection. |
| Pipeline.DecodeSmokerRow | temperature_producer.py:134-136 | For a row whose Time and smoker text are plain (printable ASCII without single quotes or backslashes), its smoker tuple, if any, decodes into what that row's smoker field stands for. |
| Pipeline.DecodeSmokerColumn | temperature_producer.py:120-147 | For rows whose Times and smoker texts are plain, the smoker queue's tuples decode, one by one and in order, into the smoker column's readings. |
| Pipeline.SmokerStreamDecodes | temperature_producer.py:95-147 | For any file with a header and four-field rows whose Times and smoker texts are plain, the smoker consumer receives exactly the smoker column's readings. Its outputs are the detector's run over them. |
| Pipeline.SmokerFileAlert | temperature_consumer_smoker.py:48-69 | End to end, for a file whose Times and smoker texts are plain, each reading the consumer handles fails exactly when its smoker field is not a number. Otherwise it is flagged exactly by the history rule, with a window of five. |
| Pipeline.SmokerFileAlerts | temperature_consumer_smoker.py:58-69 | End to end, for a file whose Times and smoker texts are plain and whose smoker fields are all numbers: every reading is handled, and the `i`-th flags exactly when the reading four places earlier is at least 15 degrees higher. |
| Pipeline.RunExpected | temperature_consumer_smoker.py:58-69 | The same rule for the detector over readings that all decoded. |
| Pipeline.FixedReadings | temperature_producer.py:134-136 | A file of smoker-only rows with plain Times and temperatures written to a fixed number of decimal places stands for exactly its Times and the temperatures written. |
| Pipeline.FixedRow | temperature_consumer_smoker.py:51 | One such row stands for its Time and the temperature written in it. |
| Pipeline.WorkedCase | temperature_consumer_smoker.py:58-69 | End to end for such a file: the `i`-th output flags exactly when the temperature four rows earlier is at least 15 degrees higher. |
| Pipeline.DropOf16Flags | temperature_consumer_smoker.py:58-69 | Readings 250, 245, 240, 236, 234 flag on the fifth, with 250 and 234. |
| Pipeline.DropOf8DoesNotFlag | temperature_consumer_smoker.py:65 | Readings 250, 248, 246, 244, 242 raise no flag. |
| Pipeline.DecimalDropOf15Flags | temperature_consumer_smoker.py:51-69 | Readings `"250.5"`, `"245.0"`, `"240.0"`, `"236.0"`, `"235.5"` flag on the fifth, with 250.5 and 235.5: a drop of exactly 15.0. |
| Pipeline.DecimalDropOf14Point9DoesNotFlag | temperature_consumer_smoker.py:51-69 | The same readings ending at `"235.6"` raise no flag: 14.9 is below the threshold. |
| Pipeline.FewReadingsNeverFlag | temperature_consumer_smoker.py:58 | A file of four-field rows with fewer than five non-empty smoker fields raises no flag, whatever the fields say and however `repr` writes them. |
| Pipeline.SmokerTupleCount | temperature_producer.py:134-136 | The smoker queue carries exactly one tuple per non-empty smoker field, whatever the texts hold. |
| Pipeline.ExactDropOf15FlagsAfterSlide | temperature_consumer_smoker.py:58-69 | A sixth reading slides the window. Both the fifth (250 to 234) and the sixth (245 to 230, exactly 15) flag. |
| Pipeline.SlideCase | temperature_consumer_smoker.py:61-65 | The flags for the six readings 250, 245, 240, 236, 234, 230, computed from the rule. |

## Left out

- The RabbitMQ side is not modelled: connecting, declaring and deleting queues, `basic_qos`, acknowledgements, closing the connection and the `sys.exit` paths. A published message is a value in a sequence, and the queue is the order of that sequence. Delivery is taken to be in publish order.
- Opening the file and the CSV reader's quoting rules are not modelled. The file is given as a sequence of rows, each already split into fields.
- `offer_website` (an interactive prompt that opens a browser) and all logging are not modelled. The flag the consumer logs is returned as a value instead.
- `temperature_consumer_food_1.py` is not part of this model. Its callback only logs and acknowledges.
- UTF-8 decoding of the body is not modelled. Bodies are strings.
- Floating point is not modelled: temperatures and the subtraction are exact reals. Rounding at the 15.0 boundary is not captured.
- PyFloat.ParseNumber: covers only an optional sign, digits, and an optional point with digits. Python's `float()` also strips whitespace and accepts exponents, underscores, `inf`, `nan` and non-ASCII Unicode decimal digits (`float('١٢٣')` is 123.0). A body using those is rejected by the model as `NotANumber`, whereas the source accepts it.
- PyFloat.ParseUnsigned: the same subset as `ParseNumber`, without the sign: exponents, underscores, `inf`, `nan` and non-ASCII digits are rejected.
- PyStr.EscapeChar: non-ASCII characters that Python escapes as non-printable (U+00A0, for example, written `\xa0`) are written as themselves. ASCII control characters, backslashes and quotes are escaped as Python does. `Plain` is limited to printable ASCII, so the lemmas about plain strings are unaffected.
- PyStr.Repr: inherits the non-ASCII gap of `EscapeChar`.
- Producer.BodyRoundTrip: stated only for Time and temperature texts of printable ASCII without single quotes or backslashes. A text with a single quote and no double quote makes `repr` switch to double quotes, which changes the number of single quotes in the body. A text with both kinds of quote keeps single quotes around it and escapes each single quote inside, and every one of them still counts in the split. Usually the split then no longer finds five pieces and the body is rejected. With two single quotes and no double quote in one text and no single quote in the other, the split still finds five pieces and the body is misread. `QuotedTimeMisread` proves that a Time `p'q'r` is read as the timestamp `q`; `QuotedTempMisread` proves that a temperature text `x'5'y` is read as the number 5. A text with a backslash or a control character still splits into five pieces, but the consumer reads the escaped text (`a\\b` for `a\b`) rather than the original.
- Pipeline.SmokerStreamDecodes: covers files whose Times and smoker texts, in rows with a smoker reading, are plain in the sense of `Producer.BodyRoundTrip`. The food columns are unrestricted.
- Pipeline.DecodeSmokerRow: holds only for a row whose Time and smoker text are plain, for the reasons given under `Producer.BodyRoundTrip`.
- Pipeline.DecodeSmokerColumn: holds only for rows whose Times and smoker texts are plain.
- Pipeline.SmokerFileAlert: holds only for files whose Times and smoker texts are plain.
- Pipeline.SmokerFileAlerts: holds only for files whose Times and smoker texts are plain.
- Pipeline.FixedReadings: the worked files have plain Times and temperatures written by `FormatFixed`. Other spellings of a number (`"250.50"`, `"+250.5"`) are covered by `ParseUnsignedPoint` and `ParseNumberPoint`, not by the worked cases.
- SmokerConsumer.Detector.constructor: requires a capacity of at least one. The source always uses 5, and a `deque(maxlen=0)` would fail when the handler reads `window[0]`.
- The threshold and capacity are the constants `DropThreshold` (15.0) and `MaxDequeSpace` (5). The window functions take the capacity as a parameter.
- The same input sequence always yielding the same flags holds by construction: `Run` is a function of the stream.
