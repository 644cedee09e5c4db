# abstraction-logging: a verified model

This project models the core of abstraction-logging and proves what its parts promise each other:

- the generated wire codec (strings, integers, timestamps, maps, records, pages, service frames): the printers
  and the recursive-descent reader undo each other, and opaque arguments are cut out of a frame exactly where
  they will be decoded;
- bounded history over a growing file, its long polling, and the client that checks the pages it gets;
- the provenance chain, its assessment from an out-of-band anchor, and keyed bindings;
- the ladder that shrinks a record too long for one line;
- asynchronous delivery through a worker that may hang in the inner sink.

The main theorems link the parts: the codec's round trip gives end-to-end delivery of records and pages over
frames (`Service.Delivered`, `Exchange.PageTravels`), and the stability of encodings under decoding gives the
agreement of server and client on page sizes (`Paging.ServerPagesAccepted`, `Paging.ClientHasTheHistory`).

A method is proved against a function of its inputs, and that function is in turn stated in terms that do not name it:
the calendar by numbers (`Calendar.CalendarExactly`), texts by a grammar over positions (`Grammar.ValueExactly`,
`Structs.ObjectExactly`, `Demands.DecodeExactly`) with every refusal's word and offset (`Refusals`), written messages by
their literal text (`Texts`), standings and bindings by the attestations' fields (`Standings`), the ladder by lengths of
lines (`Ladder`), pages by the bytes of the file (`Pages`), outcomes and callbacks by the steps of a run (`Outcomes`).

## How it is laid out

| files | what |
|---|---|
| `Wrappers`, `Utf8`, `Decimal`, `Timestamp`, `Calendar`, `Lexer` | an optional value; the scalars of the wire, each with its reference definition |
| `Schema`, `Printer`, `Writer`, `Parser`, `Reader` | tables; the printed form and the encoders that append it; the grammar and the reader class that walks it |
| `Depth`, `RoundTrip`, `Spoiled` | what the depth limit means; printed values read back; printed values with bad strings refused |
| `Tokens`, `Grammar`, `Objects`, `Structs`, `Refusals` | the grammar written out as relations on positions, and that the readers accept and refuse exactly by it |
| `Records`, `Messages`, `Envelope`, `Service`, `Exchange`, `Calls` | the logging definition's own messages, whole texts, frames, one-way calls, calls with an answer and the two ends that make them |
| `Texts`, `Demands` | every message as it is written, and what its decoder demands of a text, name by name |
| `Cursor`, `History`, `Paging`, `Observers`, `Pages` | cursors, pages, the sink's and the client's side, long polling, and all of it by the bytes of the file |
| `Provenance`, `Standings`, `Shrink`, `Ladder` | standing and bindings, the shrink ladder, each also stated by fields and lengths alone |
| `Async`, `AsyncRuns`, `Outcomes` | asynchronous delivery, what holds on every run, and outcomes told from the steps alone |

Conventions. A byte is a `char`; shifts and masks are written as division and remainder. Where the source
updates state in place there is a class or an array with the same fields and loops, proved against a function of
its inputs; the functions carry the properties. The generated encoders and decoders differ only in their field
tables, so the model has one table-driven loop and the tables as values (`Records`), with the generated order of
checks. The set of seen fields stands for the generated bit mask. Threads are steps: one region under a lock,
one channel operation, one arm of a select; a timer may fire at any time.

Parameters standing for what is not modelled: what the operating system answers about the history file
(`Disk`, `Path`), the random epoch, the attester's answer, the canonical rendering and keyed digest (`Seal`), the
compact one-line printer (`Shrink.Printer`), and how much of a line the system wrote.

The file sink is one struct in the source and two classes here: `Paging.FileHistory` draws the epoch and reads,
`Observers.FileSink` has the channels, waiters and the closing of the file, with the epoch as a constant, since a
registered observer's first read has already drawn it.

Findings.

- The number of abandoned records is not bounded by the queue's length at the deadline: a record taken off the
  queue but not yet checked against the stop signal is abandoned too (`AsyncRuns.MoreThanQueued`).
  `AsyncRuns.AbandonedExactly` gives the exact number on every run, and `AsyncRuns.ReportExactly` says exactly when
  the number `Close` reports, which is read a moment before the cancellation, is that number
  (`AsyncRuns.LateReportExactly` for a second closer that reads after it). The documentation of
  `Close` speaks of the records still queued only.
- An attester error at a later service breaks earlier bindings for as long as the record carries an error text
  other than the one it carried when it was bound: a repeated text breaks nothing, and a broken binding holds again
  once a later error repeats that text (`Provenance.PeerErrorBreaks`, exact for every journey;
  `Provenance.RepeatedErrorKeepsBinding`, a concrete one).
- The difference between failure and recovery callbacks is one exactly when the sink counts as failing and no
  callback is pending, or counts as recovered and the recovery is still to be reported
  (`AsyncRuns.CallbacksAlternate`; `AsyncRuns.OneAheadThoughRecovered` is a run that ends in the second case).
- An encoder does not look at its strings: a record with a string that is not UTF-8 is encoded without complaint
  and refused by its own decoder (`Messages.DecodeEncode`, with `Messages.LoneByteIsRefused` a concrete record).
  Over a service it is refused before the transport.

## Model

| member | source | states |
|---|---|---|
| Utf8.ValidExactly | go/abstraction/logging/rec.go:862-896 | a byte string is accepted if and only if it is a concatenation of encodings of Unicode scalar values (section 4 of RFC 3629), so overlong forms, surrogates and code points past 0x10FFFF are refused and nothing else is |
| Utf8.ValidUTF8 | go/abstraction/logging/rec.go:862-896 | the validator's loop answers exactly that predicate |
| Utf8.CharLength | go/abstraction/logging/rec.go:865-893 | one turn of the loop: a lead byte's length if a whole character stands there, else a refusal; the six-bit gathering is proved equal to the code point read in one piece |
| Utf8.RuneIsChar | go/abstraction/logging/rec.go:850-860 | an encoded scalar value is one character whatever follows it, and is read back as that value |
| Utf8.ValidCut | go/sink.go:226-244 | cutting valid text where a character may start leaves valid text |
| Lexer.PairsAreSupplementary | go/abstraction/logging/rec.go:802-822 | an accepted surrogate pair lands in 0x10000..0x10FFFF (section 7 of RFC 8259) and its bytes are one valid four-byte character |
| Lexer.EscapedRead | go/abstraction/logging/rec.go:182-188 | reading escaped bytes gathers the original bytes, wherever they stand and whatever was gathered before |
| Lexer.QuotedRead | go/abstraction/logging/rec.go:749-779 | reading a quoted string gives it back and stops behind it if it is UTF-8, and otherwise is refused at the closing quote: both halves of the round trip |
| Readers.Reader.Str | go/abstraction/logging/rec.go:749-779 | the string loop agrees with the grammar's answer, position and refusal offset included |
| Readers.Reader.Escape | go/abstraction/logging/rec.go:781-826 | every escape, with the offset at which each malformed one is refused |
| Readers.Reader.ReadHex4 | go/abstraction/logging/rec.go:828-848 | four hex digits gathered in a loop are the number they spell; a refusal leaves the position alone |
| Writers.Esc | go/abstraction/logging/rec.go:182-188 | byte-by-byte escaping appends exactly the quoted form |
| Tokens.StringExactly | go/abstraction/logging/rec.go:749-779 | a string is accepted, with a value and an end, if and only if it is quoted pieces of that value (plain bytes, the eight short escapes, four-digit units that are no surrogate, surrogate pairs joined) and the value is UTF-8 |
| Tokens.EscapeExactly | go/abstraction/logging/rec.go:781-848 | an escape is read exactly as one of those three kinds, its hex digits and code point spelled out |
| Refusals.StringRefused | go/abstraction/logging/rec.go:749-848 | a string is refused with a word and an offset if and only if something else begins there, or behind whole pieces stands the end, a control byte, one of the ways an escape can be broken, or a quote that closes something not UTF-8, each at its own offset |
| Texts.EscapesExactly | go/abstraction/logging/rec.go:7-29 | what each byte is written as: the two that must be escaped, the five controls with a letter, the rest as four lower-case hex digits, every other byte as itself |
| Decimal.IntegerExactly | go/abstraction/logging/rec.go:898-945 | an integer is accepted with value n up to p if and only if the bytes are the one canonical decimal of n, n is within the bounds, and nothing numeric clings to it; so reading inverts printing on every int64, the minimum included |
| Decimal.AppendNum | go/abstraction/logging/rec.go:31-50 | digits written backwards into a 24-byte buffer are the decimal of every int64; the buffer never underflows |
| Readers.Reader.Integer | go/abstraction/logging/rec.go:898-945 | the reader with its uint64 accumulator answers the specification; that the accumulator never overflows behind its guard is verified as a subset-type obligation |
| Decimal.ReadersAgree | py/abstraction/logging/rec.py:709-735 | the Python reader, which counts digits and converts unbounded integers, accepts the same texts with the same value and refuses the others with the same word |
| Readers.PyReader.Integer | py/abstraction/logging/rec.py:709-735 | the Python loop answers its own specification |
| Refusals.IntegerRefused | go/abstraction/logging/rec.go:898-945 | a refused integer is of the wrong type, a sign without digits, or misspelled; the last is noticed where its digits are given up, at their end or before the first that would carry them past every int64 |
| Tokens.NumberRead | go/abstraction/logging/rec.go:1082-1124 | a whole part, optional fraction and optional exponent that nothing numeric follows are walked to their end |
| Tokens.NumberWritten | go/abstraction/logging/rec.go:1082-1124 | whatever is walked as a number has these parts |
| Refusals.NumberRefused | go/abstraction/logging/rec.go:1082-1124 | a number walked is refused at the byte where a digit is wanted and there is none: behind a sign, a point or an exponent's sign |
| Refusals.FlagExactly | go/abstraction/logging/rec.go:947-963 | a flag is one of the two words up to its end; otherwise the wrong type, or malformed if a word was begun |
| Timestamp.LexicalExactly | go/abstraction/logging/rec.go:1252-1299 | the lexical check accepts exactly date-time, optional fraction of one to nine digits and zone, in the shape of section 5.6 of RFC 3339, separators of either case |
| Calendar.CalendarExactly | go/abstraction/logging/rec.go:1325-1336 | against numbers only: a date is a day between 1 and its month's written-out length, and its day number is 365 a year plus the multiples of 4, less those of 100, plus those of 400, plus the month's cumulated days and one past February of a leap year |
| Calendar.ShapeExactly | go/abstraction/logging/rec.go:1252-1299 | the lexical form byte by byte: two- and four-digit fields, separators, fraction and zone at their places |
| Calendar.FieldsExactly | go/abstraction/logging/rec.go:1318-1323 | the fields read are the numbers the digits at those places spell, the zone's sign included |
| Calendar.AnsweredExactly | go/abstraction/logging/rec.go:1337-1411 | a timestamp has a normal form if and only if it has the shape, its numbers are possible for its month and year, and its UTC minute lies within the 3652425 days from the year 0 |
| Calendar.AnswerExactly | go/abstraction/logging/rec.go:1337-1411 | the normal form is spelled for the same minute and second by that calendar, with the fraction's digits cut or padded to six |
| Timestamp.CarriedPreserves | go/abstraction/logging/rec.go:1355-1399 | carrying minutes over days, months, years and leap days keeps the instant: day number and minute of day are unchanged, and the result is a real date |
| Timestamp.RefusedExactly | go/abstraction/logging/rec.go:1337-1411 | a timestamp is refused if and only if it is not an instant of the grammar and field ranges, or its UTC minute lies outside the years 0..9999; second 60 is out of range |
| Timestamp.NormalizedPreserves | go/abstraction/logging/rec.go:1337-1411 | a normalised timestamp is 27 bytes, ends in Z, denotes the same UTC minute and second, and its fraction is the original's cut or padded to six digits |
| Timestamp.NormalizedCanonical | go/abstraction/logging/rec.go:1298-1303 | two timestamps of the same instant and fraction are normalised to the same bytes |
| Timestamp.NormalizedFixpoint | go/abstraction/logging/rec.go:1298-1303 | normalising a normalised timestamp changes nothing |
| Timestamp.CarryOver | go/abstraction/logging/rec.go:1367-1399 | the carries from minute to day, month and year compute the carried date |
| Timestamp.NormalizedTimestamp | go/abstraction/logging/rec.go:1337-1411 | the whole in-place algorithm, buffer writes included, computes the normal form or nothing |
| Timestamp.LexicalTimestamp | go/abstraction/logging/rec.go:1271-1299 | the lexical scan answers the lexical predicate |
| Printer.ListingUnique | go/abstraction/logging/rec.go:136-160 | there is one byte-ordered listing of a key set, so the encoded bytes cannot depend on map iteration order |
| Printer.KeysInOrder | go/abstraction/logging/rec.go:136-160 | whatever order the map gives its keys in, the in-place insertion sort ends with that listing |
| Printer.SortInPlace | go/abstraction/logging/rec.go:149-160 | the sort keeps the elements and ends in ascending byte order |
| Texts.ByteOrder | go/abstraction/logging/rec.go:136-147 | byte order is what it should be: the first byte that differs decides, and a prefix comes first |
| Texts.AttrsPrinted | go/abstraction/logging/rec.go:190-208 | a map is written as its keys in that order, a line each, or an empty pair of braces |
| Parser.SkipFollows | go/abstraction/logging/rec.go:1052-1171 | whenever a typed reader of any table succeeds from a position and depth, the skipper succeeds from there and ends at the same position |
| Parser.ParsedIsSound | go/abstraction/logging/rec.go:1421-1714 | every decoded value has its table's shape, holds only UTF-8 strings, and will not be refused by its own encoder |
| Parser.Parse | go/abstraction/logging/rec.go:1173-1250 | every success strictly advances within the buffer, which is why the mutual recursion terminates |
| Parser.Skip | go/abstraction/logging/rec.go:1052-1171 | every success of the skipper strictly advances within the buffer |
| Readers.Reader.SkipValue | go/abstraction/logging/rec.go:1052-1076 | the skipper as a loop over position and depth answers the specification and, on success, restores the depth |
| Readers.Reader.SkipContainer | go/abstraction/logging/rec.go:1126-1171 | the container loop, its depth limit of 64 and its refusal offsets |
| Readers.Reader.WalkNumber | go/abstraction/logging/rec.go:1082-1124 | numbers are walked, never converted, by the stated grammar |
| Readers.Reader.RawValue | go/abstraction/logging/rec.go:1044-1050 | the bytes between the two offsets are exactly those the skipper walked |
| Readers.Reader.StrMap | go/abstraction/logging/rec.go:1173-1217 | the map loop; a repeated key keeps its last value |
| Readers.Reader.DecodeList | go/abstraction/logging/rec.go:1219-1250 | the list loop over any element decoder |
| Readers.Reader.DecodeObject | go/abstraction/logging/rec.go:1592-1714 | a struct decoder's loop: unknown, duplicate and missing fields, and the check of the schema or enum behind the closing brace |
| Readers.Reader.ReadTime | go/abstraction/logging/rec.go:1305-1316 | a string that is no instant is refused at its first byte |
| Readers.Reader.Boolean | go/abstraction/logging/rec.go:947-963 | the two literals, and which word each other byte is refused with |
| Depth.SkipExactly | go/abstraction/logging/rec.go:741-747 | the skipper accepts a value, to the same end, if and only if the walk without a limit succeeds and the containers it counts fit below 64 from this depth; every other text is refused |
| Depth.AcceptedIsShallow | go/abstraction/logging/rec.go:741-747 | whatever a typed reader of any table accepts is nested no deeper than the limit |
| Tokens.WsExactly | go/abstraction/logging/rec.go:730-739 | blanks are exactly the four bytes, and skipping ends at the first that is none |
| Grammar.ValueExactly | go/abstraction/logging/rec.go:1052-1171 | the walk accepts exactly the values of the grammar of RFC 8259, stated as a relation on positions: strings, numbers, three words, lists of items and objects of members with blanks and commas where they may be |
| Grammar.OpaqueExactly | go/abstraction/logging/rec.go:1052-1171 | the skipper accepts, to the same end, exactly such a value whose containers fit below the limit from its depth |
| Objects.ListExactly | go/abstraction/logging/rec.go:1219-1250 | a list is accepted if and only if it is a list of that grammar whose items the element's reader accepts whole; its value is theirs in order |
| Objects.MapExactly | go/abstraction/logging/rec.go:1173-1217 | a map is accepted if and only if it is an object of that grammar whose values are strings; it has the keys that stand there, a repeated one with its last value |
| Structs.ObjectExactly | go/abstraction/logging/rec.go:1592-1714 | a struct is accepted if and only if it is an object of that grammar whose members its fields take, no known name twice, every required name there, the rule about the first field kept; its value is its members', absent fields zero |
| Structs.ObjectJudged | go/abstraction/logging/rec.go:1700-1714 | an object right in every member is refused at its end with MissingField if and only if a required name is not in it, and only then judged by the rule |
| Refusals.KeyRefused | go/abstraction/logging/rec.go:1592-1620 | a key is refused where something else stands, where its string is, or where its colon is missing |
| Refusals.ObjectRefused | go/abstraction/logging/rec.go:1592-1714 | behind members that are right the first wrong one decides: its key's refusal, a duplicate or an unknown name at its value, its value's refusal |
| Refusals.ObjectUnfinished | go/abstraction/logging/rec.go:1692-1704 | a right member with neither a comma nor the brace behind it is malformed there |
| Refusals.ListRefused | go/abstraction/logging/rec.go:1219-1250 | the same for lists: the first wrong item's refusal, or malformed where a comma or the bracket is missing |
| Refusals.MapRefused | go/abstraction/logging/rec.go:1173-1217 | the same for maps |
| Refusals.SkipListRefused | go/abstraction/logging/rec.go:1126-1171 | the same for lists that are only walked |
| Refusals.SkipObjectRefused | go/abstraction/logging/rec.go:1126-1171 | the same for objects that are only walked |
| Refusals.LeafRefused | go/abstraction/logging/rec.go:1052-1076 | what the skipper refuses outside containers, and containers at depth 64 |
| Refusals.Unopened | go/abstraction/logging/rec.go:741-747 | typed containers: the wrong opening byte, and one opened at depth 64 |
| RoundTrip.PrintedRead | go/abstraction/logging/rec.go:332-481 | for every table and value: reading what was printed gives the value with its times normalised and ends exactly where the text ends |
| Spoiled.PrintedSkipped | go/abstraction/logging/rec.go:1052-1171 | the skipper walks a printed value exactly if every string in it is UTF-8 and refuses it otherwise |
| Writers.Write | go/abstraction/logging/rec.go:332-518 | an encoder of any table appends exactly the printed form, or panics with the first word that applies |
| Writers.EncObject | go/abstraction/logging/rec.go:426-481 | the rule first, then present fields in table order, commas only between them |
| Writers.EncList | go/abstraction/logging/rec.go:210-227 | the list loop with its comma after every element but the last |
| Writers.StrMap | go/abstraction/logging/rec.go:190-208 | the map loop over sorted keys |
| Schema.NormAgain | go/abstraction/logging/rec.go:698-700 | a value that can be written can be written again after it was read, and is then already normal |
| Messages.PrintAgain | go/abstraction/logging/rec.go:426-481 | a value and its normal form are printed to the same bytes |
| Messages.DecodeEncode | go/abstraction/logging/rec.go:2410-2422 | an encodable record decodes to itself with its time normalised if and only if all its strings are UTF-8; otherwise its own decoder refuses it |
| Messages.LoneByteIsRefused | go/abstraction/logging/rec.go:426-481 | a concrete record, its message one continuation byte, that is encoded and then refused by its own decoder |
| Messages.EncodeNormalised | go/abstraction/logging/rec.go:698-700 | encoding depends on the instant only: normalising first does not change a byte |
| Messages.EncodeSettles | go/abstraction/logging/rec.go:2410-2422 | whatever text a record was decoded from, one encoding later the bytes no longer change |
| Messages.DecodedIsSound | go/abstraction/logging/rec.go:1592-1714 | a decoded record can always be encoded, which the page reader and the page validator rely on |
| Messages.DecodeRecord | go/abstraction/logging/rec.go:2410-2422 | the decoder with the reader class, trailing bytes refused |
| Messages.EncodeRecord | go/abstraction/logging/rec.go:698-700 | the encoder with the writer, or the word it panics with |
| Texts.EncodedText | go/abstraction/logging/rec.go:698-705 | an encoded record is the literal text of its members, name by name in order, optional ones where not empty, and a line feed |
| Demands.DecodeExactly | go/abstraction/logging/rec.go:2410-2422 | a text decodes to a record if and only if it is one object of schema, time, level and msg, each once, identity, job and attrs at most once, other names skipped, with the schema 1 and these values |
| Demands.DecodeLacking | go/abstraction/logging/rec.go:1707-1713 | a text right in every member is refused at the object's end with MissingField if schema, time, level or msg is not in it, and with BadSchema if the schema is another |
| Envelope.EnvelopeExactly | go/abstraction/logging/rec.go:586-654 | arguments printed one level deep and pasted raw into a frame or reply are cut out again to the byte and decode to the value sent; if one string in them is not UTF-8 the whole envelope is refused |
| Service.PostedExactly | go/abstraction/logging/rec.go:2442-2587 | a call reaches its transport if and only if its encoder is not blocked and its strings are UTF-8, and the dispatcher then decodes the arguments as sent |
| Service.Delivered | go/abstraction/logging/rec.go:2569-2613 | end to end: a record reaches the transport if and only if its schema is 1, its time can be written and its strings are UTF-8; what reaches the transport reaches the handler with its time normalised |
| Service.Relayed | go/abstraction/logging/rec.go:2569-2613 | what a dispatcher hands over can be sent on, arrives the same again, and makes the same frame |
| Service.SinkClient.Write | go/abstraction/logging/rec.go:2569-2586 | client and dispatcher together, frame written by the encoders and read by the reader: the handler is called once with the normalised record, or not at all and the caller is told |
| Service.SinkDispatcher.WriteFrame | go/abstraction/logging/rec.go:2587-2613 | one frame calls the handler at most once, with the record it decodes to, and every refusal leaves it uncalled |
| Service.EncodeFrame | go/abstraction/logging/rec.go:586-614 | the frame written by the encoders around arguments already encoded |
| Service.ReadPayload | go/abstraction/logging/rec.go:2442-2457 | the envelope and its version, read with the reader |
| Exchange.PageTravels | go/abstraction/logging/rec.go:2629-2740 | a history call over frames: the provider is asked with the caller's own arguments; its page comes back normalised if it can travel and as an invalid result if it cannot; its error comes back under its own code and message |
| Calls.HistoryClient.Read | go/abstraction/logging/rec.go:2629-2669 | the client's call with writer and reader, its transport a dispatcher: it answers as the end-to-end result says |
| Calls.HistoryDispatcher.ExchangeFrame | go/abstraction/logging/rec.go:2686-2711 | the dispatcher with reader and writer: refusals in source order, each as an error reply, and otherwise the handler's answer |
| Calls.HistoryDispatcher.Invoke | go/abstraction/logging/rec.go:2712-2740 | the handler's page encoded and read back, or an invalid result |
| Calls.Reply | go/abstraction/logging/rec.go:2518-2556 | a reply frame written by the encoders and read once before it is visible |
| Calls.ReadResponse | go/abstraction/logging/rec.go:2483-2517 | version, service and method, then the payload or the error it carries |
| Exchange.BadCursor | go/abstraction/logging/rec.go:2629-2646 | a cursor that is not UTF-8 never leaves the client |
| Exchange.ErrorReplied | go/abstraction/logging/rec.go:2483-2556 | an error reply is visible to the client with its code and message exactly if both are UTF-8 |
| Texts.FrameWritten | go/abstraction/logging/rec.go:586-614 | a frame is the literal text of version 1, service, method and arguments |
| Texts.ReplyWritten | go/abstraction/logging/rec.go:616-654 | a reply is the literal text of version 1, service, method, flag and payload |
| Texts.SentText | go/abstraction/logging/rec.go:2569-2586 | what a sink's client hands over, written out down to the record's members |
| Texts.PagePrinted | go/abstraction/logging/rec.go:483-518 | a page written out, its records in order |
| Texts.ErrorReplyText | go/abstraction/logging/rec.go:2518-2556 | an error's reply written out, its code by the kind of error, the codec's twelve words spelled |
| Demands.FrameExactly | go/abstraction/logging/rec.go:2035-2122 | a frame is opened if and only if it is one object of exactly version, service, method and arguments, each once, and the version is 1 |
| Demands.FrameJudged | go/abstraction/logging/rec.go:2588-2613 | a frame of another version, for another service or for another method is refused for that, in this order, and no record comes of it; otherwise its arguments decide |
| Demands.ArgumentExactly | go/abstraction/logging/rec.go:1808-1865 | a write's arguments are one object of exactly one member, the record |
| Demands.RequestExactly | go/abstraction/logging/rec.go:1867-1944 | a read's arguments are one object of exactly cursor, max_records and max_bytes, the numbers any int64 |
| Demands.ResultExactly | go/abstraction/logging/rec.go:2292-2349 | a read's result is one object of exactly one member, a page of exactly four, its outcome one of the seven |
| Demands.ExchangeJudged | go/abstraction/logging/rec.go:2686-2711 | for whatever provider, a frame of another version has no reply and one for another service or method an error reply |
| Demands.ReplyJudged | go/abstraction/logging/rec.go:2483-2517 | a client takes a reply of version 1 to its own service and method alone, and gets its payload or its error's code and message, a code never empty |
| Cursor.OffsetExactly | go/history.go:40-51 | exactly the cursors the sink itself spells are taken, at the offset they were spelled for |
| History.PageIs | go/history.go:26-104 | a page holds exactly the records of the file between two line boundaries, keeps both budgets, and is empty only at the end; every refusal holds no records and the caller's cursor |
| History.GatherIs | go/history.go:74-99 | the loop takes whole lines, keeps both budgets, and stops for a reason |
| History.FollowedIsExact | go/history.go:26-104 | following next over any interleaving of appends, refusals and budgets, the records read are exactly those of the file up to the cursor: no gap, repeat or reordering against splitting at line feeds and decoding |
| History.DrainIsComplete | go/history.go:74-104 | from any line boundary of a file of servable lines that stands still, pages of any size within the limits together hold every record behind it |
| History.FollowingReachesTheEnd | go/history.go:26-104 | following next from the empty cursor over such a file, whatever the budgets, after at most one call a line the cursor is the end and the records read are the file's, the only ones it spells |
| Paging.FileHistory.Read | go/history.go:26-104 | the call computes the specified page, and draws its epoch only once and only for a call within the limits |
| Paging.ReadLines | go/history.go:75-99 | the read loop computes the specified walk |
| Paging.ReadLine | go/history.go:76-91 | one line, never read past 65537 bytes, decoded and measured |
| Paging.LineExactly | go/history.go:76-91 | a line is too long, corrupt or taken exactly as the reference splitting has it |
| Paging.StuckExactly | go/history.go:79-97 | the walk is refused for a line if and only if the lines before it are all taken within both budgets and it is too long, unfinished or undecodable, or it is the first and over the byte budget |
| Paging.LineRefusalsExactly | go/history.go:79-97 | a page is corrupt or too large a record exactly if the call is within limits, the file readable and the cursor at a boundary, and such a line stops the walk with that word |
| Paging.RefusalsExactly | go/history.go:30-72 | invalid request, unavailable and gap, each with the exact condition it is answered under |
| Paging.ValidateHistoryPage | go/client/client.go:95-108 | the summing loop decides exactly the acceptance condition |
| Paging.ServerPagesAccepted | go/client/client.go:95-108 | every page a sink makes is accepted by its client with the same cursor and limits, because both measure a record by an encoding that decoding does not change |
| Paging.HistoryTravels | go/abstraction/logging/rec.go:2629-2740 | over frames the client is given the sink's page with its times normalised, and accepts it |
| Paging.ClientHasTheHistory | go/client/client.go:84-108 | a client following pages over frames has, at every point, exactly the file's records up to its cursor, each with its time normalised |
| Paging.ClientReadsItAll | go/client/client.go:84-108 | over a file that stands still, whole and servable, after at most one call a line it has every record and the end cursor |
| Pages.LinesExactly | go/history.go:75-91 | the reference splitting: the lines joined are the text, none is empty, a line feed ends a line and is nowhere else in it, and only the last may lack one |
| Pages.PageIsFull | go/history.go:74-104 | a page within 256 records and 65536 bytes ends where the file does, with as many records as asked for, or before a line whose record would exceed the byte budget with those taken |
| Pages.RefusedPages | go/client/client.go:95-108 | a client refuses a page if and only if it was asked for beyond the limits, exceeds what was asked for, has no cursor, would be read again, or is empty but not the end; and a refusal if it holds records, moves the cursor or claims the end |
| Observers.RunKeeps | go/history.go:117-153 | on every run no channel is closed twice, the waiters are the registered observers and at most 32, and each observer's channel is closed exactly if a write wrote or the sink closed since it read |
| Observers.StepKeeps | go/sink.go:93-102 | every write, close, observation and departure keeps that |
| Observers.NoLostWakeup | go/history.go:141-148 | on every run a waiting observer can wake if and only if a write wrote or the sink closed since it read |
| Observers.WakeupStays | go/history.go:141-148 | an observer that can wake can until it moves, whatever else runs |
| Observers.WokenRereads | go/history.go:149-153 | an observer woken by lines that fit its budget rereads a page with records |
| Observers.FileSink.Write | go/sink.go:93-102 | the writer's lock region does the run's write step |
| Observers.FileSink.Close | go/sink.go:246-256 | the closer's region closes the current channel at most once |
| Observers.FileSink.Observe | go/history.go:121-140 | the observer's region: what is answered at once, and which channel is waited on |
| Pages.ObserveExactly | go/history.go:117-140 | an observer is registered if and only if it has time left, the page is empty and at the end (that is: call within limits, file readable, cursor at its end behind a line feed) and one of 32 places is free; it then has the current channel and the length it read, and nothing else moves |
| Pages.ObserverExactly | go/history.go:141-153 | on every run an observer's own last step says where it is: it waits from its first read, a closed channel or its time wakes it, and it leaves only after reading again or when its context ends |
| Provenance.StandingExactly | go/identity.go:178-200 | a hop stands Vouched or better if and only if it is genuine and a path of genuine, authorised hops reaches it from the matching anchor or a held-key binding (the shape of section 6 of RFC 5280) |
| Standings.StandingsExactly | go/identity.go:178-209 | each of the four standings by the hops' own fields: Claimed if unverified; Established if not the writer's, last, and equal to the anchor in attester, verified, program, host, user, exe, uid, gid and pid; Vouched if an unbroken chain of verified, authorised hops leads up to such a stamp or to a digest under a held key; else Asserted |
| Standings.PartiesExactly | go/identity.go:211-247 | author, immediate peer and dispute in the same terms, hosts and process ids compared where both are given |
| Standings.CutExactly | go/identity.go:283-311 | what a binding is made over, field by field: schema settled to 1, time, level, message, job, attributes, the hops beneath, and the hop without its digest |
| Standings.BindingCovers | go/identity.go:271-306 | under an injective seal a binding carried over to another record holds if and only if that agrees in schema, time, level, message, job, attributes, the hops beneath and the stamp itself |
| Provenance.NothingFromNothing | go/identity.go:168-177 | without an anchor and keys nothing stands above Asserted |
| Provenance.PolicyMonotone | go/identity.go:143-156 | enlarging the policy lowers no standing |
| Provenance.OnlyFromAbove | go/identity.go:178-200 | without keys, rewriting hops beneath moves no standing |
| Provenance.AuthorExactly | go/identity.go:211-247 | an author is named if and only if the path reaches hop 1; the record is disputed if and only if it does and the first self claim at hop 0 contradicts hop 1; a peer is named if and only if the last hop is the established one |
| Provenance.Assess | go/identity.go:178-200 | the downward loop fills the slice with the specified standings |
| Provenance.Bind | go/identity.go:260-269 | in place: the key, then the digest of the record cut at the hop with the digest empty; nothing else changes |
| Provenance.Accept | go/service.go:212-242 | on fresh copies, the caller's chain unwritten, the result is the specified record |
| Provenance.AcceptAppends | go/service.go:208-242 | no hop, time, level, message or job is rewritten; the stamp is last, at its own position; an absent claim is supplied and said so |
| Provenance.OwnStampEstablished | go/service.go:208-211 | the appended stamp is the anchor: a genuine one is Established to the service |
| Standings.BoundExactly | go/identity.go:260-269 | binding sets the hop's key and its digest over what is covered, none where that cannot be rendered, and touches nothing else |
| Standings.AcceptedExactly | go/service.go:212-242 | what a service makes of a record, field by field, with the literal unclaimed hop and notes |
| Provenance.BoundEvidenceSurvives | go/identity.go:249-276 | after any further services whose attesters answer, a binding holds exactly if the record could be rendered when it was bound; then a genuine stamp with a digest stands Vouched or better to every holder of the key, whatever anchor and relay policy |
| Provenance.PeerErrorBreaks | go/service.go:212-236 | after any journey, attester errors included, an earlier binding holds if and only if the attributes are what they were: no attester failed, or the last error says what the record said before |
| Provenance.JourneyAdds | go/service.go:208-242 | a journey adds hops behind those there and leaves the last error, and changes nothing else |
| Provenance.RepeatedErrorKeepsBinding | go/service.go:229-236 | a concrete journey on which a later error breaks nothing, exactly if the record could be rendered when it was bound |
| Shrink.TruncatedIs | go/sink.go:115-131 | a shrunk line is within the cap, names exactly what was dropped, comes from the first stage whose frame fits, and carries the longest halving of the message that fits there, valid if the original was |
| Ladder.RefusedExactly | go/sink.go:115-173 | by lengths of lines alone: a record is refused if and only if the marked record exceeds the cap, that without the job does where dropping it narrows, and that without the identity does where dropping it narrows |
| Ladder.WrittenExactly | go/sink.go:115-244 | what is written is the first of those that fits with an empty message, with the first message that fits of a chain in which each is the longest start of at most half the one before that ends at a character |
| Ladder.StagesExactly | go/sink.go:140-173 | the ladder is those steps, their marks spelled out |
| Shrink.OverCapExactly | go/sink.go:104-131 | a cap is refused if and only if the last stage's frame exceeds it |
| Shrink.StagesNarrow | go/sink.go:133-173 | every stage after the first has a strictly smaller frame |
| Shrink.StagesConfess | go/sink.go:140-183 | every stage is the original but for what its attributes name as dropped |
| Shrink.ShrunkExactly | go/sink.go:208-224 | halving fails if and only if the frame alone exceeds the cap |
| Shrink.HalvedIsValid | go/sink.go:226-244 | however often a valid message is halved it stays valid |
| Shrink.Cut | go/sink.go:233-244 | the cut ends at the last character boundary at or before the length |
| Shrink.ShrinkMessage | go/sink.go:211-224 | the halving loop terminates with the first record that fits |
| Shrink.Degraded | go/sink.go:140-173 | the ladder, step by step |
| Shrink.Truncate | go/sink.go:115-131 | the search over stages |
| Shrink.LineToWrite | go/sink.go:78-92 | a returned line is never over the cap or, without one, the default; it is the unshrunk line if that fits, and otherwise the search's result |
| Async.RunKeeps | go/async.go:172-276 | the invariants of conservation, order, exclusion, reporting and stopping hold in every reachable state, for any capacity, with or without a write timeout |
| Async.ConservedKeeps | go/async.go:99-214 | every step keeps each record in exactly one place |
| Async.ExclusiveKeeps | go/async.go:240-276 | every step keeps each busy channel awaited in exactly one place |
| Async.OrderlyKeeps | go/async.go:180-214 | every step keeps the log of what was handed over and what became of it |
| Async.ReportedKeeps | go/async.go:105-121 | every step keeps callbacks in turn and overflow reports one a run of drops |
| AsyncRuns.OneAtATime | go/async.go:232-244 | the inner sink is never called twice at once |
| AsyncRuns.HandoffNeverWaits | go/async.go:240-266 | when the runner reaches the handoff nothing is pending and the worker is outside the inner sink, receiving or on its way back to it; and the worker's result always has room |
| AsyncRuns.BooksBalance | go/async.go:68-71 | accepted is written plus failed plus abandoned plus queued plus at most one in flight, and accepted plus dropped is the writes made before closing |
| Outcomes.OutcomesExactly | go/async.go:192-276 | against the steps of the run alone: a record is written if and only if its own call of the inner sink returned well and the answer was heard before its time ran out, failed if and only if the call returned an error or the time ran out, abandoned if and only if it was left; and the counts count these |
| Outcomes.CallbacksExactly | go/async.go:192-214 | the callbacks made, with the one about to be made, are exactly the outcomes that differ from the one before, and the sink counts as failing exactly while the last outcome is a failure |
| Outcomes.OfferExactly | go/async.go:99-122 | on every run a write before the close is taken to the back of the queue if and only if the records accepted less those taken leave room, and is otherwise refused and counted, the first of a row reported; after the close nothing changes |
| AsyncRuns.DoneForGood | go/async.go:157-161 | once done is seen nothing is queued or in flight and no later step changes the counts |
| AsyncRuns.InOrder | go/async.go:79-83 | the inner sink gets accepted records in order; without a write timeout it has got, in every reachable state, exactly those taken and not abandoned, but for one the runner still holds; and it got every record counted as written |
| AsyncRuns.AbandonedExactly | go/async.go:162-187 | on every run from a cancellation until the runner is done, the number abandoned is the queue's length at the cancellation plus one if the runner then held a record without having looked at the signal, and so exceeds that length exactly then; without a cancellation it is zero |
| AsyncRuns.ReportExactly | go/async.go:162-169 | the number Close reports, read before the first cancellation, is the number abandoned if and only if between the two the runner took as many records as it held unlooked at when the signal came |
| AsyncRuns.LateReportExactly | go/async.go:162-169 | a report read by another closer after the cancellation is exact if and only if nothing had been abandoned by then and the runner held nothing it will abandon |
| AsyncRuns.MoreThanQueued | go/async.go:162-169 | a concrete run that reports zero and abandons one record, the queue empty when it was cancelled |
| AsyncRuns.CallbacksAlternate | go/async.go:193-212 | failures and recoveries alternate, a failure first, one more failure exactly when failing and nothing is pending (or the reverse), and one overflow report a run of drops |
| AsyncRuns.OneAheadThoughRecovered | go/async.go:193-212 | a concrete run that is one failure ahead though the sink no longer counts as failing |
| AsyncRuns.RecoveryPending | go/async.go:193-212 | so it is in every reachable state about to report a recovery |
| AsyncRuns.CloseIsBounded | go/async.go:140-149 | on every run of a closed sink, under any interleaving, the runner makes at most as many steps as it is away from its end, nothing else moves it away, and having made them it is done |
| AsyncRuns.StepComesNearer | go/async.go:172-214 | every step of the runner brings a closed sink strictly nearer to its end, and no other step changes the distance |
| AsyncRuns.NeverStuck | go/async.go:246-276 | with a write timeout a closed sink that is not done always has a step onward enabled that needs nothing of the inner sink, the runner's own unless the worker is just coming back to receive |
| AsyncRuns.CloseCompletes | go/async.go:140-149 | such steps alone lead to done, though the inner sink never returns again |
| Async.AsyncSink.Write | go/async.go:99-122 | the writers' region |
| Async.AsyncSink.Account | go/async.go:192-205 | the runner's region after a delivery, and the transition it reports |

## Left out

- Sockets, named pipes, peer credentials, resolvers and bootstrap code: input and output through libraries not modelled.
- The operating system's file layer: directories, permissions and write atomicity; the file is a growing byte string and a write takes a prefix of its line.
- External rewriting of the history file: between calls the file only grows, or the path is reported as another file.
- The general JSON library behind the one-line file format: only its shape is assumed (`Shrink.Printer`), and that no message is quoted shorter than the empty one.
- HMAC-SHA256 and the canonical rendering: uninterpreted; that they are injective is assumed only in `Provenance.PeerErrorBreaks`, `Provenance.BindingTells` and `Standings.BindingCovers`, and for the rendering only on UTF-8 records.
- Clocks and timers: a timeout or cancellation is a step that may happen at any time.
- Byte widths beyond the codec's int64 and the int32 version: counters and file sizes are unbounded integers, a cursor's offset is bounded by an int64, and a chain is shorter than that.
- The one-way call to the history dispatcher, which only names the wrong mode, and the observer's call over frames: the same exchange as the reader's with one more integer argument.
- LastError in the asynchronous counts: a text no decision depends on.
- The distinction of nil and empty collections: both are the empty collection here.
- Handler errors returned by a one-way handler are passed through as one opaque answer.
- The second region of an observer's wait (the reread) is the ordinary read of `Paging.FileHistory`; in `Observers` it only moves the observer on.
- strs, strList, raw, rawmap and rawMap: no encoder or decoder of this definition calls them.
- The C++, Rust and JavaScript codecs and the rest of the Python codec: the same generated algorithm again.
- Host.Serve, history authorisation, ServiceSink fallback, resolvedSink, MultiSink, slog flattening and level names: thin next to the rest.
