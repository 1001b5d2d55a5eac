# Caudium: a verified model of seven components

Caudium is a web server. This project models seven of its components, which do not depend on the
rest of the server, and proves what they compute:

- **Date parser** (`Getdate*.dfy`): the Bison automaton over its packed tables, the lexer in front
  of it, the semantic actions, and the calendar arithmetic and overflow checks behind it.
- **Request parser** (`ParseHttp.dfy`, `HttpRequest.dfy`, `ParseHttpObject.dfy`,
  `RequestLine.dfy`, `RequestQuery.dfy`): the buffer that collects an HTTP request in pieces and
  splits it into its parts.
- **Percent-encoding and query strings** (`UrlCodec.dfy`, `QueryString.dfy`, `QuerySegments.dfy`).
- **Quoted header values and cookies** (`HeaderValues.dfy`, `HeaderTokenizer.dfy`, `Cookies.dfy`).
- **Response stream** (`OutputStream.dfy`, `HttpOutput.dfy`, `ResponseHeader.dfy`): the output buffer that sends the
  response header at its first flush.
- **Entities** (`Entities.dfy`): the HTML encoder and the three-mode decoder.
- **Sessions** (`Sessions.dfy`, `SessionExpiry.dfy`, `SessionContext.dfy`): the servlet session table with lazy expiry
  and periodic collection.

Objects and loops of the source are classes and methods here. Each method is proved equal to a
function on values, and the main results are lemmas about these functions:

- The parser accepts a token sequence exactly when the sequence has a derivation under the 53 rules
  in which no phrase is followed by a token that could extend it, and then the control block holds
  what the actions of that derivation make of it. Its stacks never hold more than 8 entries.
- Any text of numbers, words, marks, spaces and comments is cut into exactly its tokens. Any sequence
  of dates, times, zones, days, numbers and relative items sets what each of them says, unless one
  is extended by the next; the three date formats of HTTP set the fields that were written.
- A written date is read back field by field; relative items sum up with the sign that the `ago`s
  after them give; the closed formula for time differences counts Gregorian seconds.
- The zone check is exact. The relative-time check is exact precisely on machines where a `long` is
  no wider than a `time_t`.
- Cutting a request into pieces makes no difference exactly when its headers do not end in LF CR..CR
  LF with three or more CRs; a written request is read back part by part, in any pieces. A request
  is refused exactly when its first line does not have two spaces.
- A percent-decoder undoes an encoder exactly when `+` is escaped or left alone; query strings are
  read back.
- Written header values, lists of cookies, and cookies with a version, paths and domains are read
  back, except that what was written as a bare atom comes back in lower case.
- Over every run of writes, flushes, resizes and resets the wire and the buffer hold the header,
  once and first, and then the body. A write throws exactly when a single byte meets a full buffer.
  A client reads the status, the type, the length and the stored headers as the response has them.
- Decoding undoes entity encoding, and the automaton is the rule "decode each reference, copy the
  rest".
- The periodic collection of sessions is invisible exactly if no change of interval revives a
  session that was collected; a session that was invalidated never comes back. A session is returned
  exactly while its interval is negative or has not passed.

Where the documentation and the code disagree, the model follows the code:

- `RoxenLib.htmlDecodeString` promises all HTML 4.0 entities, but it looks names up in lower case. A
  reference decodes to its own entry exactly if the lower-case name has an entry with the same
  character (`Entities.EntryIsDecoded`): `&Dagger;` gives the single dagger
  (`Entities.DaggerIsWrong`).
- `HTTPOutputStream.setBufferSize` sets the size that it is given exactly if that is the size
  already, or if the buffer is in use and the size is not larger (`OutputStream.ResizeSetsSize`).
- `f_parse_query_string` says that it ignores empty segments, but of segments joined by `&` it reads
  those before the first empty one (`QuerySegments.ReadsToFirstEmpty`), and so a list is read whole
  exactly if the rest adds nothing (`QuerySegments.ReadsWholeExactly`). An empty segment that a `;`
  ends puts an empty name into the set (`QuerySegments.SemicolonNamesNothing`), and after a leading
  `;` a segment is read right exactly if it has no equals sign (`QuerySegments.LeadingSemicolon`).
- `HeaderTokenizer.skipComment` stops on the closing parenthesis of a comment, not after it
  (`HeaderValues.CommentStops`).

`dafny verify dfyconfig.toml` checks the whole project.

## Model

| member | source | states |
|---|---|---|
| GetdateTables.ActionOfTables | src/cmods/_Caudium/getdate.c:347-380 | in every state, with every next token, the packed tables encode exactly the action of the automaton: accept, shift to its successor, reduce its only rule, or error |
| GetdateTables.TableIsPositive | src/cmods/_Caudium/getdate.c:365-372 | no packed entry is negative or zero, so a packed lookup always shifts or accepts and the branches for a packed reduction and a packed error are never taken |
| GetdateTables.HandleOfRule | src/cmods/_Caudium/getdate.c:263-343 | the symbols that lead into a state that reduces a rule are the right-hand side of the rule |
| GetdateTables.HomeOfRule | src/cmods/_Caudium/getdate.c:324-363 | the state under a right-hand side expects the left-hand side of the rule |
| GetdateTables.GotoHome | src/cmods/_Caudium/getdate.c:1289-1295 | the packed goto tables give the successor of a state that expects a nonterminal |
| GetdateTables.ReduceUnlessExtends | src/cmods/_Caudium/getdate.c:333-380 | a state with a rule to reduce shifts a token exactly when the token can extend the phrase of that rule |
| GetdateTables.EndOfRule | src/cmods/_Caudium/getdate.c:272-343 | from a state that expects a nonterminal, the right-hand side of any of its rules leads to a state that reduces that rule |
| GetdateTables.NoStateShiftsError | src/cmods/_Caudium/getdate.c:1385-1415 | no state shifts the error token |
| GetdateMachine.ChainHeight | src/cmods/_Caudium/getdate.c:698-784 | a stack of states that follow one another in the automaton has at most 8 entries |
| GetdateMachine.EnoughStates | src/cmods/_Caudium/getdate.c:904-925 | no reduction pops more than the stack holds, and the state it uncovers expects the left-hand side |
| GetdateMachine.StepSafe | src/cmods/_Caudium/getdate.c:698-1297 | every step stays inside tables and stacks, keeps the invariant, and either reads a token or lowers the rank of the top state, so every run ends |
| GetdateMachine.InitIsValid | src/cmods/_Caudium/getdate.c:660-697 | the invariant holds at the start |
| GetdateReading.ExplainReduce | src/cmods/_Caudium/getdate.c:904-1297 | after a reduction the stacked trees still derive what was read and evaluate to the stacked values |
| GetdateReading.AcceptedFrom | src/cmods/_Caudium/getdate.c:698-1297 | if the parser accepts from any reachable configuration, the input has a longest-phrase derivation and the control block is what its actions make |
| GetdateReading.Drive | src/cmods/_Caudium/getdate.c:698-1297 | in front of the yield of a longest-phrase tree the parser reads exactly that yield and pushes the state and the value of the tree |
| GetdateReading.ReadingIsAccepted | src/cmods/_Caudium/getdate.c:698-1297 | an input with a longest-phrase derivation is accepted, with the control block that the actions of the derivation make |
| GetdatePhrases.OnlyTwoEndInMerid | src/cmods/_Caudium/getdate.c:263-292 | an o_merid ends the right-hand sides of rules 11 and 13 and is in no other |
| GetdatePhrases.ExtendsOfGrammar | src/cmods/_Caudium/getdate.c:263-292 | the tokens that extend a phrase are read off the rules alone: those with which some right-hand side goes on after the phrase, or after what comes before it if it is an empty o_merid; an empty spec is never extended |
| GetdateReading.AcceptsExactly | src/cmods/_Caudium/getdate.c:263-380 | the parser accepts exactly the inputs that have a derivation under the grammar in which no phrase is followed by a token that extends it, and leaves the control block that the actions of the derivation make |
| GetdateReading.DerivedAndRejected | src/cmods/_Caudium/getdate.c:263-380 | the grammar derives a number followed by a signed number of days, and the parser rejects it, because it takes the first two numbers for a date |
| GetdateRelative.RelativeItems | src/cmods/_Caudium/getdate.c:1118-1200 | any sequence of relative items is accepted, and each relative field becomes the old value and the sum of number times unit, each term negated once for every AGO at or after its item; nothing else but the count of items changes |
| GetdateRelative.OrderIndependent | src/cmods/_Caudium/getdate.c:1118-1200 | sequences of the same relative items without AGO give the same result in any order |
| GetdateParser.ParserControl.ReadNumber | src/cmods/_Caudium/getdate.c:1832-1845 | the number loop returns the value and the count of the digits and takes exactly them off the input |
| GetdateParser.ParserControl.ReadWord | src/cmods/_Caudium/getdate.c:1849-1863 | the word loop takes all letters and periods and keeps the first 19 |
| GetdateParser.ParserControl.SkipComment | src/cmods/_Caudium/getdate.c:1873-1884 | the comment loop stops after the balancing parenthesis or at the end of the input |
| GetdateParser.ParserControl.Yylex | src/cmods/_Caudium/getdate.c:1809-1885 | the lexer returns the first token of its input and leaves the rest, for every input |
| GetdateParser.ParserControl.StoreState | src/cmods/_Caudium/getdate.c:698-784 | pushing a state never reaches the limit of the arrays, so the code that grows them is not reached |
| GetdateParser.ParserControl.Decide | src/cmods/_Caudium/getdate.c:795-905 | the parser decides as the automaton does, reading a token only where the state needs one |
| GetdateParser.ParserControl.ReduceBy | src/cmods/_Caudium/getdate.c:904-1297 | a reduction on the arrays leaves the stacks and the control block of a reduction on values |
| GetdateParser.ParserControl.Yyparse | src/cmods/_Caudium/getdate.c:629-1465 | on arrays of 200 entries that are never grown, the parser returns the code and leaves the control block of the machine run on all tokens of its input |
| Numerals.PaddedValue | src/cmods/_Caudium/getdate.c:1832-1840 | a number printed with any number of leading zeros is read as that number |
| GetdateText.LexDate | src/cmods/_Caudium/getdate.c:1809-1885 | a text `Y-M-D H:M:S+hhmm` or `-hhmm`, in any numerals, is lexed into its nine tokens |
| GetdateText.DateRoundTrip | src/cmods/_Caudium/getdate.c:988-1077 | lexing and parsing such a text is accepted and sets exactly the written fields, with one date, one time and one zone more |
| GetdateText.OffsetRoundTrip | src/cmods/_Caudium/getdate.c:992-998 | an offset whose numeral, in any writing, has the value hhmm is 60 hh + mm minutes, with its sign, under truncating division |
| GetdateText.PrintedDateRoundTrip | src/cmods/_Caudium/getdate.c:988-1077 | for all year, month, day, hour, minute, second, sign, hh and mm below 100, lexing and parsing `YYYY-MM-DD HH:MM:SS+hhmm` sets exactly these integers and the offset of 60 hh + mm minutes with its sign, with one date, one time and one zone more |
| GetdateForms.FormReading | src/cmods/_Caudium/getdate.c:263-380 | a form of any of the 26 kinds has a longest-phrase derivation wherever the next token does not extend it |
| GetdateForms.FormEval | src/cmods/_Caudium/getdate.c:951-1235 | the actions of that derivation set exactly the fields that the form writes, and count it |
| GetdateForms.FormsAreRead | src/cmods/_Caudium/getdate.c:698-1297 | any sequence of forms (times with and without am/pm and offsets, zones with and without DST, days with and without an ordinal, every order of month, day and year, lone numbers, relative items), none of which is extended by the first token of the next, is accepted and sets the fields of each in order |
| GetdateTexts.PiecesAreLexed | src/cmods/_Caudium/getdate.c:1809-1885 | any text of numbers, signed numbers, words with periods, marks, spaces, lone signs and nested comments is cut into exactly their tokens; a word is looked up by its first 19 bytes |
| GetdateTexts.RestIsNotRead | src/cmods/_Caudium/getdate.c:1865-1884 | a comment that is not closed, or a byte from 128 on, ends the input |
| GetdateDates.Rfc1123RoundTrip | src/cmods/_Caudium/getdate.c:1019-1117 | `Sun, 06 Nov 1994 08:49:37 GMT` (section 3.3.1 of RFC 2616), for all words and numerals, sets exactly the day of the week, day, month, year, time and zone |
| GetdateDates.Rfc850RoundTrip | src/cmods/_Caudium/getdate.c:1019-1117 | the same for `Sunday, 06-Nov-94 08:49:37 GMT` |
| GetdateDates.AsctimeRoundTrip | src/cmods/_Caudium/getdate.c:1088-1235 | the same for `Sun Nov  6 08:49:37 1994`, whose last number is the year because a date and a time came before it |
| GetdateDates.SlashedRoundTrip | src/cmods/_Caudium/getdate.c:1040-1068 | in `12/25/1999 8:30 pm EDT` the first number is the month, the second the day and the third the year, unless the first has four digits, when they are year, month and day; the half of the day and the summer zone are set |
| GetdateDates.DateThenHour | src/cmods/_Caudium/getdate.c:1201-1235 | `20030203 14` is a date, split into year, month and day, and an hour |
| GetdateDates.TimeThenDate | src/cmods/_Caudium/getdate.c:1201-1235 | `0830 20030203` is a time, split into hour and minutes, and a date |
| GetdateDates.DateThenTime | src/cmods/_Caudium/getdate.c:1201-1235 | in `20030203 0830` the second number replaces the year, unless a relative item came before |
| GetdateCalendar.DaysClosed | src/cmods/_Caudium/getdate.c:1723-1732 | the days before a year, summed year by year in either direction from 1900, have the closed form in leap years |
| GetdateCalendar.TmDiffCounts | src/cmods/_Caudium/getdate.c:1717-1736 | for all years the difference formula equals the difference of seconds counted by Gregorian year lengths |
| GetdateCalendar.TmDiffAdds | src/cmods/_Caudium/getdate.c:1717-1736 | differences are antisymmetric and add up along any third time |
| GetdateCalendar.TmDiffFits | src/cmods/_Caudium/getdate.c:1723-1735 | for normal times at most 67 years apart every intermediate value of the formula and the result fit a 32-bit int |
| GetdateCalendar.TmDiffOverflows | src/cmods/_Caudium/getdate.c:1731-1735 | 68 years apart, the result can leave a 32-bit int |
| GetdateCalendar.ZoneCheckIsExact | src/cmods/_Caudium/getdate.c:2081-2083 | the zone check rejects exactly the differences outside time_t and otherwise returns the exact one |
| GetdateCalendar.RelativeCheckIsExact | src/cmods/_Caudium/getdate.c:2092-2106 | where a long is no wider than a time_t, the relative-time check accepts exactly the inputs whose products and partial sums are in range, and adds exactly |
| GetdateCalendar.NarrowTimeIsMissed | src/cmods/_Caudium/getdate.c:2092-2106 | where time_t is narrower, one hour past its maximum is accepted with a wrapped result |
| GetdateCalendar.ExactWhereLongFitsTime | src/cmods/_Caudium/getdate.c:2092-2106 | the relative-time check is exact if and only if a long is no wider than a time_t |
| UrlCodec.DecodersAgree | src/cmods/_Caudium/caudium.c:398-428 | on every input without `?` and `+`, truncated escapes included, the URL decoder and the other decoder in mode 0 agree |
| UrlCodec.UrlDecodeInPlace | src/cmods/_Caudium/caudium.c:694-760 | decoding in one buffer, where writing never passes reading, gives the functional decoding, with a NUL in front if asked for |
| UrlCodec.CountUnsafe | src/cmods/_Caudium/caudium.c:1384-1395 | the counting pass stops at the first NUL and finds no unsafe byte exactly when all before it are safe |
| UrlCodec.EncodeStuff | src/cmods/_Caudium/caudium.c:1384-1420 | the encoder returns its input if it is safe up to the first NUL, and otherwise encodes up to there |
| UrlCodec.DecodeEncodeAll | src/cmods/_Caudium/caudium.c:1396-1416 | decoding undoes encoding for any safe set without `%`, if `+` is left alone or not safe |
| UrlCodec.InverseExactly | src/cmods/_Caudium/caudium.c:725-755 | a decoder undoes an encoder on all NUL-free strings if and only if `+` is left alone or not safe |
| UrlCodec.CodecInverse | src/cmods/_Caudium/caudium.c:1424-1614 | mode 1 undoes all four encoders; modes 0 and 2 undo the alphanumeric one, and mode 0 none of the others |
| UrlCodec.WrittenIsDecoded | src/cmods/_Caudium/caudium.c:694-760 | in every mode, what is written byte by byte, as itself or as an escape whose hex digits have either case, is decoded to these bytes; outside mode 1 `+` is a space; a cut escape at the end stays in modes 1 and 2 and is a NUL in mode 0 |
| UrlCodec.WrittenIsLocated | src/cmods/_Caudium/caudium.c:398-428 | in a URL the same bytes are the file, with `+` for itself, up to the first `?`, behind which is the query; a cut escape at the end is a NUL |
| UrlCodec.EncodedPath | src/cmods/_Caudium/caudium.c:398-428 | a path encoded with any safe set without `%` and `?` is the file up to the query |
| UrlCodec.PlainPath | src/cmods/_Caudium/caudium.c:398-428 | a URL without `%` and `?` is its own file, whatever else is in it |
| UrlCodec.EncodeStopsAtNul | src/cmods/_Caudium/caudium.c:1384-1420 | a string whose bytes before its first NUL are safe comes back with the NUL and the rest, and any other is cut off there |
| UrlCodec.LeftAlone | src/cmods/_Caudium/caudium.c:1424-1614 | the characters that each of the four encoders leaves alone, by name; every other byte is escaped |
| UrlCodec.EncodedAmong | src/cmods/_Caudium/caudium.c:1384-1614 | in the output of each encoder are only `%` and the characters that it leaves alone |
| QueryString.BackUp | src/cmods/_Caudium/caudium.c:1035-1111 | the backward loop finds the start of the segment |
| QueryString.ParseQueryString | src/cmods/_Caudium/caudium.c:993-1113 | the single pass assigns the segments in order up to the first blank one, with the leading-`;` case apart, for every query |
| QueryString.QueryRoundTrip | src/cmods/_Caudium/caudium.c:1009-1111 | parsing the percent-encoded text of any NUL-free pairs with nonempty keys adds the pairs in order |
| QueryString.FormOfPairs | src/cmods/_Caudium/caudium.c:1066-1109 | each key with a nonempty value gets these values joined by NUL in order, and the encoded keys of empty values are exactly the empty variables |
| QueryString.BlankDropsRest | src/cmods/_Caudium/caudium.c:1028-1034 | after an empty segment that an `&` ends, and from a segment on that begins with a NUL, nothing is read |
| QuerySegments.ReadsToFirstEmpty | src/cmods/_Caudium/caudium.c:1024-1111 | of any segments joined by `&`, exactly those before the first empty one are read, in order |
| QuerySegments.ReadsWholeExactly | src/cmods/_Caudium/caudium.c:1028-1111 | any list of segments joined by `&` is read whole if and only if each segment from the first empty one on is empty, or has no value and a name that is in the set already |
| QuerySegments.ValuesReadWhole | src/cmods/_Caudium/caudium.c:1028-1034 | if every segment that is not empty has a value, the list is read whole if and only if none comes after an empty one |
| QuerySegments.ReadsWhole | src/cmods/_Caudium/caudium.c:1028-1034 | every list of segments, with or without values, in which none comes after an empty one is read whole |
| QuerySegments.SecondIsDropped | src/cmods/_Caudium/caudium.c:1028-1034 | of `a=1&&b=2` only the first variable is read |
| QuerySegments.SemicolonNamesNothing | src/cmods/_Caudium/caudium.c:1035-1060 | an empty segment that a `;` ends does not end the parsing but puts an empty name into the set |
| QuerySegments.LeadingSemicolon | src/cmods/_Caudium/caudium.c:1028-1060 | after a leading `;` a segment is read as it would be alone if and only if it has no equals sign |
| QuerySegments.TwoSeparators | src/cmods/_Caudium/caudium.c:1028-1060 | after a leading `;` and another separator a segment without equals sign is read as it is, and one with an equals sign gets both separators into its name |
| ParseHttp.ScanFinds | src/cmods/_Caudium/caudium.c:460-465 | the scan stops after the first two line feeds with only returns between them that start where it starts or later |
| ParseHttp.ChunkIndependence | src/cmods/_Caudium/caudium.c:452-476 | every way of cutting the input into pieces that fit is delivered as if the whole buffer were scanned each time, if and only if the first end of the headers has at most two returns between its line feeds |
| ParseHttp.BadCut | src/cmods/_Caudium/caudium.c:460-465 | with three or more returns, the cut in front of the last line feed is missed |
| HttpRequest.AppendsDeliver | src/cmods/_Caudium/caudium.c:452-587 | a run of appends asks for more while the delivery of its chunks waits, parses the request where it is complete, and gives 413 where a chunk does not fit |
| HttpRequest.AppendsAreOneAppend | src/cmods/_Caudium/caudium.c:440-587 | if the first end of the headers has at most two returns, any run of appends that fit asks for more until the first chunk that reaches this end, and then gives the code, maps and buffer of one append of the bytes received so far to a fresh parser |
| HttpRequest.AppendsWait | src/cmods/_Caudium/caudium.c:471-476 | without an end of the headers every run of appends that fit gives 0 and keeps all bytes |
| ParseHttp.CompleteIsOneAppend | src/cmods/_Caudium/caudium.c:452-476 | a delivery that is complete is what one append of the received bytes gives a fresh parser |
| HttpRequest.EndOfText | src/cmods/_Caudium/caudium.c:460-486 | the headers of a written request end where its body begins |
| HttpRequest.RequestRoundTrip | src/cmods/_Caudium/caudium.c:485-586 | a written request gives code 1, its method, raw URL, decoded file and query, protocol and body, and adds its headers in order |
| HttpRequest.HeadersOfRequest | src/cmods/_Caudium/caudium.c:550-585 | the header map has exactly the written names in lower case, each with its values, without leading spaces, joined by commas in order (section 4.2 of RFC 2616) |
| Bytes.LowerByPlace | src/cmods/_Caudium/caudium.c:552 | exactly the capital letters are lowered, each to the small letter in the same place of the alphabet |
| HttpRequest.RequestInPieces | src/cmods/_Caudium/caudium.c:440-587 | however a written request is cut into appends that fit, their run ends with code 1, all its parts, and the body received so far |
| HttpRequest.RefusedExactly | src/cmods/_Caudium/caudium.c:452-476 | without an end of the headers a run of appends gives 413 exactly when its bytes do not leave one byte of the buffer free, and 0 otherwise |
| RequestLine.AcceptedExactly | src/cmods/_Caudium/caudium.c:488-540 | a request whose headers have ended is accepted exactly when the line up to its first line feed has two spaces, and otherwise gives 400 |
| RequestLine.EntriesExactly | src/cmods/_Caudium/caudium.c:478-547 | the entries of any accepted request: the parts of its first line between the spaces, the protocol without a return at its end, and the body |
| RequestLine.MethodEntered | src/cmods/_Caudium/caudium.c:488-502 | what comes before the first space is entered as the method, and the body is, even if the request is refused; then no header is |
| RequestLine.RefusedEntries | src/cmods/_Caudium/caudium.c:488-514 | without a space in the first line only the body is entered, with one space only the method besides it |
| RequestLine.BareLineFeed | src/cmods/_Caudium/caudium.c:533-548 | the first line may end in a line feed without a return, with the same result |
| RequestLine.BufferLowered | src/cmods/_Caudium/caudium.c:550-585 | the names of written headers are put in lower case in the buffer, and so is what follows without a colon; values and ends of lines stay |
| RequestQuery.UrlRoundTrip | src/cmods/_Caudium/caudium.c:503-529 | a request for a percent-encoded path and an encoded query of pairs gives exactly the path as its file, and a query from which parsing adds every pair in order |
| RequestQuery.PlainUrl | src/cmods/_Caudium/caudium.c:503-529 | a request for a URL without `%` and `?` gets the URL itself, up to a NUL, as its file, `+` included, and no query |
| RequestQuery.EncodedUrl | src/cmods/_Caudium/caudium.c:503-529 | a request for a path encoded with any safe set without `%` and `?`, and any query, gets the path as its file and the query as it stands |
| RequestQuery.PairIsRead | src/cmods/_Caudium/caudium.c:1062-1109 | a variable with a value, each written in any way, is decoded with `+` for a space and added to the values of its name with a NUL between |
| ParseHttpObject.CharDecodeUrl | src/cmods/_Caudium/caudium.c:398-428 | the URL decoder, in place in the buffer, gives the functional decoding and query and changes nothing outside the URL |
| ParseHttpObject.ParseHeaderSection | src/cmods/_Caudium/caudium.c:550-585 | the header loop, which lowers names in place, gives the headers and the buffer of the functional parser |
| ParseHttpObject.ParseHTTP.constructor | src/cmods/_Caudium/caudium.c:590-624 | a new parser has an empty buffer of the size asked for |
| ParseHttpObject.ParseHTTP.FindEnd | src/cmods/_Caudium/caudium.c:460-465 | the scan loop finds what the functional scan finds |
| ParseHttpObject.ParseHTTP.ReadRequest | src/cmods/_Caudium/caudium.c:478-586 | code, maps and buffer are those of the functional request parser |
| ParseHttpObject.ParseHTTP.Append | src/cmods/_Caudium/caudium.c:440-587 | an append gives 413 and changes nothing if the data does not fit, 0 while no end of the headers is found, and else the parsed request; used and free bytes always add up to the capacity |
| HeaderValues.EncodeValueOf | src/java/src/net/caudium/servlet/ServletResponse.java:204-217 | the two rewriting loops quote a value that is not an atom with a backslash before each backslash and quote, and nothing else |
| HeaderValues.EscapeTwice | src/java/src/net/caudium/servlet/ServletResponse.java:210-213 | escaping backslashes and then quotes escapes both at once |
| HeaderValues.UnescapeEscape | src/java/src/net/caudium/servlet/HeaderTokenizer.java:77-78 | removing backslashes undoes escaping |
| HeaderValues.QuoteAfterEscape | src/java/src/net/caudium/servlet/HeaderTokenizer.java:68-75 | the quote that ends a quoted string is found past the whole escaped value |
| HeaderValues.ValueRoundTrip | src/java/src/net/caudium/servlet/HeaderTokenizer.java:53-80 | reading a written value that is followed by `=`, `;`, `,`, a space or the end gives it back, in lower case if it was a bare atom, and stops right after it |
| HeaderValues.RecoveredExactly | src/java/src/net/caudium/servlet/HeaderTokenizer.java:53-67 | what is read back is the value itself if and only if it was quoted or has no capital letter |
| HeaderValues.CommentStops | src/java/src/net/caudium/servlet/HeaderTokenizer.java:8-31 | a comment is skipped to the end of the header if it is not closed, and otherwise only up to its closing parenthesis, which is read next |
| HeaderValues.BareExactly | src/java/src/net/caudium/servlet/ServletResponse.java:197-217 | a value is written bare exactly if it is a nonempty sequence of ASCII token characters: no control character and none of the separators of section 2.2 of RFC 2616 |
| HeaderValues.TokenIsRead | src/java/src/net/caudium/servlet/HeaderTokenizer.java:46-62 | a token is read up to the first control character or separator, in lower case |
| JavaText.LowerByPlace | src/java/src/net/caudium/servlet/HeaderTokenizer.java:61 | on ASCII exactly the capital letters are lowered, each to the small letter in the same place of the alphabet |
| HeaderValues.QuotedIsRead | src/java/src/net/caudium/servlet/HeaderTokenizer.java:64-80 | between quotes, characters that are written as themselves or behind a backslash are read as they are; without the ending quote reading throws |
| HeaderValues.SpaceIsSkipped | src/java/src/net/caudium/servlet/HeaderTokenizer.java:8-31 | spaces and control characters are skipped, and a comment with nested comments and escapes up to the parenthesis that closes it |
| HeaderTokenizer.Tokenizer.SkipCommentHere | src/java/src/net/caudium/servlet/HeaderTokenizer.java:8-19 | the comment loop moves forward and stops on the balancing parenthesis or at the end |
| HeaderTokenizer.Tokenizer.SkipSpace | src/java/src/net/caudium/servlet/HeaderTokenizer.java:21-31 | skipping ends for every header, comments included, where the specification says |
| HeaderTokenizer.Tokenizer.Discard | src/java/src/net/caudium/servlet/HeaderTokenizer.java:39-44 | the character is taken if it comes next, and otherwise the call throws |
| HeaderTokenizer.Tokenizer.ReadToken | src/java/src/net/caudium/servlet/HeaderTokenizer.java:53-62 | the longest token is returned in lower case; an empty one throws |
| HeaderTokenizer.Tokenizer.RemoveBackslashes | src/java/src/net/caudium/servlet/HeaderTokenizer.java:77-78 | the loop removes each backslash and keeps the character after it |
| HeaderTokenizer.Tokenizer.ReadValue | src/java/src/net/caudium/servlet/HeaderTokenizer.java:64-80 | a token or an unescaped quoted string is returned; an unterminated string throws |
| Cookies.ReadHeader | src/java/src/net/caudium/servlet/ServletRequest.java:152-181 | the loop over one header adds its cookies in order with version, path and domain, and an exception keeps those read before it |
| Cookies.GetCookies | src/java/src/net/caudium/servlet/ServletRequest.java:144-184 | the cookies of all headers, in order; none if there are no headers |
| Cookies.HeaderOfItems | src/java/src/net/caudium/servlet/ServletRequest.java:157-180 | a header of names and values joined by `; ` and `, ` in any mixture has exactly the effect of these, one after the other, reserved names and exceptions included |
| Cookies.CookieRoundTrip | src/java/src/net/caudium/servlet/ServletRequest.java:144-184 | over any number of headers, every written cookie with an acceptable name comes back in order, with names and values that were written as bare atoms in lower case |
| Cookies.VersionedRoundTrip | src/java/src/net/caudium/servlet/ServletRequest.java:166-179 | a header with a version, and with a path and a domain where a cookie has one, gives every cookie back with these, bare atoms in lower case |
| Cookies.ReservedSpelled | src/java/src/net/caudium/servlet/ServletRequest.java:166-173 | the three reserved names |
| Cookies.NameAlone | src/java/src/net/caudium/servlet/ServletRequest.java:158-165 | a name without an equals sign gives a cookie with an empty value |
| Cookies.UnreadableEnds | src/java/src/net/caudium/servlet/ServletRequest.java:152-181 | a separator in place of a name, or a quote that is not closed, ends a header and keeps the cookies before it |
| Cookies.NoSeparatorEnds | src/java/src/net/caudium/servlet/ServletRequest.java:152-181 | a name and value that neither a comma nor a semicolon follows are lost and end a header, and the cookies before them are kept |
| Cookies.RefusedEnds | src/java/src/net/caudium/servlet/ServletRequest.java:166-181 | a name that the constructor refuses, or a version that is no number, ends a header and keeps the cookies before it |
| Cookies.ReservedIgnored | src/java/src/net/caudium/servlet/ServletRequest.java:166-176 | other reserved names are ignored, and so are a path and a domain in front of the first cookie |
| OutputStream.PutAllSends | src/java/src/net/caudium/servlet/HTTPOutputStream.java:37-60 | writing bytes adds exactly them to what is sent or pending, also in a full buffer, and leaves room if there are any |
| OutputStream.ResizeKeeps | src/java/src/net/caudium/servlet/HTTPOutputStream.java:86-100 | resizing keeps every byte and throws exactly when it grows the buffer to less than it holds; from room it leaves none if and only if it grows the buffer to exactly what it holds, and to a full buffer it gives room if and only if it grows it further |
| OutputStream.ResizeSetsSize | src/java/src/net/caudium/servlet/HTTPOutputStream.java:86-100 | the size becomes the one that is given if and only if it is that already, or the buffer is in use and the size is not larger |
| OutputStream.SizeIsIgnored | src/java/src/net/caudium/servlet/HTTPOutputStream.java:86-100 | an unused buffer keeps its size of 1024 when 100 is asked for, and one with three bytes keeps it when 4096 is |
| OutputStream.SentExactly | src/java/src/net/caudium/servlet/HTTPOutputStream.java:37-60 | bytes that are fewer, with those that wait, than the buffer size only wait; otherwise everything is sent, except for what did not fit of a write that is shorter than the size |
| OutputStream.ByteSentExactly | src/java/src/net/caudium/servlet/HTTPOutputStream.java:30-35 | a byte is sent, with those that wait, exactly when they are as many as the buffer size |
| OutputStream.Capacities | src/java/src/net/caudium/servlet/HTTPOutputStream.java:62-100 | which operations change the length of the array, and to what |
| OutputStream.Conservation | src/java/src/net/caudium/servlet/HTTPOutputStream.java:30-112 | over every run of writes, flushes, resizes and resets, also one that ends with an exception, what is sent or pending is the header followed by the body since the last reset that was allowed |
| OutputStream.ThrowsExactly | src/java/src/net/caudium/servlet/HTTPOutputStream.java:30-35 | a run ends with an exception of a write if and only if a single byte meets a full buffer |
| OutputStream.FullAfter | src/java/src/net/caudium/servlet/HTTPOutputStream.java:30-112 | a buffer with room becomes full only by a resize to exactly what it holds, and a full one stays full exactly under a single byte, an empty write, a resize that is not larger, or a refused reset |
| OutputStream.FullBuffer | src/java/src/net/caudium/servlet/HTTPOutputStream.java:30-100 | after three bytes, a size of two and a size of three, a single byte throws, while two bytes in one call and a flush do not |
| OutputStream.RunOfNewStream | src/java/src/net/caudium/servlet/HTTPOutputStream.java:30-112 | before the commit the wire is empty and the buffer is the body; after it, wire and buffer are the header, once and first, and the body; unless a write threw, a flush sends them all |
| OutputStream.WireGrows | src/java/src/net/caudium/servlet/HTTPOutputStream.java:62-84 | what was sent stays a prefix of the wire |
| OutputStream.BufferingIsInvisible | src/java/src/net/caudium/servlet/HTTPOutputStream.java:30-84 | whatever the sizes of the buffer and its resizes, after a run without resets in which no write throws a flush has sent the header, what was there before, and all bytes written, in order |
| HttpOutput.HTTPOutputStream.constructor | src/java/src/net/caudium/servlet/HTTPOutputStream.java:19-28 | a new stream is empty and not committed, with a buffer of 1024 bytes |
| HttpOutput.HTTPOutputStream.WriteByte | src/java/src/net/caudium/servlet/HTTPOutputStream.java:30-35 | with room, the new state is that of putting the low eight bits, flushed if the buffer is full; in a full buffer the call throws, with the count moved and nothing else changed |
| HttpOutput.HTTPOutputStream.Write | src/java/src/net/caudium/servlet/HTTPOutputStream.java:37-60 | the new state is that of putting all the bytes in one of the three ways that depend on their number |
| HttpOutput.HTTPOutputStream.Flush | src/java/src/net/caudium/servlet/HTTPOutputStream.java:62-78 | everything pending is sent, at the first flush after the header, through the calls back into the writes; the calls end |
| HttpOutput.HTTPOutputStream.CommitRequest | src/java/src/net/caudium/servlet/ServletResponse.java:106-127 | the status line, the default headers that are not set, the stored headers, an empty line and the message are printed in this order |
| ResponseHeader.HeaderRead | src/java/src/net/caudium/servlet/ServletResponse.java:106-127 | without returns and line feeds in its parts, the lines of the header up to the empty one are the status line, the type and the length unless headers of these names were set, and the stored lines in order; the message follows |
| ResponseHeader.StoredInOrder | src/java/src/net/caudium/servlet/ServletResponse.java:116-124 | the lines of each stored header are printed behind those of the headers before it |
| ResponseHeader.StatusRead | src/java/src/net/caudium/servlet/ServletResponse.java:109-111 | before the first space of the first line is `HTTP/1.0`, before the second the status, and behind it its text, or `Foo` if it has none |
| ResponseHeader.FieldsRead | src/java/src/net/caudium/servlet/ServletResponse.java:112-125 | reading the lines between the first and the empty one gives each name that was set its values, and the type and the length of the response where they were not set |
| HttpOutput.HTTPOutputStream.Close | src/java/src/net/caudium/servlet/HTTPOutputStream.java:80-84 | everything is on the wire and the stream is closed |
| HttpOutput.HTTPOutputStream.SetBufferSize | src/java/src/net/caudium/servlet/HTTPOutputStream.java:86-100 | the new state and the exception are those specified, for a full buffer too |
| HttpOutput.HTTPOutputStream.Reset | src/java/src/net/caudium/servlet/HTTPOutputStream.java:107-112 | exactly the body is discarded before the commit, also after a write that threw; afterwards the call throws and changes nothing |
| Entities.HtmlEncodeString | src/java/src/net/caudium/caudium/RoxenLib.java:190-212 | the token loop encodes each character by itself |
| Entities.HtmlDecodeString | src/java/src/net/caudium/caudium/RoxenLib.java:222-290 | the automaton computes the declarative rule for every input, and the last branch of mode 2 is never reached |
| Entities.DecodeReference | src/java/src/net/caudium/caudium/RoxenLib.java:249-276 | an ampersand and a run are decoded if a semicolon follows and copied otherwise |
| Entities.DecodeEncode | src/java/src/net/caudium/caudium/RoxenLib.java:190-290 | decoding undoes encoding for every string |
| Entities.EncodedIsQuoted | src/java/src/net/caudium/caudium/RoxenLib.java:195-211 | no `<`, `>`, quote, apostrophe or NUL is left in encoded text |
| Entities.CapitalsAreDead | src/java/src/net/caudium/caudium/RoxenLib.java:249-262 | dropping all entries whose names have capitals does not change the decoding of any ASCII text |
| Entities.EntryIsDecoded | src/java/src/net/caudium/caudium/RoxenLib.java:249-262 | a reference to a named entry of the table gives the character of that entry if and only if the lower-case name has an entry with the same character |
| Entities.DaggerIsWrong | src/java/src/net/caudium/caudium/RoxenLib.java:59-60 | with both daggers in the table, the reference to the double dagger gives the single one |
| Entities.NumberIsDecoded | src/java/src/net/caudium/caudium/RoxenLib.java:249-259 | a reference by number is the character with the number that is parsed, modulo 65536, and is copied if parsing fails |
| Entities.NumeralIsDecoded | src/java/src/net/caudium/caudium/RoxenLib.java:249-259 | with any zeros in front, `&#n;` is the character n modulo 65536 if n is below 2^31, and is copied otherwise |
| Entities.NameIsDecoded | src/java/src/net/caudium/caudium/RoxenLib.java:260-267 | a reference by name, a lone `#` and a negative number among them, is the character of the lower-case name in the table, and is copied if there is none |
| Entities.EncodedCharacters | src/java/src/net/caudium/caudium/RoxenLib.java:190-212 | the six characters that are encoded, and to what |
| Sessions.IdsDistinct | src/java/src/net/caudium/servlet/CaudiumSession.java:22-45 | two identifiers are equal if and only if the 32-bit counter went all the way round between them |
| Sessions.IdSpelled | src/java/src/net/caudium/servlet/CaudiumSession.java:22-45 | an identifier is the base followed by the counter as a signed 32-bit integer in decimal, without leading zeros |
| Sessions.CollectionIsTransparent | src/java/src/net/caudium/servlet/CaudiumSessionContext.java:23-58 | every run of calls, on a clock that does not go back and in which no change of interval revives a session that was collected, gets the same sessions and nulls with the periodic collection as without it |
| Sessions.TransparentExactly | src/java/src/net/caudium/servlet/CaudiumSessionContext.java:23-58 | on such a clock the answers agree throughout a run, whatever is asked for at any point of it, if and only if the run revives no collected session |
| Sessions.RevivalExactly | src/java/src/net/caudium/servlet/CaudiumSessionContext.java:23-58 | after one change of interval the answers agree on everything that may follow if and only if it revives no collected session |
| Sessions.CollectionIsInvisible | src/java/src/net/caudium/servlet/CaudiumSessionContext.java:23-58 | the same from any two tables that differ only in dead sessions |
| Sessions.FixedIntervalsNeverRevive | src/java/src/net/caudium/servlet/CaudiumSession.java:103-106 | with intervals left alone nothing is revived, so that an ordered clock is all that transparency needs |
| Sessions.RevivalShows | src/java/src/net/caudium/servlet/CaudiumSessionContext.java:24-39 | whenever a longer interval revives an expired session that a due collection removes, the collection does show |
| Sessions.ReturnsLive | src/java/src/net/caudium/servlet/CaudiumSessionContext.java:41-58 | a returned session is in the table under its identifier, neither invalid nor expired, and is the one asked for or a new one; null is returned only if none was to be made |
| Sessions.EventKeepsSafe | src/java/src/net/caudium/servlet/CaudiumSessionContext.java:18-59 | every key stays the identifier of its session and one that was given out |
| Sessions.GoneForever | src/java/src/net/caudium/servlet/CaudiumSession.java:78-120 | over every run that gives out at most 2^32 identifiers, a session that was invalidated or dropped is never returned again |
| SessionExpiry.ReturnedExactly | src/java/src/net/caudium/servlet/CaudiumSessionContext.java:41-58 | if no collection is due and the clock has not gone back, a valid session of the table is returned, with its times moved on, exactly while its interval is negative or 1000 times it has not passed in milliseconds; otherwise it is dropped and, if asked, a new one is made |
| SessionExpiry.CollectedExactly | src/java/src/net/caudium/servlet/CaudiumSessionContext.java:23-39 | a collection is made when the last one is more than 600000 ms past, and removes exactly the sessions that are invalid or whose interval has passed |
| SessionExpiry.NewSessionLives | src/java/src/net/caudium/servlet/CaudiumSession.java:15-89 | a new session is returned for less than 3600000 ms after it was made and not later, with the collection or without it |
| SessionExpiry.IntervalCounts | src/java/src/net/caudium/servlet/CaudiumSession.java:103-106 | after a change of its interval a session is returned exactly while the new one is negative or has not passed |
| SessionExpiry.ClockSetBack | src/java/src/net/caudium/servlet/CaudiumSession.java:64-76 | with the clock set back, a session ends exactly if its interval is 0 and it is less than a second |
| SessionExpiry.InvalidIsDropped | src/java/src/net/caudium/servlet/CaudiumSession.java:108-120 | a session that was invalidated loses its attributes and is dropped when it is asked for |
| SessionContext.IDGenerator.Generate | src/java/src/net/caudium/servlet/CaudiumSession.java:27-30 | each call gives the identifier of the next count |
| SessionContext.CaudiumSession.IsInvalidOrExpired | src/java/src/net/caudium/servlet/CaudiumSession.java:64-76 | true exactly for invalid or expired sessions; a time of zero means that the clock is read |
| SessionContext.CaudiumSession.Access | src/java/src/net/caudium/servlet/CaudiumSession.java:78-89 | the times move on even if the session has expired, and it stops being new only if it may be used |
| SessionContext.CaudiumSession.Invalidate | src/java/src/net/caudium/servlet/CaudiumSession.java:108-120 | the session becomes invalid and loses its attributes; a second call throws and changes nothing |
| SessionContext.CaudiumSession.SetMaxInactiveInterval | src/java/src/net/caudium/servlet/CaudiumSession.java:103-106 | only the interval changes |
| SessionContext.CaudiumSessionContext.constructor | src/java/src/net/caudium/servlet/CaudiumSessionContext.java:10-16 | a new context has no sessions |
| SessionContext.CaudiumSessionContext.Drop | src/java/src/net/caudium/servlet/CaudiumSessionContext.java:34-36 | the session leaves the table and ends invalid, without an exception |
| SessionContext.CaudiumSessionContext.Collect | src/java/src/net/caudium/servlet/CaudiumSessionContext.java:23-39 | when it is due, the loop removes exactly the dead sessions, in any order, and each of them ends invalid |
| SessionContext.CaudiumSessionContext.Get | src/java/src/net/caudium/servlet/CaudiumSessionContext.java:18-59 | the table, the times and the returned object are those specified; whatever leaves the table ends invalid, unless a new identifier that wrapped around displaced it; the exception of a session invalidated twice never reaches the caller |

## Left out

- Date parser: numbers and relative fields are unbounded integers; the C overflow of values that do not fit an int is not modelled.
- Date parser: what `lookup_word` makes of a word is a parameter of the lexer, and bytes from 128 on end the input as they do where char is signed.
- Date parser: a derivation counts only if no phrase is followed by a token that extends it; the grammar also derives inputs that the parser rejects, because it prefers to shift (`GetdateReading.DerivedAndRejected`).
- Date parser: `mktime`, `localtime`, the probing of the local zone, `to_hour`, `to_year` and the rest of `get_date` are not part of this model.
- Percent-encoding: reference counts, Pike's shared strings and the scratch allocator are not part of this model; a string is a sequence of bytes, and a NUL stands after it where the code reads one.
- Query strings: `f_parse_prestates`, `f_parse_entities` and `f_make_tag_attributes` are not modelled.
- Headers: `f_parse_headers` and `get_next_header`, a second header parser beside that of the request parser, are not modelled.
- Request parser: header values that are not strings, which the caller could put into the maps, and running out of memory are not modelled.
- Request parser: an append after the one that completed the headers is specified like any other, but the results about runs end there.
- Header values: `toLowerCase` is a parameter that is known only on ASCII.
- Cookies: the javax Cookie class is a record; which names its constructor accepts, and `Integer.parseInt`, are parameters.
- Response stream: native writes never fail; `print` of the javax stream is taken to write a byte per character, and text outside Latin-1 is not modelled.
- HttpOutput.HTTPOutputStream.WriteByte: after it has thrown, the count of pending bytes is past the array, and only a reset is specified; what the native write makes of such a count is not part of this model.
- HttpOutput.HTTPOutputStream.CommitRequest: the header fields are given as text and in the order that the hash table lists them; how they were set is not modelled.
- Entities: the table of names, `toLowerCase` and `Integer.parseInt` are parameters; round trips use only the entries for `amp`, `lt` and `gt` and the numbers 0, 34 and 39.
- Sessions: attributes are a set of names; their values and the listeners that are told about them are not modelled.
- Sessions: clock readings are parameters of each call; locking and the sharing of one generator among contexts are not modelled.
- Sessions.CollectionIsTransparent: a change of interval must not revive a session that was collected; by `Sessions.TransparentExactly` this is exactly when the collection does not show.
- Session watchdogs, scripts, font tools, class loaders, the rest of `RoxenLib` and of the servlet classes are not part of this model.
