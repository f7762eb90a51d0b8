# A verified model of bitcoin-core-rpc

A Dafny model of the parts of the `bitcoin_core_rpc` package that decide what a caller is told a node answered: the
streaming JSON reader of `call_stream`, the reading of a reply, the pooled transport, the request side, and the matching
of a batch. `dafny verify dfyconfig.toml` checks all of it.

## What is modelled

**The streaming reader** (`Streams`, `Walks`, `Documents`, `Refusals`). `JsonStream` is a class with the fields of the
original: a sliding buffer, its position and offset, the UTF-8 decoder's state, the recorder of a kept value, and the
count of containers entered. A `Source` answers each read with as many octets as it likes, or raises. Every method is
proved against a function of the *document* and a position (`Scanner`), so what it answers cannot depend on where the
chunks end. Three independent accounts of JSON stand behind that:

- `Grammar` is sections 2 to 7 of RFC 8259 as concrete syntax trees that write text. `ScannerProofs` shows that the scan
  reads exactly what the grammar writes, and `Unambiguity` that a text has one tree.
- `Automaton` shows that the explicit stack of `skip` ends where the recursion of the grammar does.
- `Numbers` gives section 6 as a predicate and the number pattern as a function, and says what the pattern finds when it
  is shown only 1025 octets.

A walk is a script (`Walks.Walk`): skip, keep under a limit, members or items with one sub-walk an element, peek, leave
early, abandon. The generators `members` and `items` are classes whose `Next` is one resumption.

**The reply** (`Replies`, `Envelopes`, `Shapes`, `Characters`, `Encodings`, `Renderings`, `Calls`, `Agreement`,
`Differences`, `Failures`). `_discriminate` with its two dialects; `_streamed_result` as a method over a stream; what
`call` makes of the same body, with the encodings `json.loads` detects; and the theorem that the two answer alike,
with the exact condition, for every body and every walk. `Shapes` says on the syntax tree which walks read the whole
of a value and what they are shown.

**The transport** (`Bounded`, `Sessions`). `_read_bounded` and `sendall` as loops over a nondeterministic peer and
clock, and `SessionTransport` as a class whose every step may raise. A peer that answers requests in order is a
function from the number of a call to what it sends. The steps of a connection log each try at a write, when each
began and each raise themselves, so that a contract can say that a request is not sent twice, that a call fails only
for a reason, and that no step of it begins past its deadline.

**The request** (`Params`, `Unfolding`, `Printer`, `Decimals`, `Quantities`, `RoundTrip`). The walk over an object graph
that may share and may be cyclic, what it unfolds to, the text written for it, and the reader of the first part undoing
that text.

**Batches** (`Batches`). The correlation loop, the counting argument that its comment states, and what the order of the
replies changes: nothing.

## Main theorems

- `Documents.ReadDocument` with `Characters.Utf8Exactly` and `Refusals.ValueTells`: the loop over an explicit stack,
  fed any chunks, accepts exactly RFC 8259 in UTF-8 within its bounds, and what it refuses a value for is so.
- `Envelopes.StreamedResult` with `Agreement.StreamedExactly` and `Agreement.AgreesExactly`: what a streamed reply
  answers, for every body and every walk, and exactly where that is what parsing the body whole answers.
- `Shapes.WalkExactly` and `Envelopes.CheckedWalk`: a nest of members and items, abandoned anywhere, consumes a value
  exactly where it fits the value's tree, sees what the tree says, and passes the check exactly then.
- `Sessions.SessionTransport.Call` and `Sessions.Run`: over every run each answer is that of its own call, nothing
  leaks, no request written whole is tried again, and no step begins past the deadline of its call.
- `Differences.EveryEncoding`: JSON is parsed alike from every encoding `json.loads` detects.
- `RoundTrip.WrittenReadsBack`, `Decimals.DecimalReadsBack`: when a structure is written, and that the reader undoes
  the writer, with the exact exceptions.
- `Params.CheckExactly`: the walk over a graph, cyclic or not, accepts exactly what JSON can carry.
- `Replies.ResultExactly` and `Replies.RpcErrorExactly`: what a reply answers, by its members.
- `Batches.BatchAnswer` and `Batches.OrderIsIrrelevant`: when a batch is answered and by what, blind to order.

## What the proofs found

- *A request does not always read back equal.* It does exactly when no string in it has a high surrogate right before
  a low one as two characters: `json.dumps` writes the two escapes of one character, and one character is read
  (`RoundTrip.WrittenReadsBack`, `RoundTrip.PairDoesNotReadBack`).
- *A Decimal does not always read back as a Decimal.* One whose exponent is not negative is written with no point and
  read as an `int`, the same number; a negative zero among them, and nothing else, loses its sign
  (`Decimals.DecimalReadsBack`, `Decimals.SignIsLost`).
- *`call_stream` refuses some UTF-8 that `call` accepts.* `json.loads` decodes octets with "surrogatepass", so a lone
  surrogate in three octets is a character to `call`; the stream's decoder is strict. The documentation of
  `JsonStream` (`src/bitcoin_core_rpc/client.py:908-914`) names UTF-16, UTF-32 and a BOM and not this.
  `Agreement.AgreesExactly` is the condition, `Differences.LoneSurrogateDiffers` a body that differs for every id;
  `Differences.MarkDiffers` and `Differences.EncodingDiffers` are the encodings the documentation names.
- *A number past 1024 octets may be cut rather than refused.* Exactly where its octet 1025 is no digit and is the last
  one buffered, or is followed by a sign that is the last one buffered, `skip` consumes the number up to its `.`, `e`
  or `E`, and `value` answers that much of it (`Overlong.CutExactly`, `Overlong.CutHappens`,
  `Streams.JsonStream.Value`). Every following step refuses what is left, at its own index (`Walks.DanglingStays`), so
  no document is accepted for it.
- *A cut error body may stay pooled only when it was read whole.* A body one octet over the bound is cut and yet read
  to its end; anything longer closes the connection (`Sessions.SessionTransport.Call`).

## Conventions

Octets are numbers below 256, strings are sequences of code points with lone surrogates allowed, times are integers in
milliseconds. `builds` is whether the parser behind `call` can build a number from a token (digit limits, the decimal
context): any predicate. `reach` is how deep that parser nests before it raises `RecursionError`: any number. A float
is held with the digits it is written with. A refusal is a value of a datatype; the wording of messages is not
modelled, the offset of a misplaced octet is.

## Model

| member | source | states |
|---|---|---|
| `Numbers.NumberLengthSound` | src/bitcoin_core_rpc/client.py:854 | whatever the number pattern matches is a number of section 6 of RFC 8259 |
| `Numbers.NumberLengthLongest` | src/bitcoin_core_rpc/client.py:854 | no longer start of the text is a number: the greedy match is the maximal one |
| `Numbers.NumberAlone` | src/bitcoin_core_rpc/client.py:1069-1075 | a number followed by no octet of a number is matched whole |
| `Numbers.WindowMatch` | src/bitcoin_core_rpc/client.py:1064-1075 | of a number that goes on past the octets in view, the pattern finds all of them but the `.`, the mark, or the mark and sign they end in; any other it finds whole |
| `Overlong.CutExactly` | src/bitcoin_core_rpc/client.py:1064-1075 | a number past 1024 octets is matched short of the bound exactly where its octet 1025 is no digit and ends the view, or a sign after it does; and how short |
| `Overlong.CutHappens` | src/bitcoin_core_rpc/client.py:1064-1075 | 1024 digits, `.` and a digit, seen through 1025 octets, are matched as the 1024 digits |
| `Overlong.CutIsNumber` | src/bitcoin_core_rpc/client.py:1074-1075 | what is left of a number that was cut is a number within the bound |
| `ScannerProofs.StringSound` | src/bitcoin_core_rpc/client.py:1027-1060 | a string that is consumed is a string of section 7: its escapes whole, no control character |
| `ScannerProofs.StringComplete` | src/bitcoin_core_rpc/client.py:1027-1060 | every string of section 7 is consumed whole, up to its own closing quote |
| `ScannerProofs.ScalarSound` | src/bitcoin_core_rpc/client.py:1062-1075 | a scalar that is consumed is a literal, or a number within the bound that can be built |
| `ScannerProofs.ScalarComplete` | src/bitcoin_core_rpc/client.py:1062-1075 | every literal and every admitted number before a delimiter is consumed whole |
| `ScannerProofs.ValueSound` | src/bitcoin_core_rpc/client.py:1082-1126 | what is consumed as a value is the text of a tree the grammar admits, within the depth bound |
| `ScannerProofs.ValueComplete` | src/bitcoin_core_rpc/client.py:1082-1126 | every value the grammar writes within the bounds, wherever it stands, is consumed exactly |
| `ScannerProofs.DocumentIsGrammar` | src/bitcoin_core_rpc/client.py:1082-1126 | a document is accepted exactly when the grammar writes it within the bounds |
| `Unambiguity.TreeUnique` | src/bitcoin_core_rpc/client.py:1150-1155 | the octets at a place are the text of one value only |
| `Unambiguity.DocumentUnique` | src/bitcoin_core_rpc/client.py:1150-1155 | a document has one syntax tree, so its value is a function of its octets |
| `Unambiguity.ReadAlone` | src/bitcoin_core_rpc/client.py:1144-1155 | the slice kept of a value parses alone, whole, to the same value: nothing is left to refuse |
| `Automaton.Unwind` | src/bitcoin_core_rpc/client.py:1089-1126 | a container read by recursion and then the rest is the rest read with that container on the stack |
| `Automaton.ResumeTurn` | src/bitcoin_core_rpc/client.py:1090-1107 | one turn of the loop of `skip` at a value, with its depth check, keeps what is left to read |
| `Automaton.OpenTurn` | src/bitcoin_core_rpc/client.py:1092-1101 | opening a container pushes it, or consumes it where it is empty, and keeps what is left to read |
| `Refusals.ExpectTells` | src/bitcoin_core_rpc/client.py:1008-1025 | an octet is expected where the first one stands that is no whitespace: found there, another found there and its index named, or the document cut short |
| `Refusals.ValueTells` | src/bitcoin_core_rpc/client.py:1021-1131 | whatever a value is refused for is true of the document at the place named: which octet stands there, that no literal or number starts there, how long the number is, that a container opens there, or that the document ends there or inside an escape |
| `Utf8.RunCompose` | src/bitcoin_core_rpc/client.py:955-970 | decoding chunk by chunk is decoding the whole |
| `Utf8.BadPrefix` | src/bitcoin_core_rpc/client.py:959-970 | octets refused in one chunk are not UTF-8 whatever follows |
| `Utf8.StrictPasses` | src/bitcoin_core_rpc/client.py:532-535 | what is UTF-8 decodes alike with lone surrogates let through |
| `Characters.Utf8Exactly` | src/bitcoin_core_rpc/client.py:958-970 | octets are UTF-8 exactly where they are characters written in UTF-8 one after another, each a code point and none a surrogate |
| `Characters.DecodesExactly` | src/bitcoin_core_rpc/client.py:532-535 | octets decode with surrogates let through exactly where they are code points written one after another, surrogates or not |
| `Characters.PointReads` | src/bitcoin_core_rpc/client.py:532-535 | a character written in UTF-8 reads as that character, wherever it stands in a string |
| `Values.GetExactly` | src/bitcoin_core_rpc/client.py:575-588 | looking a name up finds the value of the last member of that name, and nothing exactly where no member has it |
| `Values.ShortEscapeDecodes` | src/bitcoin_core_rpc/client.py:532-535 | each of the eight short escapes is the character section 7 gives it |
| `Values.HexNumberIs` | src/bitcoin_core_rpc/client.py:532-535 | four hexadecimal digits of either case are the number they write |
| `Values.SpellingBound` | src/bitcoin_core_rpc/client.py:1157-1165 | no escaped spelling of an ASCII name takes more than six octets a character |
| `Streams.Source.Read` | src/bitcoin_core_rpc/client.py:901-902 | at most as many octets as asked for, in order, none only at the end, or an exception |
| `Streams.JsonStream.constructor` | src/bitcoin_core_rpc/client.py:923-942 | a new stream is at the start of the document, keeps nothing and has nothing open |
| `Streams.JsonStream.Fill` | src/bitcoin_core_rpc/client.py:955-977 | a fill keeps the position, holds the next octets of the document behind it, and refuses only a document that is not UTF-8, as `Characters.Utf8Exactly` has it, or a read that raised |
| `Streams.JsonStream.Ensure` | src/bitcoin_core_rpc/client.py:979-983 | as many octets as asked for are buffered, or all that are left |
| `Streams.JsonStream.Advance` | src/bitcoin_core_rpc/client.py:985-995 | consumed octets are recorded as the exact slice of the document; a hard limit refuses, a soft one stops recording |
| `Streams.JsonStream.AtEnd` | src/bitcoin_core_rpc/client.py:997-1006 | whitespace is consumed across chunks, and the end is answered exactly at the end of a document that is UTF-8 |
| `Streams.JsonStream.NextOctet` | src/bitcoin_core_rpc/client.py:1008-1011 | the octet of the document after whitespace, or a document cut short |
| `Streams.JsonStream.Expect` | src/bitcoin_core_rpc/client.py:1021-1025 | the octet expected, or a refusal naming the index in the document |
| `Streams.JsonStream.String` | src/bitcoin_core_rpc/client.py:1027-1044 | agrees with the scan of the whole document wherever a chunk ends inside the string |
| `Streams.JsonStream.PlainOctets` | src/bitcoin_core_rpc/client.py:1031-1037 | a run of plain octets, as far as the buffer holds it, leaves the same string to scan |
| `Streams.JsonStream.MoreOctets` | src/bitcoin_core_rpc/client.py:1032-1036 | a string that reaches the end of the buffer goes on in the next chunk, and is cut short only at the end of the document |
| `Streams.JsonStream.StringStopped` | src/bitcoin_core_rpc/client.py:1038-1044 | what a run of plain octets stops at is the closing quote, an escape, or a control character refused |
| `Streams.JsonStream.Escape` | src/bitcoin_core_rpc/client.py:1046-1060 | agrees with the scan wherever a chunk ends inside the escape |
| `Streams.JsonStream.Window` | src/bitcoin_core_rpc/client.py:1064-1075 | 1025 octets in view decide a literal and a number of at most 1024 octets as the whole document does, and cut a longer one exactly where its octet 1025 is no digit and ends the buffer, or the sign after it does |
| `Streams.JsonStream.Scalar` | src/bitcoin_core_rpc/client.py:1062-1075 | agrees with the scan; of a number past 1024 octets, refused for its length, or where it can be cut taken for its start, which may then be refused as one that cannot be built |
| `Streams.JsonStream.MemberName` | src/bitcoin_core_rpc/client.py:1077-1080 | a name and its colon, as the scan has them |
| `Streams.JsonStream.Open` | src/bitcoin_core_rpc/client.py:1092-1101 | a container that opens is pushed or consumed empty, and what is left to read is unchanged |
| `Streams.JsonStream.Follow` | src/bitcoin_core_rpc/client.py:1106-1107 | past a value to what is left to scan; behind a number that was cut, refused at the index of the octet after the cut wherever a container is open |
| `Streams.JsonStream.Mark` | src/bitcoin_core_rpc/client.py:1116-1122 | a comma or the closer of the innermost container, anything else refused at its index |
| `Streams.JsonStream.NextKey` | src/bitcoin_core_rpc/client.py:1123-1125 | the name and colon of the next member, nothing in an array |
| `Streams.JsonStream.NextIn` | src/bitcoin_core_rpc/client.py:1109-1126 | closes what ends, steps to what follows, and never steps past the rest of a number that was cut |
| `Streams.JsonStream.Skip` | src/bitcoin_core_rpc/client.py:1082-1107 | the loop over an explicit stack terminates and does what the recursive scan of one value does, refusal and index included; past a number longer than 1024 octets the refusal is one of three, each with its index, and it passes only where that number is the value itself and is cut |
| `Streams.JsonStream.Keep` | src/bitcoin_core_rpc/client.py:1128-1131 | keeping starts at the first octet of the value, after whitespace |
| `Streams.JsonStream.Value` | src/bitcoin_core_rpc/client.py:1133-1155 | the value of exactly the slice consumed, refused exactly when it is malformed or longer than the limit; of a number past 1024 octets that is cut, its start, as a number |
| `Streams.JsonStream.Name` | src/bitcoin_core_rpc/client.py:1157-1165 | the decoded name, `None` exactly when its quoted text is longer than 256 octets |
| `Streams.JsonStream.Peek` | src/bitcoin_core_rpc/client.py:1013-1019 | the first octet of the next value, left unread |
| `Streams.JsonStream.End` | src/bitcoin_core_rpc/client.py:1214-1217 | passes exactly when nothing but whitespace is left, and then all of the document is UTF-8 |
| `Streams.KeptReads` | src/bitcoin_core_rpc/client.py:1144-1155 | parsing the kept slice gives the value the document has there |
| `Streams.CutLoads` | src/bitcoin_core_rpc/client.py:1150-1155 | the start kept of a number that was cut parses as the number it is |
| `Documents.ReadDocument` | src/bitcoin_core_rpc/client.py:1082-1126 | for every document and every chunking, `skip` then `end` accept exactly UTF-8 that is one JSON value within the bounds, and refuse a UTF-8 document for the one reason and index its octets give, or where a number past 1024 octets is reached for one of those its octets allow: its length alone unless its octet 1025 is no digit; a read that raises is raised |
| `Walks.EnterContainer` | src/bitcoin_core_rpc/client.py:1175-1179 | into a container, counted, or past one that is empty, not counted |
| `Walks.LeaveElement` | src/bitcoin_core_rpc/client.py:1184-1190 | past the comma, or past the closer and counted out; anything else refused at its index |
| `Walks.MembersGenerator.Next` | src/bitcoin_core_rpc/client.py:1175-1190 | the next name, or the end of the object, and how the count of open containers moves |
| `Walks.ItemsGenerator.Next` | src/bitcoin_core_rpc/client.py:1197-1212 | the next index, or the end of the array, and how the count of open containers moves |
| `Walks.RunWalk` | src/bitcoin_core_rpc/client.py:1167-1212 | a walk over a stream ends, sees and leaves open what the walk over the whole document does |
| `Walks.RunMembers` | src/bitcoin_core_rpc/client.py:1180-1190 | the same of the members of one object from any step of its generator on |
| `Walks.RunItems` | src/bitcoin_core_rpc/client.py:1201-1212 | the same of the items of one array from any step of its generator on |
| `Walks.DanglingStays` | src/bitcoin_core_rpc/client.py:1184-1190 | after a number that was cut, no step of a generator passes |
| `Walks.WalkIsGrammar` | src/bitcoin_core_rpc/client.py:1167-1212 | a walk that passes over a nest of members and items ends where the grammar ends the value with nothing left open; one left early is inside a container, has consumed nothing, or has consumed the value |
| `Walks.WalkIsSkip` | src/bitcoin_core_rpc/client.py:1082-1126 | a nest that passes ends where one `skip` ends, unless the value is too deep for `skip` |
| `Shapes.WalkExactly` | src/bitcoin_core_rpc/client.py:1167-1212 | over the text of any value, a walk passes and consumes it exactly where it fits the syntax tree, and is then shown exactly what the tree says: names, indices, first octets and kept values |
| `Shapes.MembersExactly` | src/bitcoin_core_rpc/client.py:1180-1190 | over the members of any object, the same of a walk for each member |
| `Shapes.ItemsExactly` | src/bitcoin_core_rpc/client.py:1201-1212 | over the elements of any array, the same of a walk for each element |
| `Shapes.SkipExactly` | src/bitcoin_core_rpc/client.py:1082-1126 | over the text of any value, `skip` passes exactly where its depth and its numbers are within the bounds |
| `Shapes.ValueWithin` | src/bitcoin_core_rpc/client.py:1093-1094 | text of the grammar that is read at a depth bound is within it |
| `Walks.DepthEnough` | src/bitcoin_core_rpc/client.py:1093-1094 | a depth bound as large as the text admits all that any bound admits |
| `Walks.DepthOnly` | src/bitcoin_core_rpc/client.py:1093-1094 | a smaller depth bound changes nothing but that a value may be refused as too deep |
| `Envelopes.ReadMember` | src/bitcoin_core_rpc/client.py:1266-1285 | one member read: given twice refused, the result walked and checked, the envelope kept under its limit, any other skipped |
| `Envelopes.ReadResult` | src/bitcoin_core_rpc/client.py:1268-1281 | a walk of `result`, abandoned or not, is refused unless it left every container it entered and moved past where it started |
| `Envelopes.ReadNothing` | src/bitcoin_core_rpc/client.py:1275-1278 | the read of nothing after the walk changes nothing but may raise |
| `Envelopes.CheckedWalk` | src/bitcoin_core_rpc/client.py:1268-1281 | the check behind the walk passes exactly when the walk, abandoned anywhere or not, consumed exactly the one value of `result` |
| `Envelopes.StreamedResult` | src/bitcoin_core_rpc/client.py:1263-1287 | for every chunking and every walk, the answer is a function of the body alone, or a refusal where a read raised |
| `Agreement.EnvelopeSpelling` | src/bitcoin_core_rpc/client.py:1157-1165 | every spelling of `jsonrpc`, `id`, `error` and `result` takes at most 44 octets |
| `Agreement.NameInReach` | src/bitcoin_core_rpc/client.py:1157-1165 | no name the reader answers as `None` is one of the four |
| `Encodings.PlainDocument` | src/bitcoin_core_rpc/client.py:532-535 | JSON in UTF-8 without a mark is detected as that |
| `Renderings.Reads16` | src/bitcoin_core_rpc/client.py:532-535 | any text with no surrogate pair in two characters, written in UTF-16 with either octet first, reads back as its characters, lone surrogates included |
| `Renderings.Reads32` | src/bitcoin_core_rpc/client.py:532-535 | any text written in UTF-32, with either end first, reads back as its characters |
| `Renderings.WholeUnits` | src/bitcoin_core_rpc/client.py:532-535 | octets are UTF-16 exactly where they are whole code units |
| `Renderings.WholePoints` | src/bitcoin_core_rpc/client.py:532-535 | octets are UTF-32 exactly where code points are written as them |
| `Renderings.RecodedAlike` | src/bitcoin_core_rpc/client.py:532-535 | a text that starts in ASCII, lone surrogates in it or not, is detected in each of the forms it can come in, UTF-8, UTF-16 and UTF-32 in either order, with a mark or without, and recoded to the same octets |
| `Calls.GetIsLast` | src/bitcoin_core_rpc/client.py:575-588 | looking a member up in the parsed object finds the last given under its name |
| `Calls.CalledIsValue` | src/bitcoin_core_rpc/client.py:575-642 | what `call` answers, with its result held as the syntax tree it was parsed from |
| `Calls.PlainParsed` | src/bitcoin_core_rpc/client.py:532-535 | JSON in UTF-8 is parsed to its one tree |
| `Differences.EveryEncoding` | src/bitcoin_core_rpc/client.py:532-535 | every JSON text is parsed to its one tree from each of those forms |
| `Agreement.MemberExactly` | src/bitcoin_core_rpc/client.py:1266-1285 | a member of the reply is read exactly where it is not given twice and fits: the walk the result, the limit what is kept, the bounds of `skip` the rest |
| `Agreement.EnvelopeExactly` | src/bitcoin_core_rpc/client.py:1265-1285 | reading member by member passes exactly where every member does, and keeps what it is asked to |
| `Agreement.EnvelopeIsGrammar` | src/bitcoin_core_rpc/client.py:1265-1285 | members that pass are an object of the grammar |
| `Agreement.KeptIsLast` | src/bitcoin_core_rpc/client.py:1264-1285 | what is kept while streaming is what looking up in the parsed object finds |
| `Agreement.StreamedExactly` | src/bitcoin_core_rpc/client.py:1239-1287 | for every JSON body and every walk whatever: the decision on its tree, the result as the walk is shown it, exactly where the body is streamable, and a refusal everywhere else |
| `Agreement.OnlyJson` | src/bitcoin_core_rpc/client.py:1239-1287 | no body that is not JSON is answered |
| `Agreement.StreamableIsJson` | src/bitcoin_core_rpc/client.py:867-887 | every number of a body that is streamed is one `call` can build |
| `Agreement.StreamedAgrees` | src/bitcoin_core_rpc/client.py:1239-1287 | for every walk, a streamable body that the parser can nest into answers through `call_stream` what it answers through `call` |
| `Agreement.AnswersExactly` | src/bitcoin_core_rpc/client.py:613-712 | when a reply under a 200 answers the call, by its members |
| `Agreement.AgreesExactly` | src/bitcoin_core_rpc/client.py:1239-1287 | the two answer alike exactly where a streamable body is within reach of the parser or does not answer the call, and where in any other body, in whatever encoding, the parser finds nothing that answers the call |
| `Differences.OnlyPlainStreams` | src/bitcoin_core_rpc/client.py:912-914 | no body in another encoding, or with a mark, is streamed |
| `Differences.MarkDiffers` | src/bitcoin_core_rpc/client.py:912-914 | a mark ahead of any body changes nothing for `call` and has it refused by `call_stream` |
| `Differences.EncodingDiffers` | src/bitcoin_core_rpc/client.py:912-914 | any text that starts in ASCII is the same for `call` in each of those forms and refused by `call_stream` in all but UTF-8 without a mark |
| `Differences.LoneSurrogateDiffers` | src/bitcoin_core_rpc/client.py:532-535 | for every id, a body in UTF-8 that `call` answers with a result and `call_stream` refuses |
| `Failures.StreamRead` | src/bitcoin_core_rpc/transport.py:1465-1474 | no receive past the deadline, at most what is asked for and a chunk |
| `Failures.FailureBody` | src/bitcoin_core_rpc/client.py:1220-1236 | the longest start of the body within the bound, or nothing where a read fails: what `ReadBounded` keeps when it cuts |
| `Failures.FailureSays` | src/bitcoin_core_rpc/client.py:1258-1262 | under another status, the error of the node, with its code, message and data, exactly for a legacy reply echoing the id whose error object can be read, in whatever encoding the body is, and the status otherwise |
| `Replies.ResultExactly` | src/bitcoin_core_rpc/client.py:613-712 | a result exactly for a 200 echoing the id with a result and, by its dialect, no error |
| `Replies.RpcErrorExactly` | src/bitcoin_core_rpc/client.py:467-712 | an rpc error of that code, message and data exactly where a reply echoes the id, its error is an object, its last `code` is a number written as an integer with that value, its last `message` that string and its last `data` that value, or null and absent: under any status in the legacy dialect, under a 200 and no result in 2.0 |
| `Batches.CorrelatedReplies` | src/bitcoin_core_rpc/client.py:804-827 | returns exactly when there are as many replies as requests, each an object whose last `id` is a string that was sent, no two the same; then its keys are exactly the ids sent, each with the reply whose last `id` it is |
| `Batches.CorrelatedByEcho` | src/bitcoin_core_rpc/client.py:814-822 | telling replies apart by the id looked up in each is the correlation by their members |
| `Batches.Pigeonhole` | src/bitcoin_core_rpc/client.py:822-826 | as many distinct ids as were sent, each of them sent, are all that were sent; the ids need not be distinct |
| `Batches.BatchResults` | src/bitcoin_core_rpc/client.py:2022-2036 | results aligned with the requests, each what the reply whose last `id` is that of the request says to it under a 200; exactly when the replies correlate and each is a result or an rpc error |
| `Batches.BatchAnswer` | src/bitcoin_core_rpc/client.py:2019-2036 | the status first, then an array, then one answer to each request, what the reply whose last `id` is its id says, or a refusal of the whole batch |
| `Batches.EachIsIndexed` | src/bitcoin_core_rpc/client.py:822-826 | every reply is the one looked up for the request it is to |
| `Batches.OrderIsIrrelevant` | src/bitcoin_core_rpc/client.py:785-790 | whether the batch answers, the map of its replies by id, and its aligned results, are the same for every permutation of the replies |
| `Bounded.Response.Read1` | src/bitcoin_core_rpc/transport.py:1037-1044 | the next octets of the body, none only at its end, which closes the response |
| `Bounded.ReadBounded` | src/bitcoin_core_rpc/transport.py:745-781 | at most the limit and one octet received, no receive past the deadline and no body answered past it; the whole body, or its longest start within the limit; refused exactly when announced or found larger, a receive raises or the time runs out; a body within the limit closes the response |
| `Bounded.SendAll` | src/bitcoin_core_rpc/transport.py:356-377 | all of the data is taken, or a strict start of it where it raises: where a send raised, or the time ran out first; each send is offered a chunk at most and given exactly what is left of the deadline |
| `Sessions.Connection.Request` | src/bitcoin_core_rpc/transport.py:1283-1292 | asked only of an open connection not seen dead, with time left; a write that returns puts the request on the wire, and every try is logged with the clock reading, the deadline and the timeout it was made under |
| `Sessions.Connection.GetResponse` | src/bitcoin_core_rpc/transport.py:1293 | the answer to the oldest request, unless something of an earlier answer is still to come |
| `Sessions.SessionTransport.constructor` | src/bitcoin_core_rpc/transport.py:1218-1227 | an empty pool |
| `Sessions.SessionTransport.TimeLeft` | src/bitcoin_core_rpc/transport.py:1097-1115 | exactly what is left of the deadline, or nothing where nothing is |
| `Sessions.SessionTransport.Factory` | src/bitcoin_core_rpc/transport.py:1050-1064 | a fresh connection for the key, or an exception |
| `Sessions.SessionTransport.Connect` | src/bitcoin_core_rpc/transport.py:1273-1274 | a fresh connection for the key, held to the deadline with what is left of it as its timeout, or nothing made |
| `Sessions.SessionTransport.Discard` | src/bitcoin_core_rpc/transport.py:1294-1297 | the connection of a failed exchange is closed and its key dropped |
| `Sessions.SessionTransport.Hold` | src/bitcoin_core_rpc/transport.py:1275-1281 | a pooled connection is held to the deadline, its timeout what is left of it, unless nothing is left or the socket raises |
| `Sessions.SessionTransport.Acquire` | src/bitcoin_core_rpc/transport.py:1255-1281 | the connection pooled before the call exactly where one is and its peer was not seen gone, and a fresh one otherwise, held to the deadline with what is left of it; one seen dead is never answered, and is closed and dropped even where the time runs out next; one whose timeout cannot be set stays pooled |
| `Sessions.SessionTransport.WriteRequest` | src/bitcoin_core_rpc/transport.py:1283-1292 | a second try only after a stale write on a connection used before, on a fresh one, and always then: that write alone fails no call; every try is for this call |
| `Sessions.SessionTransport.TryAgain` | src/bitcoin_core_rpc/transport.py:1289-1292 | the stale connection is closed, and the request is tried once more unless the time is out or the factory raises |
| `Sessions.SessionTransport.Receive` | src/bitcoin_core_rpc/transport.py:1293 | the status line of the answer to this very call, and to no other connection |
| `Sessions.SessionTransport.Pool` | src/bitcoin_core_rpc/transport.py:1299 | the connection the response comes over is the one pooled for its key |
| `Sessions.SessionTransport.Ask` | src/bitcoin_core_rpc/transport.py:1283-1300 | written, answered and pooled, or the connection closed and dropped |
| `Sessions.SessionTransport.SendAndReceive` | src/bitcoin_core_rpc/transport.py:1229-1300 | on every path the pool is left as between calls, the failed connection closed and dropped, or with this call's response under way |
| `Sessions.SessionTransport.ReadReply` | src/bitcoin_core_rpc/transport.py:1349-1368 | an error's body cut at its bound, any other whole within `max_body_size`, no receive and no answer past the deadline, and whether nothing is left on the wire: nothing is of a body within its bound |
| `Sessions.SessionTransport.Evict` | src/bitcoin_core_rpc/transport.py:1374-1386 | a connection left mid-response, or that the peer closes, is closed and dropped |
| `Sessions.SessionTransport.Call` | src/bitcoin_core_rpc/transport.py:1302-1388 | what is returned is what the peer sent for this call, and something is, unless a step raised, the time ran out or the answer is too large; the deadline is the timeout after the clock reading on entry: no step begins at or past it, every write is given exactly what is left of it, no receive begins past it and nothing is returned past it; afterwards, returned or raised, every connection made is closed or pooled for its own key, never both, and no pooled one has anything unread |
| `Sessions.SessionTransport.Close` | src/bitcoin_core_rpc/transport.py:1390-1399 | every connection ever made is closed and the pool is empty |
| `Sessions.Run` | src/bitcoin_core_rpc/transport.py:1302-1399 | over every run of calls and closes, each answer is that of the one call its action made, whose request was written whole; no request written whole is ever tried again, nor any three times; every try is held to the deadline of its own action; and the pool's invariant holds |
| `Params.CheckTells` | src/bitcoin_core_rpc/client.py:242-328 | each refusal is true of a path from the root: too deep, a cycle, a name that is no string, a value with no json |
| `Params.CheckCovers` | src/bitcoin_core_rpc/client.py:242-296 | what is accepted is accepted along every path |
| `Params.Pump` | src/bitcoin_core_rpc/client.py:261-264 | a cycle unfolds to paths of any length |
| `Params.CheckExactly` | src/bitcoin_core_rpc/client.py:242-328 | for every object graph, accepted exactly when every path from the root is at most a hundred levels deep and ends in a value json can carry |
| `Params.CyclesAreRefused` | src/bitcoin_core_rpc/client.py:325-328 | every cycle that can be reached is refused |
| `Params.SharingIsNoCycle` | src/bitcoin_core_rpc/client.py:261-264 | sharing without a cycle is never refused as one |
| `Unfolding.AcceptedExactlyUnfolds` | src/bitcoin_core_rpc/client.py:242-328 | accepted exactly when the graph unfolds to a tree that can be written, floats included |
| `Decimals.DigitsNatural` | src/bitcoin_core_rpc/client.py:379 | the decimal digits of a natural number denote it |
| `Decimals.WrittenDenotes` | src/bitcoin_core_rpc/client.py:404 | positional notation is a number of section 6 that denotes its digits scaled by its point |
| `Decimals.DecimalJsonDenotes` | src/bitcoin_core_rpc/client.py:396-404 | refused exactly when not finite or when its first digit stands further from the point than the limit; otherwise a number denoting exactly the Decimal, in at most the limit, its digits and two octets more |
| `Decimals.AdjustedExactly` | src/bitcoin_core_rpc/client.py:400 | the adjusted exponent is the one power of ten that brackets the coefficient |
| `Decimals.IntegerFitsExactly` | src/bitcoin_core_rpc/client.py:379 | an integer has at most that many digits exactly where it lies between those powers of ten |
| `Quantities.IntegerTextExactly` | src/bitcoin_core_rpc/client.py:532-535 | a number is read as an integer exactly where it is written with digits and a sign alone |
| `Quantities.DenotesParts` | src/bitcoin_core_rpc/client.py:404 | what a number denotes, by the parts section 6 writes it in, its exponent included |
| `Decimals.DecimalReadsBack` | src/bitcoin_core_rpc/client.py:382-404 | digit for digit: with a negative exponent read again as the very same Decimal, sign and trailing zeros included, with any other as the integer it is |
| `Decimals.SignIsLost` | src/bitcoin_core_rpc/client.py:404 | the integer read back has lost the sign exactly of a negative zero |
| `Decimals.IntegerJsonDenotes` | src/bitcoin_core_rpc/client.py:379 | an integer is written as a number that reads back as it |
| `Printer.PrintsExactly` | src/bitcoin_core_rpc/client.py:344-404 | a structure is written exactly where every integer in it has at most the limit of digits, 0 being none, and every Decimal is finite with its first digit within the limit |
| `RoundTrip.JoinedExactly` | src/bitcoin_core_rpc/client.py:379 | joining surrogate pairs changes a string exactly when it has one |
| `RoundTrip.StringReads` | src/bitcoin_core_rpc/client.py:370-379 | a string is written as a string of section 7 and reads back with its surrogate pairs joined |
| `RoundTrip.CharPrintable` | src/bitcoin_core_rpc/client.py:379 | a character is written in printable ASCII: as itself, by its short escape, or by one or two escaped code units |
| `RoundTrip.TextOfTree` | src/bitcoin_core_rpc/client.py:344-379 | the text written is the text of the tree the structure stands for, and one is written exactly where every number can be |
| `RoundTrip.TreeIsGrammar` | src/bitcoin_core_rpc/client.py:344-404 | that tree is one the grammar admits, at the depth of the structure |
| `RoundTrip.TreeMeans` | src/bitcoin_core_rpc/client.py:344-404 | that tree means an equal structure exactly when no string has a surrogate pair |
| `RoundTrip.WrittenReadsBack` | src/bitcoin_core_rpc/client.py:344-404 | written exactly where every number can be; what is written, `JsonStream.value` consumes whole and reads back as an equal value exactly when no string has a surrogate pair |
| `RoundTrip.PairDoesNotReadBack` | src/bitcoin_core_rpc/client.py:379 | a string that reads back as another |

## Left out

- Exceptions of the walk itself: they end the call, and nothing is answered.
- Callbacks that are not scripts: a walk that asks for the next element before it has consumed the last one, or goes on after a refusal it caught.
- A `peek` after a value and before the next element: `Walks.Walk` peeks only ahead of a value. That every other callback which consumes each value before it asks for the next runs as some script is how the scripts are meant, and not proved.
- Which numbers can be built (`sys.get_int_max_str_digits`, the decimal context) and how deep `json` recurses: parameters.
- Limits, timeouts and statuses that are not integers, and the type errors for them.
- Which digits a float is written with: they are part of the graph and of the structure.
- Objects the caller changes between the walk and the writer: the graph is fixed, so `_refuse_param` is never reached.
- `_params_member`, `_rpc_id`, urls, headers, credentials, wallets, `RpcChannel` and the REST client: thin validation and plumbing.
- `chains.py`, `errors.py` and `__init__.py`: tables, files and re-exports.
- Sockets, TLS, `getaddrinfo` and `http.client`: each step of a connection succeeds or raises as it likes, `close` does not raise, and a body that ends early raises.
- The lock of `SessionTransport`: a call is one sequence of steps.
- A peer that sends what nobody asked for: `Sessions.Peer` answers each request once, in order, and nothing else.
- The wording of refusals, exception chaining, and what a refusal may not quote.
