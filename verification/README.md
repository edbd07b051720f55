# Verified models of the toolkit's core algorithms

A Dafny 4.11 project that models the algorithms in the repository's live headers and states what they guarantee. To verify the whole project:

    dafny verify --resource-limit 2000000 --verification-time-limit 0 --warn-contradictory-assumptions dfyconfig.toml

| files | what they model |
|---|---|
| `Bytes.dfy` | bytes, C strings, signed `char` |
| `QueueProtocol.dfy`, `LockFreeQueue.dfy` | the multi-producer single-consumer queue: all interleavings of its atomic steps, and its code on heap nodes |
| `MultipartMachine.dfy`, `MultipartRuns.dfy`, `MultipartGrammar.dfy`, `MultipartLanguage.dfy`, `MultipartLaws.dfy` | the multipart state machine that two parsers share, byte by byte; the grammar of its callbacks; the language it accepts; what reaches a body |
| `MultipartParts.dfy`, `MultipartParser.dfy`, `MultipartRoundTrip.dfy` | the C++ parser object, its callbacks and loop; independence of chunking; printing and parsing |
| `CallbackCalls.dfy`, `CallbackParser.dfy` | the C parser, whose callbacks may abort it, and the calls it makes when they do not |
| `Wildcard.dfy`, `Subcases.dfy` | doctest's glob matcher and its subcase scheduler |
| `Utf8.dfy`, `IpTrie.dfy` | the IP database's UTF-8 validator and its trie search |
| `Json.dfy`, `JsonGrammar.dfy`, `StringStream.dfy`, `JsonReader.dfy` | JSON string literals: what the writer emits and the reader takes, set against the standard's grammar; the writer and its growing buffer; the in-place reader |
| `BinProto.dfy`, `BinProtoBuffers.dfy` | the binary schema codec: bytes, parsing, lengths, and its methods on buffers |
| `Base64.dfy` | the Base64 codec |

Each imperative method is proved against a function of its inputs or of the object's old state, and the properties are proved of that function. Bytes are integers from 0 to 255; where the source reads a byte through plain `char`, which is signed on its platform, the model says so (`Signed`). A result that the source has no defined value for (an index outside a table, a read outside a buffer) is a value of its own: `None`, `Overread`, `Fault`, or the flag `outOfRange`; a loop that never ends is `Endless`. The binary codec is modelled for a 64-bit `size_t`: in a 32-bit build, the lengths and sizes beyond its range, which `Overread`, `Refused` and `Endless` are about, are cut off or refused by the containers. Callback results, allocator addresses and thread schedules are parameters, quantified over.

In the C++ multipart parser the boundary counts up to its first NUL, and in the C one up to its 70th byte as well, where the cleared bytes that follow the array end it; the laws below are stated for the bytes that count. A caller's null callback in the C parser behaves as one that returns zero.

## Where the code differs from its intent

The model follows the code. Each difference is part of a proved statement:

- A boundary byte from 128 on never matches, because the byte read is unsigned and the boundary is `char` (`multipart_parser.cpp:50`, `:174`): `MultipartRoundTrip.HighByteIsRefused`, and the ASCII condition of `MultipartRoundTrip.RoundTrip`.
- A failed delimiter drops `CR LF - -` from the body (`multipart_parser.cpp:178`): `MultipartLaws.BodyLaw`, and the condition of the round trip.
- A header with an empty value is not stored, and its name runs into the next one, even of the next part (`multipart_parser.h:116-122`): `MultipartRoundTrip.PrintParses` says what arrives then; `MultipartParts.FoldStoresNoEmptyValue`, and the condition of the round trip.
- A callback's abort may go unseen in the returned size, which is then the chunk's full size (`multipartparser.cpp:180`, `:209`, `:239`): iff, of the calls that a run never stopped would make for the chunk, the last is the first one refused, it is a non-empty slice that ends the chunk, and the machine fed the chunk stands where that slice leaves it (`StopsUnseen` in `CallbackParser.Parser.Execute`). It happens: `CallbackParser.UnseenHappens`, and on one byte `CallbackParser.AbortGoesUnseen`.
- The JSON reader refuses the digit `f` and the escaped backslash (`serialize.hpp:472`, `:553-600`), and of the standard's literals exactly those with one of the two: `JsonGrammar.LiteralIsTakenIff`, `JsonGrammar.StandardLiteralsRefused`.
- It does not combine the two halves of a surrogate pair (`serialize.hpp:502-520`): each becomes three bytes that no UTF-8 has. A standard literal is read as the text it stands for iff it has no digit `f`, no escaped backslash and no surrogate escape: `JsonGrammar.LiteralIsReadIff`, `JsonGrammar.PairIsNotCombined`.
- It takes raw control bytes, but for NUL and the line feed, and bytes that are not UTF-8 (`serialize.hpp:541-547`): what it takes is a literal of the standard iff it has neither: `JsonGrammar.ReadIsStandardIff`, `JsonGrammar.RawBytesAreRead`.
- The JSON writer emits that backslash, and packs a control byte without a letter escape with its successor (`string_stream.hpp:52-60`): `Json.RoundTrip` is an equivalence with the exact condition, and `Json.PackedPairIsLost`. When the successor is the first byte of a longer UTF-8 character, what is written is no literal of the standard, and only then: `JsonGrammar.WrittenIsStandardIff`, `JsonGrammar.CutHappens`.
- A wrong hexadecimal digit only raises the error flag and reading goes on (`serialize.hpp:478-479`). So a digit byte from 128 on indexes the table with a negative number, and an escape that the end of the text truncates is stored too far back, even in front of the literal or of the buffer: `JsonReader.Strays` and `JsonReader.Cut` say on which texts, and where; `JsonReader.Reader.ParserQuoteString` states both of every text, and `JsonReader.TruncatedEscapeStrays` and `JsonReader.TruncatedEscapeStores` give the shortest ones.
- The Base64 encoder reads signed bytes (`b64_encrypt.cpp:12`, `:20`): `Base64.RoundTrip` is an equivalence with the exact condition. Its decoder takes a text without its padding, but puts a NUL after a lone last byte (`b64_encrypt.cpp:45`): `Base64.UnpaddedDecodes`.
- The binary codec's string bound check is computed in 32 bits (or 64, for 64-bit lengths) and can wrap (`binproto.hpp:461`). With a four-byte length the copy then runs past the buffer: `BinProto.OverreadIffWrap`, `BinProto.OverreadHappens`. With an eight-byte one the length is larger than any string, so `assign` throws `std::length_error`, which is not the codec's exception: `BinProto.RefusedIffWrap`, `BinProto.RefusalHappens`.
- A list's 32-bit index never reaches a size of 2^32 or more (`binproto.hpp:738`). The loop is endless only when the items take no bytes; other items run out of bytes and throw: `BinProto.EndlessIff`, `BinProto.EndlessHappens`. `BinProto.MishapIff` says of every schema and buffer size whether some buffer brings one of the three.
- Subcases with equal signatures shadow each other (`doctest.hpp:3595-3602`): of two such siblings the second is never entered (`Subcases.TwinNeverRuns`). The loop runs every leaf iff siblings' subtrees share no signature and a subcase's own recurs below it at most on the chain of last children: `Subcases.EveryLeafRunsIff`.
- The IP database's constructor stops its walk at the node count, which a search takes for neither a node nor a leaf and reads on from (`ipdb.hpp:150`, `:278`). The cached node serves, whatever follows the nodes, iff that walk does not stop there before its last bit: `IpTrie.ServesIff`; `IpTrie.NeverStopsShort` for tables without such a child, and `IpTrie.CacheFails` with a table on which the cached answer differs.

## Model

| member | source | states |
|---|---|---|
| QueueProtocol.EveryRunIsFifo | ConsoleApplication1/lock_free_queue.hpp:29-65 | In every interleaving of the shared-memory accesses of any number of producers and one consumer, starting from a new queue: no access to freed memory, no payload taken or freed twice, no leak, and the values dequeued are a prefix of the values put in, which are read off the schedule alone: for each exchange on `head_`, in order, the value that the latest construction of its node was given |
| QueueProtocol.RunAccounts | ConsoleApplication1/lock_free_queue.hpp:29-40 | After every schedule, the log is what the schedule puts in, and a call under way holds the value that its node was built with |
| QueueProtocol.RunSafe | ConsoleApplication1/lock_free_queue.hpp:29-65 | The same safety, and the invariant, from any state that satisfies the invariant, for any schedule |
| QueueProtocol.StepSafe | ConsoleApplication1/lock_free_queue.hpp:29-65 | No single action faults in a state that satisfies the invariant, and every enabled action keeps the invariant |
| QueueProtocol.BuildKeeps | ConsoleApplication1/lock_free_queue.hpp:31-31 | Allocating a node at any address not in use, even one used and freed before, keeps the invariant |
| QueueProtocol.ExchangeKeeps | ConsoleApplication1/lock_free_queue.hpp:32-32 | The exchange on `head_` keeps the invariant: the node joins the chain, unlinked, and its value the order of the exchanges |
| QueueProtocol.LinkKeeps | ConsoleApplication1/lock_free_queue.hpp:33-33 | The node into which a producer stores its link is still allocated, however long the producer was delayed, and the store keeps the invariant |
| QueueProtocol.LoadNextKeeps | ConsoleApplication1/lock_free_queue.hpp:51-56 | The consumer reads `next_` of a live node and keeps the invariant whether or not it goes on |
| QueueProtocol.LeaveKeeps | ConsoleApplication1/lock_free_queue.hpp:67-72 | An `empty` that has found a value leaves without taking it, and keeps the invariant |
| QueueProtocol.MoveKeeps | ConsoleApplication1/lock_free_queue.hpp:58-58 | The payload the consumer moves from is live and still holds its value |
| QueueProtocol.DeleteValueKeeps | ConsoleApplication1/lock_free_queue.hpp:59-59 | The payload deleted is live, so it is deleted once |
| QueueProtocol.ClearPointerKeeps | ConsoleApplication1/lock_free_queue.hpp:60-60 | The node whose payload pointer is cleared is live and owns nothing any more |
| QueueProtocol.StoreTailKeeps | ConsoleApplication1/lock_free_queue.hpp:61-61 | Publishing the new tail keeps the invariant while the old tail is not yet deleted |
| QueueProtocol.DeleteNodeKeeps | ConsoleApplication1/lock_free_queue.hpp:62-62 | The node deleted is live and owns no payload, and what remains still satisfies the invariant |
| QueueProtocol.NoLinkPendingIntoDeletedNode | ConsoleApplication1/lock_free_queue.hpp:32-62 | No producer's pending `prevhead` is ever the node about to be deleted |
| QueueProtocol.DequeueAnswer | ConsoleApplication1/lock_free_queue.hpp:51-56 | `dequeue` answers false, and `empty` true, iff every exchanged value was handed over, or the oldest waiting enqueue has not stored its link |
| QueueProtocol.DequeueTakesOldest | ConsoleApplication1/lock_free_queue.hpp:58-58 | Otherwise it takes exactly the oldest value in exchange order not yet handed over |
| QueueProtocol.ConsumerSafe | ConsoleApplication1/lock_free_queue.hpp:49-65 | No step of the consumer, wherever it stands in `dequeue`, faults or breaks the invariant |
| QueueProtocol.DequeueUndisturbed | ConsoleApplication1/lock_free_queue.hpp:49-65 | A `dequeue` without interference: its answer, its value, and that a refused one changes nothing |
| QueueProtocol.EmptyUndisturbed | ConsoleApplication1/lock_free_queue.hpp:67-72 | An `empty` without interference: true iff no value can be taken, and nothing changes |
| QueueProtocol.NotEmptyForGood | ConsoleApplication1/lock_free_queue.hpp:29-72 | Once a value can be taken, no schedule of the producers' actions takes that back, so `dequeue` succeeds after an `empty` that answered false |
| QueueProtocol.Destroy | ConsoleApplication1/lock_free_queue.hpp:14-21 | With no call under way the destructor hands out every remaining value in order; the node it deletes last is live, owns no payload and is the only one left, and then nothing is allocated |
| LockFreeQueue.Queue.constructor | ConsoleApplication1/lock_free_queue.hpp:9-13 | A new queue is one spent node, which both ends point to, and has no contents |
| LockFreeQueue.Queue.Enqueue | ConsoleApplication1/lock_free_queue.hpp:29-40 | On heap nodes: the contents gain the value at the end, and only the old `head_` node and the queue are written |
| LockFreeQueue.Queue.Dequeue | ConsoleApplication1/lock_free_queue.hpp:49-65 | On heap nodes: false and nothing changed when empty; else the first value, the contents without it, and the old tail node deleted, which is no longer in the queue |
| LockFreeQueue.Queue.Empty | ConsoleApplication1/lock_free_queue.hpp:67-72 | True iff the contents are empty |
| LockFreeQueue.Queue.Drain | ConsoleApplication1/lock_free_queue.hpp:14-21 | The destructor takes out all contents in order and deletes every node of the queue, each once and in order |
| MultipartMachine.Switch | ConsoleApplication1/multipart_parser.cpp:19-214 | One pass of the 19-state switch, in every state, never takes the index out of the boundary, its CR and its LF; while a delimiter is matched it stays in the boundary and its end |
| MultipartMachine.AtMostOneReexecute | ConsoleApplication1/multipart_parser.cpp:136-180 | A byte that takes `goto reexecute` never takes it a second time |
| MultipartMachine.FeedConcat | ConsoleApplication1/multipart_parser.cpp:9-220 | Feeding a chunk and then, if it was accepted, another is feeding their concatenation: same state, same notes, same total offset |
| MultipartMachine.SwitchFollows | ConsoleApplication1/multipart_parser.cpp:19-214 | What one pass tells is allowed by the callback grammar at the place the state stands for, and leads to the place of the new state |
| MultipartMachine.FeedFollows | ConsoleApplication1/multipart_parser.cpp:9-220 | From any state, over any bytes and up to the first error, the notes follow the callback grammar and end at the place of the final state |
| MultipartGrammar.ClosedIsInGrammar | ConsoleApplication1/multipartparser.cpp:144-313 | A trace that the place automaton follows to its end is a word of `body_begin (part_begin (field\|value)* headers_complete data* part_end)+ body_end`, the grammar written out as an expression |
| MultipartGrammar.FeedTellsGrammar | ConsoleApplication1/multipartparser.cpp:107-327 | Whatever bytes a new parser is fed, what it tells up to the first error can be continued to a word of that grammar |
| MultipartLaws.StrippedIsExact | ConsoleApplication1/multipart_parser.cpp:154-180 | Removing every `CR LF - -` leaves a body as it is iff it contains none |
| MultipartLaws.BodyLaw | ConsoleApplication1/multipart_parser.cpp:121-180 | Exact body law: from any point inside a body, raw bytes without the delimiter followed by the delimiter tell those bytes with every `CR LF - -` removed, for every ASCII boundary, also when cut in the middle of a partial match |
| MultipartLanguage.AcceptedIsWhole | ConsoleApplication1/multipart_parser.cpp:19-214 | Whatever is accepted to the end of a body is of the form: preamble without two hyphens in a row, boundary line, parts of header lines, an empty line, a body and a delimiter, closing hyphens, epilogue; written out by literal codes, for every boundary |
| MultipartLanguage.AcceptedIff | ConsoleApplication1/multipart_parser.cpp:19-214 | With an ASCII boundary, bytes are accepted iff some more lead to the end of a body, and the whole then has that form |
| MultipartLanguage.PreambleIsSkipped | ConsoleApplication1/multipart_parser.cpp:21-32 | Bytes without two hyphens in a row, the last one none, change nothing of what the rest yields but the count |
| MultipartLanguage.LineGoes | ConsoleApplication1/multipart_parser.cpp:56-110 | A line of a token, or none, a colon, any spaces and tabs, and a value is accepted, and tells the token and the value |
| MultipartLanguage.TokensAreStandard | ConsoleApplication1/multipartparser.cpp:57-90 | The header name table has the ASCII characters that are no control character or separator of section 2.2 of RFC 2616, written out |
| MultipartParts.FoldField | ConsoleApplication1/multipart_parser.h:116-122 | A whole header-name slice has the effect of its bytes one by one, and completes the header before it only if that one has a value |
| MultipartParts.FoldStoresNoEmptyValue | ConsoleApplication1/multipart_parser.h:116-137 | Over any trace, no part ever stores a header with an empty value |
| MultipartParts.ChunksDoNotMatter | ConsoleApplication1/multipart_parser.cpp:9-220 | For every way of cutting the input into chunks, the parser object ends with the same state, index, header buffers, parts and flags after the same total number of bytes as in one call; an error stops both at the same byte |
| MultipartParser.Parser.constructor | ConsoleApplication1/multipart_parser.cpp:3-7 | A new parser is in the preamble with nothing gathered |
| MultipartParser.Parser.OnBodyBegin | ConsoleApplication1/multipart_parser.h:104-108 | The flag is set and nothing else changes |
| MultipartParser.Parser.OnPartBegin | ConsoleApplication1/multipart_parser.h:110-114 | An empty part is appended and nothing else changes |
| MultipartParser.Parser.OnHeaderDone | ConsoleApplication1/multipart_parser.h:124-129 | The pending header goes to the last part, and both buffers are emptied |
| MultipartParser.Parser.OnHeaderField | ConsoleApplication1/multipart_parser.h:116-122 | A name slice has exactly the folded effect of its bytes |
| MultipartParser.Parser.OnHeaderValue | ConsoleApplication1/multipart_parser.h:131-135 | A value slice has exactly the folded effect of its bytes |
| MultipartParser.Parser.OnHeadersComplete | ConsoleApplication1/multipart_parser.h:137-142 | A pending header with a value is stored |
| MultipartParser.Parser.OnData | ConsoleApplication1/multipart_parser.h:144-148 | A data slice has exactly the folded effect of its bytes |
| MultipartParser.Parser.OnBodyEnd | ConsoleApplication1/multipart_parser.h:155-159 | The flag is set and nothing else changes |
| MultipartParser.Parser.Opening | ConsoleApplication1/multipart_parser.cpp:21-54 | Preamble and first boundary line: state, index, flags and parts are the machine's, with its error cases |
| MultipartParser.Parser.LineEnd | ConsoleApplication1/multipart_parser.cpp:106-119 | The line end after a value and the one after the headers, each with its error case |
| MultipartParser.Parser.HeaderName | ConsoleApplication1/multipart_parser.cpp:56-82 | The scan over a header name: the slice, the fall-through, the colon, the end of the chunk and the error position agree with the byte machine |
| MultipartParser.Parser.HeaderText | ConsoleApplication1/multipart_parser.cpp:84-104 | The scan over a header value, with its fall-through and skipped blanks, agrees with the byte machine |
| MultipartParser.Parser.BodyData | ConsoleApplication1/multipart_parser.cpp:121-134 | The scan over body bytes agrees with the byte machine |
| MultipartParser.Parser.Withheld | ConsoleApplication1/multipart_parser.cpp:136-161 | Partial delimiters are released to the body or held on, as the machine says |
| MultipartParser.Parser.Delimiting | ConsoleApplication1/multipart_parser.cpp:163-180 | A boundary matched so far is extended, completed, or released without the four bytes before it |
| MultipartParser.Parser.Delimited | ConsoleApplication1/multipart_parser.cpp:182-209 | After a whole delimiter: the next part, the end of the body, or an error |
| MultipartParser.Parser.Pass | ConsoleApplication1/multipart_parser.cpp:19-214 | One pass through the switch consumes exactly the bytes the machine reads to the same state and notes, or stops at the byte the machine refuses; a pass that runs the switch again leaves a state that cannot |
| MultipartParser.Parser.OneByte | ConsoleApplication1/multipart_parser.cpp:21-209 | The cases that look at one byte do exactly what the switch says, with its error cases |
| MultipartParser.Parser.ParserData | ConsoleApplication1/multipart_parser.cpp:9-220 | For every chunk, the whole new state of the object and the returned count are those of the byte machine and its folded notes; the count is the chunk's size iff no byte was refused, and then every smaller count is the offset of the refused byte |
| MultipartRoundTrip.HighByteIsRefused | ConsoleApplication1/multipart_parser.cpp:50-54 | A boundary byte from 128 on makes the parser refuse the boundary line, whatever follows |
| MultipartRoundTrip.PrintGoes | ConsoleApplication1/multipart_parser.cpp:34-213 | A printed list of parts, with any epilogue, is accepted to its end iff the boundary is ASCII |
| MultipartRoundTrip.HeadersFold | ConsoleApplication1/multipart_parser.h:116-142 | Headers reach the part's map in order, each under the names of the headers without a value before it joined with its own, and a name left without a value stays pending |
| MultipartRoundTrip.PrintParses | ConsoleApplication1/multipart_parser.cpp:34-213 | Whatever the headers, the parts of an accepted print arrive in order, with their bodies stripped, their headers as merged with the names without a value before them, and both flags set; with a value in every header, the headers are those printed |
| MultipartRoundTrip.PreambleParses | ConsoleApplication1/multipart_parser.cpp:21-32 | A preamble changes nothing of what is gathered |
| MultipartRoundTrip.MessageIsSpelled | ConsoleApplication1/multipart_parser.cpp:34-213 | The text of a printed part by literal codes |
| MultipartRoundTrip.RoundTrip | ConsoleApplication1/multipart_parser.cpp:34-213 | Round trip: a printed non-empty list of parts comes back entirely, whatever epilogue follows, iff the boundary is ASCII, every header has a value, and no body contains `CR LF - -` |
| CallbackParser.Parser.constructor | ConsoleApplication1/multipartparser.cpp:92-100 | A new parser is in the preamble and has made no call; its boundary is the first 70 bytes of the text, or all of it |
| CallbackParser.Parser.Opening | ConsoleApplication1/multipartparser.cpp:122-159 | Preamble and first boundary line, stopped by either of its two calls or by neither |
| CallbackParser.Parser.HeaderName | ConsoleApplication1/multipartparser.cpp:161-189 | The scan over a header name, its one call, and where that stops it |
| CallbackParser.Parser.HeaderText | ConsoleApplication1/multipartparser.cpp:191-211 | The scan over a header value, its one call, and where that stops it |
| CallbackParser.Parser.LineEnd | ConsoleApplication1/multipartparser.cpp:213-226 | Line ends after a value and after the headers, and the call the latter makes |
| CallbackParser.Parser.BodyData | ConsoleApplication1/multipartparser.cpp:228-241 | The scan over body bytes, its one call, and where that stops it |
| CallbackParser.Parser.Withheld | ConsoleApplication1/multipartparser.cpp:243-268 | The partial delimiter released by one call, or held on |
| CallbackParser.Parser.Delimiting | ConsoleApplication1/multipartparser.cpp:270-287 | The boundary matched so far: extended, completed, or released by one call |
| CallbackParser.Parser.Delimited | ConsoleApplication1/multipartparser.cpp:289-316 | After a whole delimiter: the two calls of a part's end, either of which may stop it |
| CallbackParser.Parser.Execute | ConsoleApplication1/multipartparser.cpp:107-327 | With callbacks that may return non-zero at any call, as any function of the calls so far: the calls are those of a run that is never stopped, up to the first one refused. Never stopped, state and result are the machine's; stopped, the state is the one that call leaves, and at the offset n returned it has told all that the bytes before n tell and part of what byte n tells. An aborted run returns the chunk's size iff, of the calls that a run never stopped would make, the last is the first refused, is a non-empty slice that ends the chunk, and leaves the state that the machine fed the chunk is in. An empty slice is told only at the start of a boundary |
| CallbackCalls.CallsTell | ConsoleApplication1/multipartparser.cpp:107-327 | The calls of a run that is never stopped, with their slices taken byte by byte, are exactly what the machine tells of the chunk |
| CallbackCalls.SliceCalls | ConsoleApplication1/multipartparser.cpp:161-241 | In a state that looks ahead, those calls are one slice of all the bytes in a row that belong to it, if there are any, and then the calls for what follows |
| CallbackCalls.ResumedAsBefore | ConsoleApplication1/multipartparser.cpp:122-316 | A parser stopped at a call that is no slice, and fed the same byte again, goes on as if it had not been stopped: same state, same notes, same verdict |
| CallbackParser.StopsUnseenIff | ConsoleApplication1/multipartparser.cpp:107-327 | The condition on the run itself, and the one on the chunk, the start and the callbacks alone, say the same |
| CallbackParser.Parser.Pass | ConsoleApplication1/multipartparser.cpp:119-321 | One pass through the switch, with the bytes its case consumes, its calls, which are the next of the chunk's, and where a call stops it |
| CallbackParser.Parser.OneByte | ConsoleApplication1/multipartparser.cpp:122-316 | The cases that look at one byte do what the switch says, or are stopped within what it tells; a slice is told there only for a byte that will be looked at again |
| CallbackParser.StopMeans | ConsoleApplication1/multipartparser.cpp:119-321 | A stop in one pass is, for the whole chunk, unseen iff it happened after the chunk's last byte |
| CallbackParser.UnseenHappens | ConsoleApplication1/multipartparser.cpp:228-241 | Any non-empty body bytes without a CR, told as the slice that ends the chunk, make a stop that the returned size does not show |
| CallbackParser.AbortGoesUnseen | ConsoleApplication1/multipartparser.cpp:228-241 | The least such chunk on the parser itself: fed one body byte with callbacks that always stop, it returns 1, makes the one call and changes nothing else |
| CallbackParser.CallsFollowGrammar | ConsoleApplication1/multipartparser.cpp:107-327 | Over any sequence of chunks and callbacks, up to the first abort, the calls made are a prefix of the grammar |
| CallbackParser.TellsOn | ConsoleApplication1/multipartparser.cpp:107-327 | Calls made in a row tell their notes in a row and stay in step with the grammar |
| MultipartRuns.StoppedToldLess | ConsoleApplication1/multipartparser.cpp:107-327 | What a stopped parser told is a prefix of what the chunk would have told, and it stopped no later than an error would have |
| MultipartRuns.AbortIsSeen | ConsoleApplication1/multipartparser.cpp:161-241 | A stop before the chunk's end is never mistaken: if the machine fed the chunk ends in the middle of a slice, it has told more than was told at the stop |
| Wildcard.WildCmp | ConsoleApplication1/doctest.hpp:3533-3567 | Greedy matching with one saved restart point returns non-zero iff the string matches the pattern's meaning, in both case modes; it terminates, never follows an unset pointer and reads only inside the two strings |
| Wildcard.WithoutWildcards | ConsoleApplication1/doctest.hpp:3533-3567 | The meaning by literal codes: a pattern without `*` and `?` takes its own text, and in the other mode any text of its length that differs only in the case of letters `A` to `Z` |
| Wildcard.WithoutStar | ConsoleApplication1/doctest.hpp:3538-3556 | With `?` as well, which takes any one character |
| Wildcard.FirstStar | ConsoleApplication1/doctest.hpp:3547-3553 | What is before the first `*` takes as many characters as it has, and what is after it some end of the others |
| Wildcard.ForgetEarlierStar | ConsoleApplication1/doctest.hpp:3547-3553 | At a second star, dropping the restart point of the first one loses no match |
| Wildcard.OnlyStarsMatchEmpty | ConsoleApplication1/doctest.hpp:3563-3566 | The rest of the pattern matches nothing left iff it is all stars |
| Wildcard.MatchesAny | ConsoleApplication1/doctest.hpp:3579-3587 | True iff some filter matches, or there is none and that counts |
| Subcases.RunEntersNextLeaf | ConsoleApplication1/doctest.hpp:3591-3630 | With k leaves done, one run of a body whose signatures repeat only where they may enters exactly the path to leaf k, completes exactly the subcases that this finishes, and asks for another run iff leaves remain |
| Subcases.EveryLeafRunsIff | ConsoleApplication1/doctest.hpp:5918-5956 | For any tree and filters: the loop's runs are the leaves that the filters leave, each once and in program order, iff siblings' subtrees share no signature and a subcase's own one recurs below it only on the chain of last children; then all of them end as passed |
| Subcases.RunMarks | ConsoleApplication1/doctest.hpp:3591-3630 | On any tree, a run that finds something not yet passed marks something as passed, so the loop ends |
| Subcases.OnLastChainFinishesLast | ConsoleApplication1/doctest.hpp:3619-3630 | A signature stands only on the chain of last children iff nothing that bears it is finished before the last leaf |
| Subcases.LoopFindsNothingStale | ConsoleApplication1/doctest.hpp:5918-5956 | If the loop runs the leaves in order, no leaf's path bears a signature of something finished before it |
| Subcases.FilteringIsPruning | ConsoleApplication1/doctest.hpp:3600-3605 | Running with name filters and a level limit is running, without any, the tree from which the refused subcases are cut |
| Subcases.NextRun | ConsoleApplication1/doctest.hpp:5924-5956 | The same for one turn of the re-enter loop, with filters, from the state the loop resets |
| Subcases.TwinNeverRuns | ConsoleApplication1/doctest.hpp:3595-3602 | Of any two siblings with one signature, whatever their bodies, the subcases around them, the filters and the scheduler's state, the second makes no difference to any run, so nothing in it ever starts |
| Subcases.ContextState.Open | ConsoleApplication1/doctest.hpp:3591-3617 | The constructor's decision, in the order passed, filters, level taken, and the state it leaves |
| Subcases.ContextState.Close | ConsoleApplication1/doctest.hpp:3619-3630 | The destructor's level step, and the mark it sets only when nothing was skipped |
| Subcases.ContextState.Body | ConsoleApplication1/doctest.hpp:5938-5938 | A test body's run is the functional run of its tree |
| Subcases.ContextState.RunTestCase | ConsoleApplication1/doctest.hpp:5918-5956 | On every tree the re-enter loop ends, with the functional loop's runs and marks; run i starts exactly the path to leaf i in program order, for max(1, leaves) runs, iff signatures repeat only where they may, and then every subcase the filters leave is marked as passed. On every tree, what a run starts on a level the filters apply to has a name that no exclude pattern matches, and that some include pattern matches if there are any; and when the tree's signatures repeat only where they may, every leaf whose whole path passes that test is some run |
| Subcases.RunsAreSelected | ConsoleApplication1/doctest.hpp:3599-3605 | The first of these two of the functional loop, in terms of the patterns' meaning |
| Subcases.SelectedLeavesRun | ConsoleApplication1/doctest.hpp:3599-3605 | The second one |
| Subcases.PruneIsWellSigned | ConsoleApplication1/doctest.hpp:3599-3605 | Cutting what the filters refuse leaves signatures where they may be |
| Utf8.AcceptsOnlyEncodings | ConsoleApplication1/ipdb.hpp:69-110 | What one turn of the loop accepts is the encoding of the scalar value it gathers, by the table of section 3 of RFC 3629 |
| Utf8.AcceptsEveryEncoding | ConsoleApplication1/ipdb.hpp:69-110 | Every encoding of a non-zero scalar value is accepted, whatever follows, and gathers that value back |
| Utf8.DecodingIsUnique | ConsoleApplication1/ipdb.hpp:58-113 | No byte string is the encoding of two different texts |
| Utf8.StartsWellIff | ConsoleApplication1/ipdb.hpp:69-110 | What one turn of the loop accepts is a character of the grammar of section 4 of RFC 3629, NUL apart, written out by the ranges of its bytes |
| Utf8.IsValidUtf8 | ConsoleApplication1/ipdb.hpp:58-113 | True iff the string is present, non-empty and a concatenation of encodings of non-zero scalar values (sections 3 and 4 of RFC 3629) |
| Utf8.NextCharacter | ConsoleApplication1/ipdb.hpp:66-110 | One turn of the loop: it accepts iff the bytes at hand start with a character, and goes on behind it |
| IpTrie.Table.WalkInTwo | ConsoleApplication1/ipdb.hpp:271-292 | In any table, walking a concatenation of bits is walking the first part and then, from there, the second, with leaves absorbing the rest and reads outside the data failing both |
| IpTrie.Table.WalkFromCache | ConsoleApplication1/ipdb.hpp:149-158 | A walk from the root goes on from where the constructor's stops, with the bits that it has not used; below the node count it has used all |
| IpTrie.CachedSearchIff | ConsoleApplication1/ipdb.hpp:149-292 | In any table, the cached node serves for the full walk of the mapped address unless the constructor's walk meets the node count before its last bit, and then iff the data after the table make up for the bits left out |
| IpTrie.GuardServes | ConsoleApplication1/ipdb.hpp:149-292 | When the constructor's walk does not stop at the node count before its last bit, every IPv4 address gets the same answer from the cached node as from the root |
| IpTrie.ServesIff | ConsoleApplication1/ipdb.hpp:149-292 | In a table whose data hold all its nodes, the nodes alone decide: all tables of these nodes, whatever data follow them, give every address the same answer both ways iff that walk does not stop short |
| IpTrie.NeverStopsShort | ConsoleApplication1/ipdb.hpp:149-158 | It never does in a table with nodes none of which leads to the node count |
| IpTrie.CacheFails | ConsoleApplication1/ipdb.hpp:149-292 | A table of one node on which every IPv4 address with its first bit set gets another answer from the cached node than from the root |
| IpTrie.MappedBits | ConsoleApplication1/ipdb.hpp:149-157 | The 96 bits the constructor walks and then the four bytes are the IPv4-mapped address of section 2.5.5.2 of RFC 4291 |
| IpTrie.BitsAreTheNumber | ConsoleApplication1/ipdb.hpp:283-284 | The bits a search goes by are those of the address's bytes taken as one number in network order, highest first |
| IpTrie.ChildIsItsNumber | ConsoleApplication1/ipdb.hpp:245-248 | A node is eight bytes: where 0 leads and then where 1 leads, each a signed 32-bit number in network order; past the data there is no answer |
| IpTrie.Reader.constructor | ConsoleApplication1/ipdb.hpp:149-158 | For any table, the cached entry point is where the mapped prefix leads from the root, by a walk that stops at the node count; or no node, if it reads outside the data |
| IpTrie.Reader.Search | ConsoleApplication1/ipdb.hpp:271-292 | A 32-bit search walks from the cached node; it returns what walking the 128-bit mapped address from the root returns whenever the constructor's walk did not stop short, and in general iff the cached node serves; a 128-bit search walks from the root |
| IpTrie.LookupIsConstantOnBlocks | ConsoleApplication1/ipdb.hpp:271-292 | Every address that begins with a block's prefix finds that block's leaf |
| IpTrie.FoundLeafHasABlock | ConsoleApplication1/ipdb.hpp:271-292 | Every address that finds a leaf begins with the prefix of a block for that leaf |
| IpTrie.BlocksAreDisjoint | ConsoleApplication1/ipdb.hpp:271-292 | No address lies in two blocks |
| IpTrie.BlocksFillTheSpace | ConsoleApplication1/ipdb.hpp:271-292 | The sizes 2^(n - depth) of the blocks add up to 2^n iff every n-bit address finds a leaf, and never to more |
| IpTrie.BlockIsInterval | ConsoleApplication1/ipdb.hpp:271-292 | A block is the aligned interval of addresses from its start, a multiple of its size |
| IpTrie.BlocksTileTheSpace | ConsoleApplication1/ipdb.hpp:271-292 | When every search succeeds, each block starts where the ones before it end |
| IpTrie.SearchIsLookup | ConsoleApplication1/ipdb.hpp:245-292 | In any table, whether and where a search finds a leaf is looking up in the tree that the table unfolds to |
| IpTrie.TablePartition | ConsoleApplication1/ipdb.hpp:245-292 | The partition stated of any table: sizes add up iff every walk ends at a leaf, the walk is constant on blocks, and every leaf found has a block |
| Json.UnitIsUtf8 | ConsoleApplication1/serialize.hpp:502-520 | The bytes written for a four-digit escape of a non-zero, non-surrogate code are its UTF-8 encoding |
| Json.UnitIsValidIffNoSurrogate | ConsoleApplication1/serialize.hpp:502-520 | The validator accepts those bytes iff the code is no surrogate, and then they decode to that code alone |
| Json.EscapeReads | ConsoleApplication1/string_stream.hpp:50-68 | Reading an escape that the writer made of two bytes gives the single code they form |
| Json.ByteIsRead | ConsoleApplication1/serialize.hpp:541-614 | The reader by literal codes, on one byte or one escape by letter: which stand for what, and that all others are refused, as are NUL, the line feed and the escaped backslash |
| Json.HexValuesAre | ConsoleApplication1/serialize.hpp:462-474 | The digit table by literal codes: the sixteen digits, the small ones but `f`, 17 for tab, line feed, form feed, carriage return and space, and 16 for all else |
| Json.PackedPairIsLost | ConsoleApplication1/string_stream.hpp:52-60 | A control byte packed together with its successor never reads back as itself |
| Json.RoundTrip | ConsoleApplication1/string_stream.hpp:35-78 | Reading what was written, whatever follows it, gives the string back and uses exactly the literal iff the string has no NUL, no backslash and no control byte without a letter escape except as its last byte |
| Json.EscapedHasNoNul | ConsoleApplication1/string_stream.hpp:35-78 | The writer emits no NUL for any input |
| Json.ByteIsSpelled | ConsoleApplication1/string_stream.hpp:35-78 | The writer by literal codes, byte by byte: 8, 9, 10, 12 and 13 go out as their letters, the quote and the backslash after a backslash, every other byte from 32 on as itself, and any other control byte as `\u` with its hexadecimal digits and those of its successor, or `00` and its own at the end |
| Json.EscapedHasNoControls | ConsoleApplication1/string_stream.hpp:35-78 | No byte of what is written is below 32 |
| JsonGrammar.WrittenIsStandardIff | ConsoleApplication1/string_stream.hpp:35-78 | What is written for UTF-8 text, with its quote, is a literal of section 7 of RFC 8259 iff no control byte takes the first byte of a longer character into its escape |
| JsonGrammar.WrittenMeansItselfIff | ConsoleApplication1/string_stream.hpp:35-78 | What is written for UTF-8 text stands, as a literal of the standard, for the text itself, backslashes included, iff no control byte takes any other byte into its escape |
| JsonGrammar.CutHappens | ConsoleApplication1/string_stream.hpp:52-60 | The bytes 1, C3, A9 are UTF-8, and their literal is not |
| Json.WrittenThenRead | ConsoleApplication1/serialize.hpp:533-616 | The same round trip through a C string, whose reader stops at the first NUL |
| JsonGrammar.DigitsAreReadIff | ConsoleApplication1/serialize.hpp:462-500 | Four bytes are taken for digits iff all are hexadecimal digits, in either case, and none is `f`; then with their own code |
| JsonGrammar.PieceIsReadIff | ConsoleApplication1/serialize.hpp:549-614 | A character, letter escape or `\u` escape of the standard is taken, with the rest after it, iff it is no escaped backslash and has no digit `f`; the reader stores the character's UTF-8, the letter's meaning, or the bytes of the four digits' code |
| JsonGrammar.LiteralIsReadIff | ConsoleApplication1/serialize.hpp:533-616 | A literal of section 7 of RFC 8259, in UTF-8, is read as the text it stands for, surrogate pairs being one character and U+0000 being one, to its end and whatever follows, iff it has no escaped backslash, no digit `f` and no surrogate escape |
| JsonGrammar.LiteralIsTakenIff | ConsoleApplication1/serialize.hpp:533-616 | Such a literal is taken to its end, as what is stored for its pieces, iff it has no escaped backslash and no digit `f`; otherwise it is refused |
| JsonGrammar.StoredIsMeantIff | ConsoleApplication1/serialize.hpp:502-520 | What is stored for the pieces is the UTF-8 of the text they stand for iff none is a surrogate escape; half a pair alone stands for no text |
| JsonGrammar.ReadIsStandardIff | ConsoleApplication1/serialize.hpp:533-616 | What the reader takes, whatever it is, is a literal of the standard iff it is UTF-8 and has no raw byte below 32 |
| JsonGrammar.StandardLiteralsRefused | ConsoleApplication1/serialize.hpp:471-614 | The spelling `\u004f` of a letter and the escaped backslash are in the grammar, and are refused |
| JsonGrammar.PairIsNotCombined | ConsoleApplication1/serialize.hpp:483-531 | The pair of escapes for U+1F600 is read as six bytes instead of that character's four |
| JsonGrammar.RawBytesAreRead | ConsoleApplication1/serialize.hpp:533-616 | Raw control bytes, and a byte that is not UTF-8, are read as they stand, and neither literal is of the standard |
| StringStream.Stream.GrowUp | ConsoleApplication1/string_stream.hpp:125-138 | The new buffer is the next multiple of 1024, less than 1024 bytes larger than asked for, and contents and positions survive the move |
| StringStream.Stream.constructor | ConsoleApplication1/string_stream.hpp:7-13 | A new stream is empty, in a buffer of its own, of 1024 bytes |
| StringStream.Stream.Clear | ConsoleApplication1/string_stream.hpp:112-115 | The contents are dropped and the buffer is kept |
| StringStream.Stream.Put | ConsoleApplication1/string_stream.hpp:91-99 | One byte is appended, across a reallocation or not |
| StringStream.Stream.Write | ConsoleApplication1/string_stream.hpp:101-110 | All bytes are appended, across a reallocation or not |
| StringStream.Stream.WriteStr | ConsoleApplication1/string_stream.hpp:35-78 | The loop appends exactly the escaped literal in its quotes, across any number of reallocations |
| JsonReader.Reader.Take | ConsoleApplication1/serialize.hpp:428-445 | One byte is passed unless the text has ended; the end is the first NUL or the length |
| JsonReader.Reader.Read | ConsoleApplication1/serialize.hpp:422-426 | The next byte, or NUL at the end |
| JsonReader.Reader.Fill | ConsoleApplication1/serialize.hpp:456-460 | The byte is stored `count` behind the read position, and not at all for count 0 |
| JsonReader.Reader.CharToHex | ConsoleApplication1/serialize.hpp:471-481 | Below 128, the digit's value by the table; from 128 on the table is left, and the digit is any `char`. The error flag is set iff the digit found is above 15 |
| JsonReader.Reader.ReadUtf | ConsoleApplication1/serialize.hpp:483-500 | Four bytes are passed, or as many as there are. The table is left iff one of them is from 128 on; otherwise they are read as their code, NUL standing for those that are missing, and the error flag is set iff one of them is no digit to the table |
| JsonReader.Reader.WriteUnit | ConsoleApplication1/serialize.hpp:502-520 | The code's one to three bytes replace the bytes at the write position and no others; the buffer is left iff the write position lies in front of it |
| JsonReader.Reader.EscapeUtf8 | ConsoleApplication1/serialize.hpp:502-531 | However many of its bytes are there, the six bytes of an escape become the one to three bytes of its code six bytes behind its end, counted from the lag before; the rest of the buffer is unchanged, and the lag grows by what was saved; the table or the buffer is left iff a digit is from 128 on or that place lies in front of the buffer |
| JsonReader.Reader.StoreUnit | ConsoleApplication1/serialize.hpp:589-595 | A `\u` escape, whatever is in it, is decoded in place; what is decoded so far and still ahead add up to the literal's meaning, and the flags still tell whether the text strays or is malformed |
| JsonReader.Reader.StoreChar | ConsoleApplication1/serialize.hpp:612-614 | A plain byte or one-letter escape is stored in place, or in front of the buffer, with the same effect |
| JsonReader.Reader.StoreNext | ConsoleApplication1/serialize.hpp:549-614 | One turn of the loop: an escape that is none ends it with an error, and every other byte or escape keeps that state and shortens what is ahead |
| JsonReader.Reader.CloseToken | ConsoleApplication1/serialize.hpp:605-610 | At the closing quote the flags say whether the text strays and whether it is a literal, and then the token's slice is the literal's meaning |
| JsonReader.Reader.ReadLiteral | ConsoleApplication1/serialize.hpp:537-615 | The loop leaves its table or its buffer iff the text strays; if not, it ends without error iff the bytes ahead are a literal, with the token in place; and with or without error the bytes from the final offset on are unchanged, and those in front of the literal but for what a truncated escape stores there |
| JsonReader.Reader.ParserQuoteString | ConsoleApplication1/serialize.hpp:533-616 | In-place unescaping: the table or the buffer is left on exactly the texts that stray; on any other it ends without error iff the bytes after the quote are a literal, and with or without error the bytes from the final offset on are unchanged, and those in front of the literal as well, except that an escape cut short by the end of the text has stored its bytes where `Cut` says, which may be there; without error the token is the literal's text in the same buffer, it ends before the read position, and no byte outside the literal has changed |
| JsonReader.ClosedNeverStrays | ConsoleApplication1/serialize.hpp:533-616 | No literal makes the reader leave its table or its buffer, wherever it stands |
| JsonReader.TruncatedEscapeStrays | ConsoleApplication1/serialize.hpp:483-531 | At the start of the buffer, a quote and an escape of k < 4 bytes leave the table or the buffer iff k < 3 or one of the bytes is from 128 on |
| JsonReader.TruncatedEscapeStores | ConsoleApplication1/serialize.hpp:456-531 | With the write position at w, an escape of k < 4 bytes at the end of the text is stored at w + k - 4: without digits, three bytes that are no part of the text |
| JsonReader.Emit | ConsoleApplication1/serialize.hpp:533-616 | Storing a decoded piece behind the read position leaves all that is ahead unread and untouched |
| BinProto.NumberRoundTrip | ConsoleApplication1/binproto.hpp:300-367 | Numbers of all four widths come back from network order, the 64-bit one from its two halves |
| BinProto.NumberPlaces | ConsoleApplication1/binproto.hpp:307-367 | The byte at place i of a number of any width is the number divided by 256 to the power of the places after it, modulo 256: network order |
| BinProto.ItemOnTheWire | ConsoleApplication1/binproto.hpp:713-727 | The bytes of a list's item begin where those of the items before it end |
| BinProto.FieldOnTheWire | ConsoleApplication1/binproto.hpp:788-790 | The same of a packet's fields |
| BinProto.RoundTrip | ConsoleApplication1/binproto.hpp:446-790 | For every nested schema and every value that fits it (fewer than 2^32 bytes in all), parsing its bytes with any suffix restores the value, whatever the receiver held, and uses exactly the value's bytes |
| BinProto.PrefixThrows | ConsoleApplication1/binproto.hpp:446-790 | Parsing any strict prefix of a value's bytes throws |
| BinProto.PrefixFree | ConsoleApplication1/binproto.hpp:446-790 | No value's bytes are a prefix of another value's of the same schema |
| BinProto.ParsedIsSerialized | ConsoleApplication1/binproto.hpp:300-786 | The converse: whatever is parsed fits the schema, and its serialization is exactly the bytes used |
| BinProto.OverreadIffWrap | ConsoleApplication1/binproto.hpp:459-464 | One string's bound check lets the copy run past the buffer iff the length has four bytes and its sum with 4 overflows 32 bits |
| BinProto.OverreadHappens | ConsoleApplication1/binproto.hpp:455-464 | A four-byte length of 2^32 - 4, with anything after it, is enough |
| BinProto.RefusedIffWrap | ConsoleApplication1/binproto.hpp:459-464 | A string is refused for being larger than any can be iff its length has eight bytes and its sum with 8 overflows 64 bits |
| BinProto.RefusalHappens | ConsoleApplication1/binproto.hpp:459-464 | An eight-byte length of 2^64 - 8, with anything after it, is enough, and the object keeps what it held |
| BinProto.MishapIff | ConsoleApplication1/binproto.hpp:300-786 | For every schema, receiver, size below 2^32 and each of the three: some buffer of that size makes the parse copy from beyond it, be refused by a container, or never end, iff the schema lets a parse get to a four-byte string length, an eight-byte length or size, or an eight-byte size of a list of items that take none, within that many bytes |
| BinProto.OnlyWhereItMay | ConsoleApplication1/binproto.hpp:300-786 | On every buffer, only such a schema comes to such an end |
| BinProto.BufferFor | ConsoleApplication1/binproto.hpp:300-786 | And every such schema does, on a buffer that is constructed |
| BinProto.UsesAtLeast | ConsoleApplication1/binproto.hpp:300-786 | A parse that succeeds uses at least the bytes of the schema's shortest value, and where that has none, every parse succeeds and uses none |
| BinProto.DefaultIsZeros | ConsoleApplication1/binproto.hpp:243-484 | A default-constructed object, which is what `resize` makes, is its schema's shortest value: zero bytes alone |
| BinProto.EndlessIff | ConsoleApplication1/binproto.hpp:728-744 | A list never ends iff its size is 2^32 or more, but no more than a container can hold, and its items' shortest value has no bytes, or an item's own list never ends |
| BinProto.SimpleLeft | ConsoleApplication1/binproto.hpp:300-586 | On an exception, a number or a string keeps what it held, and a list whose size is cut short or too large is empty |
| BinProto.ItemsLeft | ConsoleApplication1/binproto.hpp:728-744 | On an exception in a list, the items before the one that throws are restored, that one is left as its own parse leaves it, and the others are as `resize` made them |
| BinProto.FieldsLeft | ConsoleApplication1/binproto.hpp:784-786 | On an exception in a packet, the fields before the one that throws are restored, that one is left as its own parse leaves it, and the others keep what they held |
| BinProto.EndlessHappens | ConsoleApplication1/binproto.hpp:728-744 | For all items whose shortest value has no bytes, the eight bytes of a size of 2^32, with anything after them, are enough |
| BinProto.StaticLengthIsExact | ConsoleApplication1/binproto.hpp:799-804 | A non-zero static length is the number of bytes of every value of the schema |
| BinProto.StaticItemsAreExact | ConsoleApplication1/binproto.hpp:751-756 | For items of static length, the product equals the sum over the items |
| BinProto.GetBinaryLength | ConsoleApplication1/binproto.hpp:746-797 | Fast path or slow, the length computed is the number of bytes serialized, modulo 2^32 |
| BinProto.ListLength | ConsoleApplication1/binproto.hpp:751-768 | Both paths of a list's length agree with its serialized items |
| BinProto.PacketLength | ConsoleApplication1/binproto.hpp:792-797 | The sum over a packet's fields agrees with its serialized bytes |
| BinProtoBuffers.SerializeToBuffer | ConsoleApplication1/binproto.hpp:307-790 | Into a buffer with room, exactly the value's bytes are written, at their place, nothing else changes, and their number is returned |
| BinProtoBuffers.SerializeItems | ConsoleApplication1/binproto.hpp:721-726 | The same for a list's loop |
| BinProtoBuffers.SerializeFields | ConsoleApplication1/binproto.hpp:788-790 | The same for a packet's fields |
| BinProtoBuffers.ParseFromBuffer | ConsoleApplication1/binproto.hpp:300-786 | The methods do what the parsing function says of every buffer, also on exceptions, where it says what the object is left with |
| BinProtoBuffers.ParseItems | ConsoleApplication1/binproto.hpp:728-744 | The list's loop with its 32-bit index, the items that `resize` leaves untouched on an exception, and the lists it never ends |
| BinProtoBuffers.ParseFields | ConsoleApplication1/binproto.hpp:784-786 | A packet's fields are parsed in order from where the one before ended, and those after an exception keep what they held |
| Base64.IndexUndoesSymbol | ConsoleApplication1/b64_encrypt.cpp:10-67 | The two tables are inverse on the alphabet, which excludes `=` |
| Base64.SymbolsAreTheAlphabet | ConsoleApplication1/b64_encrypt.cpp:10-17 | The symbols are the alphabet of section 4 of RFC 4648, written out |
| Base64.IndexesAreTheAlphabet | ConsoleApplication1/b64_encrypt.cpp:51-57 | The index table has the alphabet's places, 62 for `-` and `.`, 63 for `,` and `_`, and 0 for every other byte |
| Base64.EncodedIsDigits | ConsoleApplication1/b64_encrypt.cpp:3-27 | For bytes below 128, symbol k is the alphabet's entry at the k-th six bits of the bytes, filled up with zeros to whole groups and taken as one number, and `=` where those are all filling |
| Base64.DecodedIsNumber | ConsoleApplication1/b64_encrypt.cpp:51-57 | The three bytes of a group of any four characters are, as one number, that of the four indexes to the base 64 |
| Base64.EncodedLength | ConsoleApplication1/b64_encrypt.cpp:5-5 | An encoding has length 4 * ceil(len / 3) (section 4 of RFC 4648) |
| Base64.GroupRoundTrip | ConsoleApplication1/b64_encrypt.cpp:10-17 | Three bytes are encoded and decode back iff all are below 128; otherwise the table index is out of range |
| Base64.PairRoundTrip | ConsoleApplication1/b64_encrypt.cpp:18-24 | A last pair decodes to itself, except that a second byte from 128 on turns the first one into 0xFF |
| Base64.RoundTrip | ConsoleApplication1/b64_encrypt.cpp:3-70 | Decoding the encoding returns the bytes iff the signed reads spoil no group: all bytes below 128 in whole groups and in a last single byte, and in a last pair a second byte below 128 or a first one of 0xFF |
| Base64.EncodeBytes | ConsoleApplication1/b64_encrypt.cpp:3-27 | The loops compute the encoding, for every input on which they stay inside the table, and leave the table exactly on the others |
| Base64.EncodeGroups | ConsoleApplication1/b64_encrypt.cpp:10-17 | The loop over whole groups encodes them in place and touches nothing behind them, or leaves the table |
| Base64.EncodeTailInto | ConsoleApplication1/b64_encrypt.cpp:18-24 | The last one or two bytes and their padding, in place, or an index outside the table |
| Base64.EncodeGroupInto | ConsoleApplication1/b64_encrypt.cpp:10-17 | Three bytes become four symbols in place, or an index leaves the table |
| Base64.DecodeGroups | ConsoleApplication1/b64_encrypt.cpp:51-57 | The decoding loop computes the whole groups |
| Base64.DecodeText | ConsoleApplication1/b64_encrypt.cpp:39-70 | On every text, padded or not, the result is the decoding of the text completed by what the decoder reads in place of missing symbols, or a read outside the string |
| Base64.UnpaddedDecodes | ConsoleApplication1/b64_encrypt.cpp:39-70 | For bytes below 128, the encoding without its padding decodes to the bytes, with a NUL after them iff the last one was alone in its group |

## Left out

- Weak memory: the queue's atomic operations interleave in one order; release and acquire are not told apart from sequential consistency.
- `empty` called by several threads while another one dequeues, and more than one consumer: the source forbids them.
- Copy and move constructors of the queued type that throw, and allocation failure anywhere.
- CallbackParser.Parser.constructor: a boundary of 70 bytes or more is copied without a terminator, and its length found in the cleared bytes after the array; the model takes it to end there.
- `get_multipart_data` and the form fields it extracts from `Content-Disposition`.
- Exceptions in a test body, the abort limit on failed assertions, subcases whose set depends on data, reporters, signals, and the rest of doctest.
- `tolower` outside the C locale.
- IpTrie.Reader.constructor: the file, its length checks and its JSON metadata; the table is given, with a node count below 2^28, where the source's `node * 8` would overflow.
- `resolve`, `find`, and the getters of the IP database; its fields are strings at offsets the model does not see.
- Unquoted strings, numbers, comments and the reflection-driven part of the JSON reader; its line and column counters; `read` and the overflow status of the string stream.
- JsonReader.Reader.constructor: the default length, which stands for a C string, is modelled as the length of the text before its terminator.
- JsonReader.Reader.ParserQuoteString: when it ends with an error, the token and the bytes of the literal are not stated, as the source gives them no meaning; nor anything of the error flag and the buffer once it has left its table or its buffer, since the bytes found there decide it.
- BinProtoBuffers.SerializeToBuffer: requires the room that the source's assertion asks for; the overloads that resize a `std::string` first only add that resize.
- BinProto.GetBinaryLength: requires lengths that fit their length fields, as the source's constructors assert.
- The exceptions' messages and nesting in the binary codec; the memory that its strings and lists need; and the lists that `resize` refuses below 2^63 items, because the items are larger than a byte. Builds with a 32-bit `size_t`.
- Base64.DecodeText: the size of the result string, which is its length in the model, is allocated ahead in the source.
- The network sessions, listeners, the registry wrapper, and all code that is commented out.
