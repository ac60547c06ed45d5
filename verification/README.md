# Quizzbot and its googletest: a Dafny model

Quizzbot is a small quiz and chat server. Clients talk to it in framed messages over TCP:
two sync bytes, two hexadecimal size digits, the content, two hexadecimal checksum digits.
The repository also carries googletest 1.7.0, whose algorithms its tests rest on. This
project models both and proves what they promise.

| file | content |
|---|---|
| `Common.dfy` | options, bytes, facts about sequences and remainders, hexadecimal text |
| `Framing.dfy`, `FrameStream.dfy` | the frame readers, the rescan loop and the packer as methods; theorems about whole byte streams |
| `CommandCodec.dfy` | `naive_command_protocol`, the concrete payload format, and `naive_protocol` over it |
| `EventQueues.dfy`, `ChatServer.dfy`, `ServerObjects.dfy` | the event queue; the server as a state machine with theorems over every run; the objects, updated in place, that refine it |
| `SimpleRegex.dfy`, `GlobFilter.dfy` | googletest's backtracking regex engine and its test filters |
| `RandomNumbers.dfy`, `Shuffling.dfy` | the random number generator and its low bits; Fisher-Yates and the orders it reaches |
| `TestRegistry.dfy`, `UnitTests.dfy` | registration order, filtering and sharding; the registry object |
| `LiteralPrinter.dfy`, `WideStrings.dfy`, `CDataWriter.dfy` | three printers, each with a reader that inverts it |
| `PrimeTables.dfy` | the two prime tables of the samples |

Where the program changes things step by step, the model has methods with loops and
objects with fields; each method is tied to a function of its inputs or of the old state,
and the theorems are about those functions. A NUL-terminated string is the sequence of its
characters, its terminator the end of the sequence. Bits are taken apart by division and
remainder. `hide` statements keep definitions a proof does not need away from the solver.

## Results worth knowing

- A connection parses at most once per read, so two frames that arrive in one read are not
  both handed on at once (`FrameStream.TwoInOneRead`). `FrameStream.CaughtUpIff` says exactly
  when no frame is ever late, `FrameStream.ChunkingAccounts` that late is the worst that can
  happen, and `FrameStream.DeliveredExactly` how many frames have been handed on after any
  reads: as many as some first reads brought and one for each read since. A late frame comes
  out with a later read, whatever that read brings, and never without one.
- A sync pattern followed by a size holds everything back until the announced bytes have come
  (`FrameStream.HeaderWaitsIff`). Sizes below 256 hold back at most 260 bytes; a size field
  such as `-1`, which the stream extraction wraps around, holds back nearly 2^64 bytes
  (`CommandCodec.ResidueBound`, `CommandCodec.NegativeSizeWaits`).
- A payload of more than 255 bytes is never read back (`FrameStream.PackReadInverse`).
- A byte that changes between 00 and FF escapes the checksum; no other single byte does
  (`FrameStream.OneByteChange`).
- A damaged frame whose checksum tells costs only itself iff no sync pattern inside the
  received content passes for the beginning of a frame (`FrameStream.DamagedFrameLosesOneIff`).
  One changed byte can make such a pattern: `09 02 'f' 'f'` received as `01 02 'f' 'f'`
  announces 255 bytes and holds back the next frame (`FrameStream.DamageHidesNext`).
- The comment in `src/common/command.h` has letter B for chat messages; the code uses M, and
  B for a refused join. The model follows the code.
- `RE::FullMatch` does not anchor a regex that ends in an escaped dollar
  (`SimpleRegex.FullMatchExactIff`); for every other valid regex it is exact.
- A printed string literal stands for other bytes as soon as a NUL is followed by an octal
  digit, and only then (`LiteralPrinter.LexInvertsPrintIff`).
- The shuffle does not reach every order. The low e bits of the random number generator repeat
  every 2^e steps (`RandomNumbers.LowBitsRepeat`), so all picks from numbers of elements
  divisible by 2^e agree in them (`Shuffling.LowBitsAgree`): from four distinct elements on
  some orders never occur, whatever the seed (`Shuffling.EveryOrderReachedIff`); of four
  elements it is half of them (`Shuffling.ReachedOfFourIff`).
- For -1 the two prime tables disagree: the precalculated one finds 2, if its maximum is at
  least 2, while the other returns -1 because its loop is not entered.

## Model

| member | source | states |
|---|---|---|
| Framing.ComputeCc | src/common/protocol.cc:9-15 | the sum of the bytes modulo 255 |
| Framing.ChecksumRead | src/common/protocol.cc:16-34 | too few bytes, a wrong checksum and a right one are told apart, and the iterator moves past the two digits |
| Framing.ContentRead | src/common/protocol.h:93-105 | the message is overwritten from the content before the checksum decides |
| Framing.SizeRead | src/common/protocol.h:107-128 | the chain from the size on gives the verdict of the whole-frame definition |
| Framing.SyncRead | src/common/protocol.h:130-146 | one attempt at the front of the buffer gives the verdict of the whole-frame definition, length and message included |
| Framing.Parse | src/common/protocol.h:148-169 | the rescan loop leaves the buffer that the scan defines and returns a message decoded from the frame it took, whatever rejected attempts wrote into the reused message |
| Framing.Pack | src/common/protocol.h:171-195 | sync, two size digits, content, two checksum digits |
| Common.HexDigitText | src/common/protocol.h:171-195 | the hexadecimal digits of either case, as texts |
| Framing.PaddedHexReadsBack | src/common/protocol.h:171-195 | the printed digits stand for the number; below 256 there are two of them, and from 16 on none is a leading zero |
| FrameStream.ChecksumLaws | src/common/protocol.cc:9-15 | the checksum of nothing is 0, of a byte its remainder by 255, and of a concatenation the sum of the two |
| FrameStream.ReadFrameMeaning | src/common/protocol.h:93-146 | a frame is read iff the buffer starts with sync, a size that reads as the content's length, the content and its checksum |
| FrameStream.ReadFrameStable | src/common/protocol.h:93-146 | a verdict other than NOT_ENOUGH does not change when more bytes arrive |
| FrameStream.ScanOnceSound | src/common/protocol.h:148-169 | one parse drops only starts of genuine rejects, takes exactly one well-formed frame or stops at an unfinished one, and keeps every other byte |
| FrameStream.ScanOnceUnique | src/common/protocol.h:148-169 | those conditions determine the result of a parse |
| FrameStream.ParseLaws | src/common/protocol.h:93-169 | by lengths, sync bytes and the size alone: parse keeps the whole buffer iff one byte, an unfinished header or an unfinished frame is at its front; it takes a frame that is at its front; otherwise it goes on behind the first byte |
| FrameStream.ScanAppend | src/common/protocol.h:148-169 | bytes that arrive later leave a found frame alone, and otherwise the scan resumes from the bytes kept |
| FrameStream.DrainAppend | src/common/protocol.h:148-169 | draining two stretches of bytes is draining the first and then its residue with the second |
| FrameStream.ChunkingAccounts | src/server/tcp_connection.h:65-100 | for every cutting into reads, what was delivered followed by a drain of the accumulator is the drain of all bytes received, with the same residue |
| FrameStream.ChunkingIndependence | src/server/tcp_connection.h:65-100 | two cuttings of the same bytes agree on delivered and pending frames together |
| FrameStream.CaughtUpIff | src/server/tcp_connection.h:80-100 | every complete frame has been delivered after every read iff no read completes more than one |
| FrameStream.DeliveredExactly | src/server/tcp_connection.h:65-100 | for every cutting the frames delivered are a prefix of all frames; their number is the least, over all m, of the frames in the first m reads plus the number of reads after them |
| FrameStream.CaughtUpAtEndIff | src/server/tcp_connection.h:65-100 | nothing is late after the last read iff, from any read on, no more frames came than there were reads |
| FrameStream.QuietReadsFlush | src/server/tcp_connection.h:65-100 | further reads that complete no frame, whatever bytes they bring, deliver everything iff there are at least as many as pending frames |
| FrameStream.TwoInOneRead | src/server/tcp_connection.h:65-100 | of two packed frames that come in one read only the first is delivered; the next read delivers the second and keeps its own bytes |
| FrameStream.HeaderWaitsIff | src/common/protocol.h:107-128 | after garbage without a sync pattern, a sync pattern and a size n: parsing yields nothing and keeps the buffer from the sync pattern on iff fewer than n + 6 bytes have come |
| FrameStream.UnreadableSizeSkipped | src/common/protocol.h:107-169 | behind garbage without a sync pattern, a sync pattern with a size that does not read is skipped by one byte |
| FrameStream.FrameBehindUnreadableSize | src/common/protocol.h:107-195 | so a packed frame behind such a header is found, and what follows it is untouched |
| FrameStream.PackReadInverse | src/common/protocol.h:171-195 | a packed payload is read back, whatever follows it, iff it has at most 255 bytes |
| FrameStream.ScanGarbageThenFrame | src/common/protocol.h:148-169 | garbage without a sync pattern is skipped, then exactly the packed frame is taken |
| FrameStream.DrainInvertsWire | src/common/protocol.h:148-195 | draining packed frames with such garbage before each gives exactly their contents and leaves nothing |
| FrameStream.OneByteChange | src/common/protocol.cc:9-15 | changing one byte keeps the checksum iff the byte is the same or went between 00 and FF |
| FrameStream.FrameFoundIff | src/common/protocol.h:148-195 | after any bytes whatever, a parse takes exactly the packed frame behind them and leaves what follows iff each of those bytes starts a reject |
| FrameStream.DamagedFrameLosesOneIff | src/common/protocol.h:148-195 | a frame whose received content no longer matches its checksum costs one message, that is, the next frame is found and what follows it is untouched, iff every sync pattern in the received content starts a reject |
| FrameStream.DamagedFrameLosesOne | src/common/protocol.h:148-195 | so it costs one message if the received content holds no sync pattern |
| FrameStream.OneByteDamageLosesOne | src/common/protocol.h:148-195 | one changed content byte, other than between 00 and FF, costs exactly one message if the altered content holds no sync pattern |
| FrameStream.WrongChecksumLosesOne | src/common/protocol.h:148-195 | a checksum field of any two bytes other than the checksum costs one message if content and field hold no sync pattern |
| FrameStream.HeaderHidesNext | src/common/protocol.h:107-169 | received content that begins with a sync pattern and announces more than has come holds back the next frame with it |
| FrameStream.DamageHidesNext | src/common/protocol.h:107-169 | an input where one changed byte, which the checksum tells, holds back the next frame |
| CommandCodec.ParseCommand | src/common/command.cc:61-93 | both fields of the command are set from the payload alone |
| CommandCodec.PackCommand | src/common/command.cc:95-120 | the letter of the kind, then the content |
| CommandCodec.LettersOnTheWire | src/common/command.cc:95-120 | the letters A, M, B, C and D of the five kinds, and E for the others |
| CommandCodec.Complaints | src/common/command.cc:61-93 | the empty payload and a payload with any other first byte give an error command with its text |
| CommandCodec.PackedExample | tests/parser_test.cc:72-83 | the whole packet of one message, byte by byte |
| CommandCodec.DecodeInvertsEncode | src/common/command.cc:61-120 | a command reads back iff its kind has a letter of its own, or it is the complaint about the letter E |
| CommandCodec.EncodeInvertsDecode | src/common/command.cc:61-120 | a payload is printed back iff it starts with one of the five letters, or spells that complaint |
| CommandCodec.StreamSizeReadsHexPairs | src/common/protocol.h:114-125 | the stream extraction of the size field reads two lowercase digits as their value |
| CommandCodec.StreamSizeExtracts | src/common/protocol.h:114-125 | the size of any two bytes is what extraction from a text in general gives: white space skipped, a sign, 0x, digits of either case, negative numbers modulo 2^64 |
| CommandCodec.LeadingBytes | src/common/protocol.h:114-125 | the bytes that may stand in front of a single digit without counting |
| CommandCodec.ResidueBound | src/common/protocol.h:107-169 | what stays after draining any bytes is at most 260 bytes long, or starts with a sync pattern and a negative size |
| CommandCodec.NegativeSizeWaits | src/common/protocol.h:114-125 | after garbage without a sync pattern, a sync pattern and a negative size, nothing is delivered and nothing dropped until nearly 2^64 more bytes have come, however they are cut |
| CommandCodec.CommandsSurviveTheWire | src/common/protocol.h:148-195 | letter-coded commands of up to 254 bytes, sent among garbage without a sync pattern and cut into reads in any way, arrive exactly and in order |
| CommandCodec.ParsePacked | src/common/protocol.h:148-195 | garbage without a sync pattern, a packed command with a content of at most 254 bytes, and a rest: parsing returns the command iff it reads back, and leaves exactly the rest |
| EventQueues.EventQueue.Push | src/common/event_queue.h:34-38 | the element goes behind everything pushed before |
| EventQueues.EventQueue.Empty | src/common/event_queue.h:40-46 | everything pushed and not yet taken is handed over, in order |
| EventQueues.EventQueue.Size | src/common/event_queue.h:25-28 | how many elements were pushed and not yet taken |
| ChatServer.ReadKeepsInv | src/server/tcp_connection.h:80-100 | a read on any connection keeps the invariant: distinct names, events from participants, and for each connection the accounts of bytes, replies, chat and events |
| ChatServer.JoinOutcome | src/server/handler.h:152-181 | a message on an unnamed connection names it iff it is a join request for a non-empty name that nobody has; then one JOIN_ACK is sent and one event pushed; otherwise nothing is pushed, and exactly the refusal for the empty name, the refusal for a taken name, or nothing is sent |
| ChatServer.MemberOutcome | src/server/tcp_connection.h:93-96 | a message on a named connection pushes one event and is sent to every other connection iff it is chat; no name changes |
| ChatServer.ReadIsReceive | src/server/tcp_connection.h:65-100 | on any connection the accumulator and the frames change as by one receive, and without a message nothing else changes |
| ChatServer.JoinKeepsInv | src/server/handler.h:152-181 | an accepted join request keeps it |
| ChatServer.MemberKeepsInv | src/server/handler.h:51-74 | a message of a named connection, relayed and reported, keeps it |
| ChatServer.AcceptKeepsInv | src/server/network.cc:32-36 | accepting a connection keeps it |
| ChatServer.RunsKeepInv | src/server/game.cc:43-51 | under every interleaving of accepts, reads, size and empty, the invariant holds, consumed and queued events together are all pushed, a non-empty queue seen is a non-empty queue taken, and names once set, participants and histories stay |
| ChatServer.RunStreams | src/server/tcp_connection.h:65-100 | in every run the room has one connection for each accept, and the frames, the accumulator and the bytes of each are those of its own reads, in order |
| ChatServer.TurnTakesAll | src/server/game.cc:43-46 | looking at the queue and then emptying it consumes everything that is queued |
| ChatServer.EveryRun | src/server/game.cc:43-51 | so every state reachable from the empty server satisfies the invariant |
| ChatServer.NamesSettled | src/server/handler.h:152-181 | in every run no two connections have the same non-empty name, and a name once set never changes |
| ChatServer.HeardTheOthers | src/server/handler.h:51-74 | in every run a connection has been sent exactly the chat messages that others brought to the game since it was accepted, in order |
| ChatServer.AcknowledgedOnce | src/server/handler.h:152-181 | in every run a connection has been sent one JOIN_ACK if it is named and none otherwise |
| ChatServer.FirstEventIsJoin | src/server/tcp_connection.h:85-96 | in every run the first event of each name is the join request for that name |
| ChatServer.BytesReachTheGame | src/server/tcp_connection.h:80-100 | in every run the events of a player, then the messages still in its buffer, are the messages of all its bytes from the accepted join request on |
| ChatServer.BystanderStaysSound | src/server/handler.h:68-74 | a bystander has been sent exactly what the others said since it came |
| ServerObjects.TcpConnection.HandleReceive | src/server/tcp_connection.h:65-100 | what a read does to the objects is the read step of the state machine |
| ServerObjects.TcpConnection.DispatchMessage | src/server/tcp_connection.h:85-96 | the name gate and the dispatch to the handlers are the dispatch step |
| ServerObjects.ChatRoom.TransmitMessage | src/server/handler.h:68-74 | every participant but the emitter is sent the message once |
| ServerObjects.ChatRoom.FindByName | src/server/handler.h:94-109 | a participant is found iff the name is not empty and somebody has it |
| ServerObjects.JoinHandler.Handle | src/server/handler.h:152-181 | refusals and acceptance as in the join step, name and reply included |
| ServerObjects.GameHandler.Handle | src/server/handler.h:119-124 | one event with the emitter's name is pushed |
| ServerObjects.TcpServer.HandleNewConnection | src/server/network.cc:16-36 | a fresh connection enters the room at the end and once |
| ServerObjects.Game.LookAtQueue | src/server/game.cc:44-44 | looking at the size of the queue is the step that decides whether it will be emptied |
| ServerObjects.Game.Take | src/server/game.cc:44-46 | emptying the queue, after something was seen in it, is the step that consumes all queued events, and hands exactly them over |
| ServerObjects.Game.PerformAll | src/server/game.cc:38-61 | any calls on the program's objects, by the network thread and the main loop in any order, are a run of the state machine |
| ServerObjects.Play | src/server/game.cc:22-61 | from the empty server, whatever calls are made, the objects are in the state of that run and satisfy the invariant |
| SimpleRegex.DenotesUnique | googletest-release-1.7.0/src/gtest-port.cc:257-311 | no text stands for two regular expressions |
| SimpleRegex.ValidRegexIsGrammar | googletest-release-1.7.0/src/gtest-port.cc:257-311 | the recursive validity test accepts exactly the printed forms of well-formed regexes |
| SimpleRegex.ValidateRegex | googletest-release-1.7.0/src/gtest-port.cc:257-311 | true iff the text is not null and in the grammar: an optional `^`, atoms with optional repetition, an optional `$` |
| SimpleRegex.ShortestRegexes | googletest-release-1.7.0/src/gtest-port.cc:218-311 | which single characters are regexes, and which characters may stand behind a backslash |
| SimpleRegex.ClassLanguages | googletest-release-1.7.0/src/gtest-port.cc:203-247 | one or more of a digit, word or white space class accept exactly the non-empty strings of the listed characters |
| SimpleRegex.CapitalLanguages | googletest-release-1.7.0/src/gtest-port.cc:226-247 | a capital class accepts exactly the single characters that the small one does not |
| SimpleRegex.SingleLanguages | googletest-release-1.7.0/src/gtest-port.cc:226-247 | the escapes of control characters, the dot, escaped punctuation and every other plain character accept exactly what they stand for |
| SimpleRegex.MatchRepetitionAndRegexAtHead | googletest-release-1.7.0/src/gtest-port.cc:320-342 | true iff a block within the repetition's bounds, followed by blocks for the tail, is a prefix |
| SimpleRegex.MatchRegexAtHead | googletest-release-1.7.0/src/gtest-port.cc:347-373 | true iff some prefix, all of the string for a regex ending in `$`, splits into one block per item |
| SimpleRegex.MatchRegexAnywhere | googletest-release-1.7.0/src/gtest-port.cc:383-398 | true iff some substring is in the language where the anchors allow it |
| SimpleRegex.RE.constructor | googletest-release-1.7.0/src/gtest-port.cc:417-448 | the object is valid iff the text is, and then its full pattern stands for the regex with both anchors, the last one missing after an escaped dollar |
| SimpleRegex.RE.PartialMatch | googletest-release-1.7.0/src/gtest-port.cc:412-414 | true iff the regex is valid and matches a substring |
| SimpleRegex.RE.FullMatch | googletest-release-1.7.0/src/gtest-port.cc:406-408 | true iff the regex is valid and its anchored form matches |
| SimpleRegex.FullMatchExactIff | googletest-release-1.7.0/src/gtest-port.cc:404-448 | the anchored form accepts exactly the strings of the language iff the regex does not end in an escaped dollar |
| GlobFilter.PatternMatchesIffGlob | googletest-release-1.7.0/src/gtest.cc:440-455 | a pattern matches iff the string splits into one block per pattern character: one character for `?`, any block for `*`, itself otherwise |
| GlobFilter.PiecesSplitFilter | googletest-release-1.7.0/src/gtest.cc:465-474 | the patterns of a filter hold no ':' and, joined by ':', are the filter |
| GlobFilter.MatchesFilter | googletest-release-1.7.0/src/gtest.cc:457-476 | a name matches iff it matches some ':'-separated pattern |
| GlobFilter.FilterMatchesTest | googletest-release-1.7.0/src/gtest.cc:480-508 | the full name matches a pattern before the first '-', or that part is empty, and none after it |
| GlobFilter.SelectsParts | googletest-release-1.7.0/src/gtest.cc:480-508 | a filter of two parts around a dash selects what the first matches, or everything if it is empty, and the second does not; a filter without a dash selects what it matches |
| GlobFilter.DeathTestCaseNames | googletest-release-1.7.0/src/gtest.cc:158-158 | the death test filter accepts exactly names that end in DeathTest or contain DeathTest/ |
| GlobFilter.DisabledNames | googletest-release-1.7.0/src/gtest.cc:153-153 | the filter for disabled tests accepts exactly names that start with DISABLED_ or contain /DISABLED_ |
| Shuffling.ShuffleRange | googletest-release-1.7.0/src/gtest-internal-inl.h:310-328 | the loop computes the Fisher-Yates shuffle by the generator's numbers and leaves the generator in the state after them |
| Shuffling.ShuffledByPermutes | googletest-release-1.7.0/src/gtest-internal-inl.h:310-328 | whatever the picks, the range is permuted and everything else stays |
| Shuffling.OneExchange | googletest-release-1.7.0/src/gtest-internal-inl.h:310-328 | a step exchanges the picked element with the last one of the range and goes on with the range but for it |
| Shuffling.PickOfState | googletest-release-1.7.0/src/gtest.cc:291-305 | the k-th pick is the (k+1)-th state of the generator modulo the number of elements left |
| Shuffling.StateAfterDraws | googletest-release-1.7.0/src/gtest-internal-inl.h:310-328 | shuffling a range takes one number from the generator for each element but one |
| Shuffling.PicksDetermined | googletest-release-1.7.0/src/gtest-internal-inl.h:310-328 | different picks give different orders of distinct elements |
| RandomNumbers.BitFlips | googletest-release-1.7.0/src/gtest.cc:291-305 | every 2^e steps bit e of the generator's state flips and the bits below it are as before |
| RandomNumbers.LowBitsRepeat | googletest-release-1.7.0/src/gtest.cc:291-305 | so the low e bits are the same after any multiple of 2^e steps |
| Shuffling.LowBitsAgree | googletest-release-1.7.0/src/gtest-internal-inl.h:310-328 | from any state, the picks from numbers of elements divisible by 2^e agree modulo 2^e |
| Shuffling.ReachedOrdersAgree | googletest-release-1.7.0/src/gtest-internal-inl.h:310-328 | for any number of distinct elements, the picks of every order that is reached agree in that way |
| Shuffling.EvenPicksAgree | googletest-release-1.7.0/src/gtest.cc:291-305 | from any state, the picks from even numbers of elements are all even or all odd |
| Shuffling.EveryOrderReachedIff | googletest-release-1.7.0/src/gtest-internal-inl.h:310-328 | every order of distinct elements is reached from some state of the generator iff there are at most three of them, and then from some seed of a run |
| Shuffling.ReachedOfFourIff | googletest-release-1.7.0/src/gtest-internal-inl.h:310-328 | an order of four distinct elements is reached, from some state or some seed of a run, iff the third of its picks is the low bit of the first |
| Shuffling.MissedOfFour | googletest-release-1.7.0/src/gtest-internal-inl.h:310-328 | one order of four elements that no state gives |
| Shuffling.RandomSeedFromFlag | googletest-release-1.7.0/src/gtest-internal-inl.h:135-146 | seeds lie in 1..99999, and a flag in that range is the seed |
| Shuffling.SeedOfFlag | googletest-release-1.7.0/src/gtest-internal-inl.h:135-146 | the seed is congruent modulo 99999 to the flag, or for flag 0 to the time, taken as 32 bits; for 0 itself it is 10246 |
| Shuffling.SeedsCycle | googletest-release-1.7.0/src/gtest-internal-inl.h:151-157 | the seeds of two iterations are equal iff their numbers differ by a multiple of 99999 |
| TestRegistry.RegistrationPartitions | googletest-release-1.7.0/src/gtest.cc:4173-4206 | after any registrations the cases are the death test cases and then the others, each in order of first mention |
| TestRegistry.ShuffleKeepsBlocks | googletest-release-1.7.0/src/gtest.cc:4601-4607 | from any generator state the shuffled indices are a permutation that keeps death test cases in front |
| TestRegistry.BlocksShuffledApart | googletest-release-1.7.0/src/gtest.cc:4601-4607 | each block is shuffled like a sequence of its own, the second with the generator state that the first leaves |
| TestRegistry.PermutationTakesAll | googletest-release-1.7.0/src/gtest.cc:4311-4316 | visiting by a permutation of the indices visits every element exactly once |
| TestRegistry.ShardsPartition | googletest-release-1.7.0/src/gtest.cc:4444-4506 | a runnable test is selected by exactly one of the shards, another test by none |
| TestRegistry.ShardSize | googletest-release-1.7.0/src/gtest.cc:4444-4506 | each shard selects the quotient of the runnable tests, the first ones one more |
| TestRegistry.Unsharded | googletest-release-1.7.0/src/gtest.cc:4489-4506 | without sharding every runnable test is selected and the counts are equal |
| TestRegistry.CountsSelected | googletest-release-1.7.0/src/gtest.cc:4444-4506 | the count is the number of selected tests, sharded or not |
| UnitTests.UnitTestImpl.GetTestCase | googletest-release-1.7.0/src/gtest.cc:4173-4206 | the named case is found, or added where registration puts it, and all others stay in order |
| UnitTests.UnitTestImpl.AddTestInfo | googletest-release-1.7.0/src/gtest-internal-inl.h:654-674 | registering a test registers its case, puts the test at the end of that case and changes nothing else |
| UnitTests.UnitTestImpl.RegisterTests | googletest-release-1.7.0/src/gtest-internal-inl.h:654-674 | after any sequence of registrations the cases are those that registration of their names gives, and each holds exactly its own tests, in order |
| UnitTests.UnitTestImpl.GetMutableTestCase | googletest-release-1.7.0/src/gtest-internal-inl.h:593-596 | the case at the permuted index, or none outside the range |
| UnitTests.UnitTestImpl.ShuffleTests | googletest-release-1.7.0/src/gtest.cc:4601-4613 | the two blocks of cases, then the tests of each case, are shuffled from consecutive generator states; nothing else changes |
| UnitTests.ShuffledOrdersPermute | googletest-release-1.7.0/src/gtest.cc:2463-2465 | from any generator state the tests within each case are permuted |
| UnitTests.ConsecutiveStates | googletest-release-1.7.0/src/gtest.cc:4601-4613 | all shuffles of an iteration take the generator's numbers one after the other, none twice and none left out |
| UnitTests.UnitTestImpl.UnshuffleTests | googletest-release-1.7.0/src/gtest.cc:4616-4623 | the identity orders are restored and nothing else changes |
| UnitTests.UnitTestImpl.RunIteration | googletest-release-1.7.0/src/gtest.cc:4284-4342 | the visits of the cases are a permutation, death test cases first; they and the tests run, in order, depend on the seed only; the registry is afterwards as before |
| UnitTests.EachTestOnce | googletest-release-1.7.0/src/gtest.cc:2429-2446 | with any seed each test that should run runs exactly once in an iteration, and nothing else runs |
| UnitTests.RanInOrder | googletest-release-1.7.0/src/gtest.cc:2429-2446 | what runs runs in the order of the cases and, within a case, of its tests |
| UnitTests.DeathTestsRunFirst | googletest-release-1.7.0/src/gtest.cc:4311-4316 | with any seed no test of a death test case runs after a test of another case |
| UnitTests.SelectedUnsharded | googletest-release-1.7.0/src/gtest.cc:4455-4506 | without sharding a test is selected iff it is not disabled, or disabled tests run too, and the filter selects its full name |
| UnitTests.SelectedOnce | googletest-release-1.7.0/src/gtest.cc:4311-4316 | after filtering, exactly the tests selected by the options and the shard run in an iteration, each once, with any seed |
| UnitTests.UnitTestImpl.RunAllTests | googletest-release-1.7.0/src/gtest.cc:4253-4348 | the tests that the k-th iteration runs, and their order, are those of the k-th seed; in every iteration each selected test runs exactly once and no other does; with the filter `*` and no sharding these are the tests that are not disabled by name, or all if disabled tests run too |
| UnitTests.UnitTestImpl.FilterTests | googletest-release-1.7.0/src/gtest.cc:4455-4506 | exactly the selected tests should run, a case iff one of its tests does, and the result counts them |
| LiteralPrinter.PrintCharsAsStringTo | googletest-release-1.7.0/src/gtest-printers.cc:254-271 | the bytes one by one, with a break before a hexadecimal digit that follows a hex escape |
| LiteralPrinter.PrintedAsItself | googletest-release-1.7.0/src/gtest-printers.cc:142-206 | which bytes are printed as themselves in either kind of literal, and which in hexadecimal, with capital digits |
| LiteralPrinter.BreaksExactly | googletest-release-1.7.0/src/gtest-printers.cc:254-271 | the text is that of the bytes one after the other, with a break exactly where a hexadecimal digit follows a byte in hexadecimal |
| LiteralPrinter.CharLiteralReadsBack | googletest-release-1.7.0/src/gtest-printers.cc:142-180 | every byte printed as a character literal, both quotes included, reads back as that byte |
| LiteralPrinter.LexOne | googletest-release-1.7.0/src/gtest-printers.cc:142-206 | lexing a printed byte gives the byte and goes on with the rest, unless it is a NUL before an octal digit |
| LiteralPrinter.LexInvertsPrintIff | googletest-release-1.7.0/src/gtest-printers.cc:142-271 | the printed literals, lexed by the rules of C11 and concatenated, are the bytes iff no NUL is directly followed by an octal digit |
| WideStrings.CodePointToUtf8 | googletest-release-1.7.0/src/gtest.cc:1436-1464 | the shortest encoding in the layout of RFC 3629; nothing for code point 0; a text with the hexadecimal number above 21 bits |
| WideStrings.EncodingInNumbers | googletest-release-1.7.0/src/gtest.cc:1400-1464 | in numbers: the length by the size of the code point, tails in 80..BF, and the bytes put together six bits at a time |
| WideStrings.InvalidInWords | googletest-release-1.7.0/src/gtest.cc:1436-1441 | a number above 21 bits is spelt out with its hexadecimal number in capitals |
| WideStrings.EncodingUnique | googletest-release-1.7.0/src/gtest.cc:1400-1421 | a code point has one encoding |
| WideStrings.DecodePrepend | googletest-release-1.7.0/src/gtest.cc:1400-1421 | an encoding is told apart from whatever follows it |
| WideStrings.RendersInjective | googletest-release-1.7.0/src/gtest.cc:1436-1464 | no two 32-bit arguments give the same text |
| WideStrings.WideStringToUtf8 | googletest-release-1.7.0/src/gtest.cc:1500-1521 | the output is the encodings of the code points, pairs joined, up to the limit or the NUL; nothing for a negative limit other than -1 |
| WideStrings.DecodeInvertsRender | googletest-release-1.7.0/src/gtest.cc:1500-1521 | UTF-8 decoding of the output gives exactly the code points |
| WideStrings.UnitsInvertCodePoints | googletest-release-1.7.0/src/gtest.cc:1471-1485 | joining pairs loses nothing: the units are recovered, unpaired surrogates included |
| WideStrings.PairsAreJoined | googletest-release-1.7.0/src/gtest.cc:1471-1521 | among the code points no high surrogate is directly followed by a low one |
| WideStrings.CodePointsUnique | googletest-release-1.7.0/src/gtest.cc:1471-1521 | the code points are the only ones with these units of which that holds |
| WideStrings.TranscodingInjective | googletest-release-1.7.0/src/gtest.cc:1500-1521 | no two wide strings have the same UTF-8 text |
| CDataWriter.OutputXmlCDataSection | googletest-release-1.7.0/src/gtest.cc:3246-3263 | the segments between closing marks, each mark split over two sections |
| CDataWriter.WrittenText | googletest-release-1.7.0/src/gtest.cc:3246-3263 | the text itself: data without a closing mark is one section, and each mark is split where it stands |
| CDataWriter.FirstClose | googletest-release-1.7.0/src/gtest.cc:3246-3263 | a section ends where its segment does, even if the segment ends in a bracket |
| CDataWriter.ReadInvertsWrite | googletest-release-1.7.0/src/gtest.cc:3246-3263 | reading the output as XML content gives back the data, whatever the data |
| PrimeTables.CalculatePrimesUpTo | googletest-release-1.7.0/samples/prime_tables.h:100-112 | the sieve marks exactly the primes |
| PrimeTables.PreCalculatedPrimeTable.constructor | googletest-release-1.7.0/samples/prime_tables.h:84-87 | a table for a maximum of at least 1 is correct up to it |
| PrimeTables.PreCalculatedPrimeTable.IsPrime | googletest-release-1.7.0/samples/prime_tables.h:90-92 | true iff the number is in the table and prime |
| PrimeTables.PreCalculatedPrimeTable.GetNextPrime | googletest-release-1.7.0/samples/prime_tables.h:94-100 | the least prime above within the table, or -1 when there is none |
| PrimeTables.OnTheFlyIsPrime | googletest-release-1.7.0/samples/prime_tables.h:60-69 | trial division up to the square root decides primality |
| PrimeTables.OnTheFlyGetNextPrime | googletest-release-1.7.0/samples/prime_tables.h:71-77 | for a number from 0 on the least prime above it, always found; -1 below 0 |
| PrimeTables.PrimeAbove | googletest-release-1.7.0/samples/prime_tables.h:71-77 | there is a prime above every number, so that search ends |

## Left out

- Sockets, asio callbacks, threads, logging, the terminal interface and `main` functions: only the step each callback performs is modelled, and a command sent to a connection is appended to what it was sent.
- Read errors and closed connections: after an error a connection is no longer read but stays in the room.
- msgpack and `Message::pack`/`unpack`: the codec of the server's messages is a parameter that overwrites the whole message; its exceptions, and the copying of messages through it, are not modelled.
- FrameStream.DrainInvertsWire: payloads of more than 255 bytes, of which only two size digits are kept, are excluded; PackReadInverse shows that they cannot be read back.
- Other implementations of the stream extraction of the size field: CommandCodec reads it as the GNU library does, and apart from ResidueBound and NegativeSizeWaits every theorem about frames assumes only that two lowercase digits are read as their value.
- Integer widths of the checksum sum, of repetition counts and of the prime tables: mathematical integers, so overflow is not modelled.
- UnitTests.UnitTestImpl.FilterTests: test cases and tests are values in the registry's sequence and an index stands for a pointer, so aliasing between test objects is not captured.
- UnitTests.UnitTestImpl.GetTestCase: registration while a shuffle is in force, which the source excludes in a comment, is excluded here.
- Listeners, environments, results, `--gtest_list_tests` and the reading of environment variables: the options and the shard are parameters, shuffling is on, and the number of repetitions is not negative, which would mean forever.
- POSIX regular expressions, death test processes and Windows branches: platform code.
- Wide string literals and 32-bit wide characters: the printer is modelled for bytes and the transcoder for 16-bit units.
- LiteralPrinter.LexInvertsPrintIff: trigraphs, which C11 replaces before lexing, are not modelled.
- CDataWriter.ReadInvertsWrite: the end-of-line normalisation of an XML processor and the ban on control characters are not modelled.
- `QuizzSystem`, the client's loops and `LineParser`: unfinished or without a deep property.
