# Protocols, buffers and containers of the chat sample, modelled in Dafny

The repository is a chat client and server with a vendored Redis client (hiredis) and a vendored
XML library (tinyxml2). This project models its hardest code and proves what that code is for.

- **Redis replies** (`RespGrammar`, `RespResume`, `ReplyObjects`, `RespReader`, `RespEncode`,
  `RespPrint`, `Spelling`). The reader of `read.c` is a class with its byte buffer and nine-slot task
  stack; it builds reply trees in the heap through parent links. The reference is a recursive-descent
  parser. `RespResume` gives a stack state a meaning (what the parser would still do), and the reader
  refines it step by step, so stopping at any byte and feeding in any chunks makes no difference.
  `Spelling` writes down, without a parser, what is accepted and what is refused. Reading after printing
  and printing after reading are both characterised exactly.
- **Redis commands** (`Decimal`, `Commands`, `CommandShape`, `Templates`, `TemplateMeaning`,
  `CommandScan`). The three formatters compute an exact length first and fill it afterwards; the
  server's parser and the scanner of `async.c` both undo them.
- **Asynchronous client** (`PubSub`, `AsyncProtocol`, `AsyncSafety`, `AsyncRuns`, `AsyncTeardown`,
  `AsyncPush`, `AsyncFailure`, `AsyncEffects`, `AsyncRouting`, `AsyncReplies`, `ReplyFaults`,
  `CallbackList`, `Async`, `Conversation`). `AsyncProtocol` is the protocol as a state machine on
  values; the next modules prove its invariants and exact conditions over all runs, say what each event
  does to the fields of the context, and show the runs that go wrong; and the class in `Async`, with
  linked callback lists and re-entrant calls, is proved to take exactly those steps. What callbacks do
  is a plan without end: which calls the k-th callback to run makes on the context. The theorems about
  runs hold for all plans. The order in which a table's iterator goes through its entries is a
  parameter. `Conversation` puts the reader and the context together, from chunks of bytes to calls of
  callbacks.
- **Strings and tables** (`Sds`, `SdsMeaning`, `SdsSplit`, `SdsQuote`, `SdsWords`, `Dict`,
  `DictIteration`). Strings with five header widths; quoting and its parser; splitting and joining; the
  chained hash table, which refines a finite map, and its iterator, which tolerates deletion of the
  entry just returned.
- **Packet framing** (`Framing`, `ClientFraming`, `ServerFraming`, `PacketBuffers`). The client's and
  the server's linear buffers with compaction, the thread that reads from the client's, and for each
  buffer the exact capacity that its traffic needs.
- **Pool allocator** (`DynArray`, `Pool`). The intrusive free list over growing blocks.

`dafny verify dfyconfig.toml` checks the whole project. `ByteStrings` holds bytes, the constants of the
protocols and the widths the C sources compute in; integers are mathematical, and wrap-around,
saturation and narrowing are written out where the sources depend on them.

## Findings

Places where the code does not do what one might expect. Each has an input that shows it and, proved
for all inputs, the condition under which the code does what is expected.

- Reading after printing is the identity (`RespEncode.RoundTripIff`), printing after reading is not: the
  bytes after a bulk body, the text of a null and most of the text of a boolean are not looked at, and a
  length of -1 has two spellings (`RespPrint.BulkTrailerIgnored`, `RespPrint.NullTextIgnored`,
  `RespPrint.BoolTextIgnored`, `RespPrint.NegativeLengthIsNull`). It is exactly on bytes that pass those
  tests (`RespPrint.PrintAfterReadIff`).
- The client loses ordinary traffic: its buffer keeps room for 1024 bytes, the thread reads up to 2048 from
  the socket and ignores that a write is refused (`ClientFraming.ClientRefuses`). It hears every stream as
  it was sent exactly when no read is longer than a frame can be and two reads fit beside a frame less one
  byte (`ClientFraming.HearsAllIff`, `ClientFraming.CapacityIff`), which no size of the buffer makes true of
  longer reads; the test of `Init` asks for neither. A second `Init` keeps the positions of the first
  (`PacketBuffers.PacketBufferManager.Init`).
- `SetPacketData` on the server does not check that the bytes fit, and getting one packet for each stored
  chunk lets small packets run past the end (`ServerFraming.SmallPacketsOverrun`). A copy overruns exactly
  when unread and new bytes exceed the buffer (`ServerFraming.OverrunIff`), and a server that takes out
  every complete packet after each chunk is safe exactly when a longest chunk fits beside a longest packet
  less one byte (`ServerFraming.ServerCapacityIff`, `ServerFraming.ServerSafe`).
- The callback under construction keeps its pending count from one name of a SUBSCRIBE to the next, so a
  new name after a known one can wait for too many replies (`PubSub.TwoNamesInexact`); the exact
  condition is `PubSub.SubscribeExactIff`, and no count is ever too small (`PubSub.SubscribeCovers`).
- The callback variable of the reply loop outlives a turn, so a push message for a name without an entry
  runs the callback of an earlier reply (`ReplyFaults.ForeignReplyRunsEntry`), and so does a line of
  MONITOR behind another answer (`ReplyFaults.LineToOtherCommand`). In monitor mode the variable is put
  into the queue even while it is NULL, which loses a line (`ReplyFaults.EmptyReadLosesLine`). Replies run
  the callbacks they are meant for exactly when whatever was not looked up for them is the right function,
  for one reply (`AsyncRouting.RoutedToOwnIff`), a read (`AsyncRouting.ReadRoutedIff`) and whole runs
  (`AsyncRouting.RunRoutedIff`).
- A client that unsubscribes from its last channel and from another name in a pipeline is aborted by a
  server that answers correctly (`ReplyFaults.TwoUnsubscribesAbort`); the exact condition is
  `ReplyFaults.PipelineAbortsIff`.
- With automatic freeing off, a context whose callback frees it during a timeout stays allocated
  (`AsyncTeardown.FreeingNotFreed`), and only then (`AsyncTeardown.StrandedIff`,
  `AsyncTeardown.StrandedRunIff`).
- The loop of a timeout takes commands while it drains the queue, so a callback that sends its command
  again keeps it going for ever (`AsyncTeardown.ResubmittingLoops`). It ends exactly when some k callbacks
  use up what is queued and what they add, or one of them closes the context
  (`AsyncTeardown.LoopEndsIff`, `AsyncTeardown.TimeoutLoopsIff`).
- A write that flushes the last byte of a disconnect does not complete it (`AsyncTeardown.WriteLeaves`);
  the next read does (`AsyncTeardown.NextReadFrees`).

## Model

| member | source | states |
|---|---|---|
| `RespReader.ReadChunks` | thirdparty/hiredis/read.c:586-669 | Chunking does not matter: for every list of chunks, feeding each and calling GetReply until no reply or an error hands out exactly the replies, as heap trees, and ends with exactly the error, that the recursive parser gives on the concatenation |
| `RespReader.RedisReader.GetReply` | thirdparty/hiredis/read.c:618-669 | One call refines the recursive parser: it hands out the tree the grammar gives for the bytes at hand and consumes exactly its bytes, or asks for more, or reports the error, across calls that stop at any byte; the trim keeps the unread bytes |
| `RespReader.RedisReader.ProcessItem` | thirdparty/hiredis/read.c:489-556 | One item of the task stack takes the bytes and makes the step the grammar allows; an aggregate inside eight others is an error |
| `RespReader.RedisReader.ProcessItems` | thirdparty/hiredis/read.c:642-645 | The loop stops only at a finished reply, at an error, or when no continuation of the parse is possible without more bytes |
| `RespReader.RedisReader.MoveToNextTask` | thirdparty/hiredis/read.c:237-262 | After a value is stored, full aggregates are closed up the parent chain; the stack then describes the next item, or the root is complete |
| `RespReader.RedisReader.ProcessLineItem` | thirdparty/hiredis/read.c:264-344 | Integers, doubles, nulls, booleans, statuses and errors: the value the grammar gives for the line, stored in its parent slot; a rejected line is a protocol error |
| `RespReader.RedisReader.ProcessBulkItem` | thirdparty/hiredis/read.c:346-408 | A bulk string is taken only when header, body and two trailing bytes are there, otherwise nothing is consumed; -1 is a null, a length out of range an error |
| `RespReader.RedisReader.ProcessAggregateItem` | thirdparty/hiredis/read.c:411-487 | An aggregate header opens a task with its element count (doubled for a map), or stores an empty aggregate or a null |
| `RespReader.RedisReader.ReadLine` | thirdparty/hiredis/read.c:222-235 | The line in front of the first CR LF, consumed with it, or nothing consumed |
| `RespReader.RedisReader.SeekNewline` | thirdparty/hiredis/read.c:121-145 | The index of the first CR LF, or -1 if there is none |
| `RespReader.RedisReader.Feed` | thirdparty/hiredis/read.c:586-616 | The new bytes follow the unread ones, also when the buffer is renewed; after an error nothing is taken |
| `RespReader.RedisReader.Trim` | thirdparty/hiredis/read.c:651-657 | Discarding consumed bytes leaves the unread ones as they are, and happens from 1024 of them on |
| `RespReader.Settled` | thirdparty/hiredis/read.c:618-669 | When nothing more can be read, what was handed out is the outcome of the whole stream |
| `RespResume.CompleteResumes` | thirdparty/hiredis/read.c:237-262 | Completing a value and closing the aggregates it fills is the same as going on with the recursive parse |
| `RespResume.LineStep` | thirdparty/hiredis/read.c:264-344 | Consuming one line item from a stack state is one step of the recursive parser |
| `RespResume.BulkStep` | thirdparty/hiredis/read.c:346-408 | Consuming one bulk item, or failing on it, is one step of the recursive parser |
| `RespResume.HeaderStep` | thirdparty/hiredis/read.c:411-487 | Consuming an aggregate header is one step of the recursive parser |
| `RespResume.BadTypeStep` | thirdparty/hiredis/read.c:497-548 | An unknown type byte and a ninth nested aggregate are errors at once |
| `RespResume.EmptyWaits` | thirdparty/hiredis/read.c:618-669 | A reply under way with no bytes left is undecided |
| `RespResume.ResumeUses` | thirdparty/hiredis/read.c:618-669 | Every reply uses at least one byte, so draining ends |
| `RespGrammar.ParseValue` | thirdparty/hiredis/read.c:489-556 | The recursive definition never claims bytes that are not there and always claims at least one |
| `Spelling.ReadIff` | thirdparty/hiredis/read.c:264-556 | Independent of any parser: the reader accepts exactly the byte strings that spell a reply, written down byte by byte for all ten types, nulls in each of their five spellings, booleans in any text, counts that are doubled for maps, and at most eight aggregates deep; and it takes them for exactly that reply |
| `Spelling.FailIff` | thirdparty/hiredis/read.c:264-556 | And it fails, with which error, exactly on the beginnings that are written down as refused: unknown type bytes, a ninth aggregate, bad or too small numbers, bad doubles, too many elements, or such a thing behind elements that are spelled |
| `Spelling.StreamIff` | thirdparty/hiredis/read.c:618-669 | A stream is read as exactly the replies it spells one after the other, up to exactly the refusal or the undecided rest |
| `Spelling.NullSpellings` | thirdparty/hiredis/read.c:446-458 | A null line, a bulk string of length -1 and an aggregate of count -1 of each kind are read as a null, in front of anything; a ninth aggregate is refused even then |
| `Spelling.NumberIff` | thirdparty/hiredis/read.c:159-220 | A text is read as a number exactly when it is its decimal spelling, by the places of its digits, within 64 bits |
| `ReplyObjects.CreateString` | thirdparty/hiredis/hiredis.c:116-148 | A string node with the text, linked into the slot of its parent that the task names and no other |
| `ReplyObjects.CreateArray` | thirdparty/hiredis/hiredis.c:150-175 | An aggregate node with a zeroed element vector, linked into its parent slot |
| `ReplyObjects.CreateInteger` | thirdparty/hiredis/hiredis.c:177-194 | An integer node with the value, linked into its parent slot |
| `ReplyObjects.CreateDouble` | thirdparty/hiredis/hiredis.c:196-226 | A double node with its text, linked into its parent slot |
| `ReplyObjects.CreateNil` | thirdparty/hiredis/hiredis.c:228-243 | A null node, linked into its parent slot |
| `ReplyObjects.CreateBool` | thirdparty/hiredis/hiredis.c:245-262 | A boolean node holding 1 or 0, linked into its parent slot |
| `ReplyObjects.RepUnique` | thirdparty/hiredis/hiredis.c:116-262 | A complete tree of nodes stands for one reply only |
| `RespEncode.RoundTrip` | thirdparty/hiredis/read.c:264-487 | Reading the encoding of a printable reply of at most eight nested aggregates, with anything after it, gives the reply and leaves exactly the rest |
| `RespEncode.RoundTripIff` | thirdparty/hiredis/read.c:411-424 | The exact condition: a printable reply survives printing and reading if and only if it nests at most eight aggregates |
| `RespEncode.TooDeepFails` | thirdparty/hiredis/read.c:411-424 | A reply that nests deeper is refused as a protocol error, wherever the offending aggregate sits |
| `RespEncode.StatusRoundTripIff` | thirdparty/hiredis/read.c:222-235 | A status text survives if and only if it holds no CR LF |
| `RespEncode.StreamRoundTrip` | thirdparty/hiredis/read.c:618-669 | A stream of encoded replies is read back in order |
| `RespEncode.Transport` | thirdparty/hiredis/read.c:586-669 | End to end: encoded replies cut into chunks in any way come out of the reader as trees for those replies, without error |
| `RespPrint.PrintAfterReadIff` | thirdparty/hiredis/read.c:264-487 | The exact condition for the other direction: printing a value that was read gives back the bytes it was read from if and only if they pass the tests the reader leaves out: each bulk body ends in a line end, no length is negative, the line of a null is empty, that of a boolean is t or f |
| `RespPrint.ParsedPrintable` | thirdparty/hiredis/read.c:264-487 | Whatever bytes are read, the value has a printed form and nests no deeper than the reader allows |
| `RespPrint.EncodedIsPrinted` | thirdparty/hiredis/read.c:264-487 | The printer writes only that form, to its last byte and whatever follows |
| `RespPrint.BulkTrailerIgnored` | thirdparty/hiredis/read.c:381-398 | A bulk string followed by two bytes other than CR LF is read; printing it gives other bytes |
| `RespPrint.NegativeLengthIsNull` | thirdparty/hiredis/read.c:372-378 | A bulk length of -1 is read as a null, which is printed in its own form |
| `RespPrint.NullTextIgnored` | thirdparty/hiredis/read.c:313-317 | A null line with text in it is read as a null |
| `RespPrint.BoolTextIgnored` | thirdparty/hiredis/read.c:318-322 | A boolean line with any other text is read as false |
| `Decimal.String2ll` | thirdparty/hiredis/read.c:159-220 | The loop with its unsigned overflow tests computes the strict parse |
| `Decimal.ParseLLExact` | thirdparty/hiredis/read.c:147-220 | The strict parse accepts exactly the canonical decimal spellings of the numbers from -2^63 to 2^63-1, each as its number |
| `Decimal.ParseLLOfIntText` | thirdparty/hiredis/read.c:159-220 | Parsing undoes printing for every 64-bit number |
| `Decimal.IntTextInjective` | thirdparty/hiredis/sds.c:432-490 | Two numbers with the same spelling are equal |
| `Decimal.Sdsll2str` | thirdparty/hiredis/sds.c:432-461 | The canonical spelling of a signed number, the minimum included, terminated, in at most 21 bytes |
| `Decimal.Sdsull2str` | thirdparty/hiredis/sds.c:464-490 | The canonical spelling of an unsigned number, terminated, in at most 21 bytes |
| `Decimal.ReverseInPlace` | thirdparty/hiredis/sds.c:449-459 | The bytes of the number are reversed in place, the others kept |
| `Decimal.IntTextWidth` | thirdparty/hiredis/sds.c:428-429 | No 64-bit number needs more than 20 characters |
| `Decimal.CountDigits` | thirdparty/hiredis/hiredis.c:266-276 | The number of decimal digits, four at a turn |
| `Decimal.DigitCount` | thirdparty/hiredis/hiredis.c:266-276 | A number has at most k digits exactly when it is less than 10^k |
| `Commands.FormatCommandArgv` | thirdparty/hiredis/hiredis.c:599-635 | The command bytes for any argument list, in a buffer of exactly the precomputed size, terminated |
| `Commands.FormatSdsCommandArgv` | thirdparty/hiredis/hiredis.c:546-588 | The same bytes as the other formatter, in a string whose length is the precomputed one |
| `Commands.FillCommand` | thirdparty/hiredis/hiredis.c:616-631 | The fill ends exactly at the precomputed length |
| `Commands.TotalLength` | thirdparty/hiredis/hiredis.c:609-614 | The sum of the precomputed lengths is the length of the command |
| `Commands.BulkLen` | thirdparty/hiredis/hiredis.c:279-281 | The length of one encoded argument, whatever its bytes |
| `Commands.CommandParses` | thirdparty/hiredis/hiredis.c:599-635 | The reader recovers exactly the arguments, whatever bytes they hold, and leaves what follows |
| `Commands.CommandInjective` | thirdparty/hiredis/hiredis.c:599-635 | Different argument lists give different commands |
| `CommandShape.CommandIs` | thirdparty/hiredis/hiredis.c:599-635 | Byte by byte: a line with the number of arguments, and for each argument a line with its length, its bytes and a line end |
| `CommandScan.NextArgumentExact` | thirdparty/hiredis/async.c:617-629 | From the start of any argument the scan finds exactly that argument and goes on at the next one, also when arguments hold dollar signs, CR or NUL; after the last it finds none |
| `CommandScan.TakeApart` | thirdparty/hiredis/async.c:673-691 | Repeated scanning recovers exactly the argument list |
| `CommandScan.StrToLReads` | thirdparty/hiredis/async.c:624 | The length in front of a line end is read as printed |
| `Templates.FormatTemplate` | thirdparty/hiredis/hiredis.c:283-511 | The output is the command of the format split at its own spaces with the values put in afterwards, so a value never splits or vanishes |
| `Templates.Collect` | thirdparty/hiredis/hiredis.c:304-471 | The building loop collects exactly those arguments and their total encoded length |
| `Templates.TemplateIsArgv` | thirdparty/hiredis/hiredis.c:339-344 | For any values, empty ones and ones with spaces or percent signs included, the all-%b format and the argv formatters agree |
| `TemplateMeaning.FormatMeans` | thirdparty/hiredis/hiredis.c:304-471 | From the other side: words of plain bytes, percent signs and values, written as a format with any gaps, give exactly the arguments those words mean; a value never splits, an empty one leaves nothing |
| `TemplateMeaning.LonePercent` | thirdparty/hiredis/hiredis.c:329-351 | A percent sign at the very end stands for itself |
| `Templates.BuildConversion` | thirdparty/hiredis/hiredis.c:329-351 | One %s, %b or %% adds the value, or one percent sign, to the current argument |
| `Templates.BuildSpace` | thirdparty/hiredis/hiredis.c:305-318 | A space ends the current argument if it was begun, and is otherwise skipped |
| `SdsStrings.Sds.MakeRoomFor` | thirdparty/hiredis/sds.c:194-240 | Contents and terminator stay, the requested space is free, the header can hold the new sizes; without need nothing moves |
| `SdsStrings.Sds.RemoveFreeSpace` | thirdparty/hiredis/sds.c:248-272 | Contents stay and no free space is left, under the smallest fitting header |
| `SdsStrings.Sds.CatLen` | thirdparty/hiredis/sds.c:379-388 | The contents are the concatenation, terminated; no reallocation if it fits |
| `SdsStrings.Sds.CpyLen` | thirdparty/hiredis/sds.c:408-417 | The contents are the copied bytes, terminated |
| `SdsStrings.Sds.SdsRange` | thirdparty/hiredis/sds.c:723-749 | The contents are the inclusive slice, negative indices counting from the end and clamped at the first byte |
| `SdsStrings.Sds.CatFmt` | thirdparty/hiredis/sds.c:582-676 | The contents gain the formatted text, byte by byte with room before every write |
| `SdsStrings.Sds.Convert` | thirdparty/hiredis/sds.c:623-660 | A conversion is printed as its canonical text |
| `SdsMeaning.FormatMeans` | thirdparty/hiredis/sds.c:582-676 | Texts are put in as they are, numbers in decimal, and any other byte behind a percent sign as itself, for small and capital letters and every value of their types |
| `SdsMeaning.RangeAt` | thirdparty/hiredis/sds.c:723-749 | The slice index by index: negative indices count from the end, and what lies outside is cut off |
| `SdsMeaning.GrownIs` | thirdparty/hiredis/sds.c:206-210 | The allocation doubles below one megabyte and grows by one megabyte from there on |
| `SdsMeaning.ReqTypeIs` | thirdparty/hiredis/sds.c:57-67 | The header type for every size, with the thresholds of the source |
| `SdsStrings.Sds.SetLen` | thirdparty/hiredis/sds.h:132-154 | The length read back is the one stored, if the header is wide enough; the header type stays |
| `SdsStrings.Sds.IncLen` | thirdparty/hiredis/sds.h:156-179 | The length grows by the increment, if the header is wide enough; the header type stays |
| `SdsStrings.Sds.SetAlloc` | thirdparty/hiredis/sds.h:199-218 | The capacity read back is the one stored, except in the five-bit header that has none |
| `SdsStrings.Sds.Avail` | thirdparty/hiredis/sds.h:106-130 | Free space is capacity less length for every header type |
| `SdsStrings.ReqType` | thirdparty/hiredis/sds.c:57-67 | The chosen header type can hold the requested size |
| `SdsSplit.SplitLen` | thirdparty/hiredis/sds.c:804-851 | The token array holds the pieces between separators, all within the slots allocated; null for an empty separator, none for an empty string |
| `SdsSplit.SplitThenJoin` | thirdparty/hiredis/sds.c:804-841 | Joining the pieces with the separator gives the string back |
| `SdsSplit.TokensAreFree` | thirdparty/hiredis/sds.c:804-841 | No piece contains the separator |
| `SdsSplit.JoinSds` | thirdparty/hiredis/sds.c:1097-1106 | The strings with the separator between them |
| `SdsSplit.SplitAndJoin` | thirdparty/hiredis/sds.c:804-851 | Splitting and joining any non-empty string by any non-empty separator, in place, is the identity |
| `SdsQuote.QuoteThenSplit` | thirdparty/hiredis/sds.c:942-1049 | The reference splitter returns, from the quoted forms of any byte strings joined by single spaces, exactly those strings |
| `SdsQuote.QuoteAndSplit` | thirdparty/hiredis/sds.c:867-1106 | The code itself: quoting any byte strings, NUL bytes included, joining the results by spaces and splitting that line gives exactly the strings |
| `SdsQuote.QuotedLineHasNoNul` | thirdparty/hiredis/sds.c:867-890 | The joined quoted forms hold no NUL byte, whatever the strings hold, so the line is a C string to the splitter |
| `SdsQuote.CatRepr` | thirdparty/hiredis/sds.c:867-890 | The quoted form is appended: special characters escaped, unprintable bytes as hexadecimal |
| `SdsQuote.SplitLine` | thirdparty/hiredis/sds.c:942-1058 | The splitter computes the tokens of the line, or null for unbalanced quotes |
| `SdsQuote.ScanToken` | thirdparty/hiredis/sds.c:952-1036 | The scan of one token ends where the quoting rules say, with the unescaped text, or fails |
| `SdsQuote.ReadsRepr` | thirdparty/hiredis/sds.c:958-997 | A quoted form in front of a blank or the end is one token, with the original bytes |
| `SdsWords.LineSplits` | thirdparty/hiredis/sds.c:942-1049 | From the other side: a line of words, bare or with an end in double or single quotes, with any escapes, splits into exactly the arguments that the words mean |
| `SdsWords.UnbalancedFails` | thirdparty/hiredis/sds.c:952-1049 | A double quote that is not closed, or closed in front of anything but a blank, spoils the whole line |
| `SdsWords.BlanksSkipped` | thirdparty/hiredis/sds.c:949-950 | Blanks in front of a line are skipped, vertical tabs and form feeds included |
| `SdsWords.ReprWrites` | thirdparty/hiredis/sds.c:867-890 | The quoting printer writes each byte by its own letter, as itself or in hexadecimal, and the result is a word that means the byte string |
| `Dict.Run` | thirdparty/hiredis/dict.c:88-256 | Any sequence of add, replace, delete and find on a new table, growing on the way, is answered as a finite map answers it, and leaves that map |
| `Dict.Dict.Add` | thirdparty/hiredis/dict.c:135-154 | A new key is added and an existing one refused; every entry stays in the bucket of its hash, the count is exact |
| `Dict.Dict.Replace` | thirdparty/hiredis/dict.c:160-179 | The key maps to the new value; the result says whether it is new |
| `Dict.Dict.Delete` | thirdparty/hiredis/dict.c:182-210 | The key is gone, every other entry stays where it is; the result says whether it was there |
| `Dict.Dict.Find` | thirdparty/hiredis/dict.c:243-256 | The entry of the key, or none exactly when the map lacks it |
| `Dict.Dict.Expand` | thirdparty/hiredis/dict.c:88-132 | A rehash keeps every entry, ends with the old table empty and gives a power-of-two size; too small a size is refused |
| `Dict.Dict.ExpandIfNeeded` | thirdparty/hiredis/dict.c:295-303 | Afterwards there is a free slot; the table doubles only when full |
| `Dict.Dict.KeyIndex` | thirdparty/hiredis/dict.c:320-337 | -1 exactly for a present key, otherwise the bucket the new entry belongs in |
| `Dict.NextPower` | thirdparty/hiredis/dict.c:306-315 | The least power of two that is at least 4 and at least the request |
| `Dict.MaskIsMod` | thirdparty/hiredis/dict.c:96-118 | Masking with the size less one is reduction modulo a power-of-two size |
| `Dict.GenHashFunction` | thirdparty/hiredis/dict.c:53-59 | The 32-bit hash, wrap-around included |
| `Dict.HashClosed` | thirdparty/hiredis/dict.c:50-59 | The hash in closed form: 5381 and the bytes behind it in base 33, modulo 2^32 |
| `DictIteration.Walk` | thirdparty/hiredis/dict.c:258-286 | A full walk in which the caller deletes any entries just returned visits every entry present at the start exactly once, and deletes only those |
| `DictIteration.DictIterator.DictNext` | thirdparty/hiredis/dict.c:268-286 | The entries still to come are returned in order, one a call |
| `DictIteration.DictIterator.DeleteReturned` | thirdparty/hiredis/dict.c:182-210 | Deleting the returned entry does not disturb the entries still to come |
| `PubSub.Recognise` | thirdparty/hiredis/async.c:646-668 | Recognising a request from the formatted bytes, with the p-variant and the case-insensitive prefix tests, agrees with recognising it from its arguments |
| `PubSub.ClassifyIs` | thirdparty/hiredis/async.c:657-693 | Which commands these are, letter by letter: SUBSCRIBE with a name, UNSUBSCRIBE and MONITOR in any mixture of cases, with or without a P in front; every other command is ordinary |
| `PubSub.SubscribeExactIff` | thirdparty/hiredis/async.c:667-684 | One SUBSCRIBE leaves every count exact if and only if each name new to the table meets a count not carried over from another name |
| `PubSub.OneNameExact` | thirdparty/hiredis/async.c:667-684 | With one name the counts stay exact |
| `PubSub.SubscribeCovers` | thirdparty/hiredis/async.c:667-684 | Whatever the names, no count becomes too small |
| `PubSub.TwoNamesInexact` | thirdparty/hiredis/async.c:667-684 | A concrete command of two names whose second count is too large by one |
| `PubSub.SubscribedKeys` | thirdparty/hiredis/async.c:667-691 | Exactly the named entries are added or replaced, with the callback of the command |
| `AsyncRuns.ExactlyOnceInOrder` | thirdparty/hiredis/async.c:213-498 | In every run without SUBSCRIBE and MONITOR, for every behaviour of the callbacks: callbacks leave the queue in the order of their commands, the k-th with the k-th reply, or NULL where none came; the functions that ran are exactly those of the callbacks delivered, once each; at teardown none is left |
| `AsyncTeardown.FreeingFrees` | thirdparty/hiredis/async.c:251-358 | In every run: a context that was asked to be freed is freed, unless automatic freeing is off, the connection has failed and no callback waits any more, or a timeout is still in its loop |
| `AsyncTeardown.StrandedIff` | thirdparty/hiredis/async.c:251-358 | The exact condition, per event: a context not yet asked to be freed ends the event asked and not freed if and only if the event is a timeout that is not idle, a callback it ran called free, and automatic freeing is off when its loop has ended |
| `AsyncTeardown.StrandedRunIff` | thirdparty/hiredis/async.c:251-358 | The exact condition over runs: the context is in that state if and only if such an event occurred and nothing has freed it since |
| `AsyncTeardown.LoopEndsIff` | thirdparty/hiredis/async.c:604-606 | The exact condition, for every context and every set of callbacks: the loop of a timeout ends if and only if, for some k, commands are refused already, or one of the next k callbacks frees or disconnects, or k callbacks use up the functions queued now and all that those k add, counting NULL callbacks, SUBSCRIBE and MONITOR as the queue does |
| `AsyncTeardown.StopsEnds` | thirdparty/hiredis/async.c:604-606 | A loop that stops does so after at most as many turns as callbacks are queued and commands issued by those k callbacks |
| `AsyncTeardown.EndsStops` | thirdparty/hiredis/async.c:604-606 | A loop that ends within n turns was stopped by what at most n callbacks do |
| `AsyncTeardown.TimeoutLoopsIff` | thirdparty/hiredis/async.c:587-613 | A timeout that is not idle stays in its loop for any number of turns if and only if no k stops it |
| `AsyncTeardown.ResubmittingLoops` | thirdparty/hiredis/async.c:604-606 | A callback that sends its command again when it gets NULL keeps a timeout in its loop for any number of turns |
| `AsyncTeardown.WriteLeaves` | thirdparty/hiredis/async.c:552-568 | A successful write never frees the context, not even when it flushes the last byte of a disconnect |
| `AsyncTeardown.NextReadFrees` | thirdparty/hiredis/async.c:427-434 | The next read, even one without a reply, then frees it, unless automatic freeing is off |
| `AsyncTeardown.FreeingNotFreed` | thirdparty/hiredis/async.c:337-341 | A concrete run that shows the exception: automatic freeing off, a callback frees the context during a timeout, and it stays allocated |
| `AsyncRuns.ClosingIsFinal` | thirdparty/hiredis/async.c:648 | Once disconnecting or freeing, no later event or callback has a command accepted |
| `AsyncRuns.SubscriptionCounts` | thirdparty/hiredis/async.c:360-418 | In every run: a table with entries means subscribed mode; while the server answers in order, each name with replies to come keeps its entry, and the counts are exact if each SUBSCRIBE named one channel or was otherwise clean |
| `AsyncRuns.WireIsCommands` | thirdparty/hiredis/async.c:706 | Bytes sent and bytes waiting are together the accepted commands, whole and in order |
| `AsyncRuns.Teardown` | thirdparty/hiredis/async.c:261-303 | Freeing runs exactly the callbacks still registered, each once with NULL: the queue, then the doubtful ones, then both tables |
| `AsyncRuns.CleanDisconnectCompletes` | thirdparty/hiredis/async.c:427-434 | When the reply loop of a read ends, a disconnect with nothing left to send or to answer has freed the context, unless automatic freeing is off; a write that flushes the last byte leaves that to the next read |
| `AsyncRuns.PushKeeps` | thirdparty/hiredis/async.c:360-418 | A push message keeps every invariant: the counts follow the replies, and subscribed mode ends only with both tables empty |
| `AsyncRuns.MessageCounts` | thirdparty/hiredis/async.c:386-400 | A message changes the count of an entry and the replies its name waits for alike |
| `AsyncRuns.HandleSettles` | thirdparty/hiredis/async.c:420-613 | Every event leads from a context where all invariants hold to another one, whatever the callbacks do meanwhile |
| `AsyncRuns.RoutedRuns` | thirdparty/hiredis/async.c:446-481 | After a reply was routed and its callback has run, the replies are in step with the callbacks again |
| `AsyncPush.PushRouted` | thirdparty/hiredis/async.c:369-418 | What a push message does, read off its elements, however many: the first letter selects the table, the second element is the key; the callback is that of the key, a confirmation counts down, an unsubscription at zero takes the entry away, the last one ends the subscribed mode, and a missing count or text fails the assertion |
| `AsyncPush.PushReaches` | thirdparty/hiredis/async.c:369-481 | The function of that entry runs with the message, before anything that follows from it |
| `AsyncFailure.FailureGivesUp` | thirdparty/hiredis/async.c:503-583 | A refused connection, a failed read or write and a protocol error: the context takes no more commands, and with automatic freeing on it is freed after every callback of the queue, the doubtful list and both tables has run exactly once with NULL |
| `AsyncFailure.ProtocolErrorGivesUp` | thirdparty/hiredis/async.c:492-498 | The same for a read that ends in a protocol error behind replies, as of the state after these |
| `AsyncFailure.SpontaneousErrorGivesUp` | thirdparty/hiredis/async.c:446-459 | The same for an error reply that no command waits for |
| `AsyncFailure.TimeoutGivesUp` | thirdparty/hiredis/async.c:587-613 | The same for a timeout that is not idle, after every queued callback has run with NULL, if its loop ends |
| `AsyncFailure.RunFails` | thirdparty/hiredis/async.c:503-613 | In every run: a failure that is met gives the connection up, and no command is accepted after it |
| `AsyncFailure.NobodyForgotten` | thirdparty/hiredis/async.c:261-342 | With automatic freeing on and without SUBSCRIBE and MONITOR, a run that ends in a failure has answered every command it accepted |
| `AsyncEffects.CommandEffects` | thirdparty/hiredis/async.c:634-712 | What a command changes, field by field and by the letters of its first argument; refused ones change nothing |
| `AsyncEffects.EmptyReadEffects` | thirdparty/hiredis/async.c:427-440 | A read without a reply completes a disconnect when nothing is left to send or to answer, not before, and otherwise changes nothing outside monitor mode |
| `AsyncEffects.WriteEffects` | thirdparty/hiredis/async.c:552-568 | A write sends from the front of the output buffer as much as the socket takes, and changes nothing else |
| `AsyncEffects.FreeEffects` | thirdparty/hiredis/async.c:309-314 | Freed by the user, every waiting callback runs once with NULL, at once |
| `AsyncEffects.DisconnectEffects` | thirdparty/hiredis/async.c:350-358 | Disconnected by the user: at once without replies to come, otherwise only flags |
| `AsyncEffects.DeliverEffects` | thirdparty/hiredis/async.c:235-258 | A context whose callback called free is torn down as soon as the callback returns, and only then |
| `AsyncReplies.RepliesInOrder` | thirdparty/hiredis/async.c:420-498 | In every run whose reads are on an established connection: the replies received are the first of those the reads bring, all of them unless the connection failed or the context ended, and without SUBSCRIBE and MONITOR the k-th goes to the k-th accepted command, or NULL where none came |
| `AsyncReplies.RunReceives` | thirdparty/hiredis/async.c:420-498 | What a run takes from its reads: the beginning of what they bring, everything while the context goes on, nothing after it failed |
| `Conversation.Converse` | thirdparty/hiredis/async.c:420-550 | From bytes to callbacks, on the real reader and the real context: whatever chunks the bytes arrive in and whatever else happens in between, the context goes through a run whose reads bring exactly the replies that the arrived bytes stand for, and the k-th command gets the k-th of them |
| `AsyncRouting.RoutedToOwnIff` | thirdparty/hiredis/async.c:446-481 | The exact condition for one reply: the call it causes is that of the callback it is meant for, or none, if and only if a callback that was not looked up for it, but left in the loop variable or put back into the queue for MONITOR, is that same function, or NULL where there is none |
| `AsyncRouting.GuardInSubscribedMode` | thirdparty/hiredis/async.c:360-418 | In subscribed mode without MONITOR: if and only if its name has an entry, or for a reply that is no array a doubtful callback is left, or the variable still holds NULL |
| `AsyncRouting.GuardInMonitorMode` | thirdparty/hiredis/async.c:436-439 | For a line of MONITOR that finds the queue empty: if and only if the variable holds the callback of MONITOR |
| `AsyncRouting.ReadRoutedIff` | thirdparty/hiredis/async.c:420-498 | The exact condition for a read: each reply ran the callback it was meant for and no other if and only if every reply met that guard; and these are all the calls with a reply that the read adds |
| `AsyncRouting.RunRoutedIff` | thirdparty/hiredis/async.c:420-498 | The same for whole runs, from the creation of the context, with SUBSCRIBE and MONITOR |
| `ReplyFaults.ForeignReplyRunsEntry` | thirdparty/hiredis/async.c:386-412 | A concrete run that breaks it: a client subscribes to one channel and unsubscribes from another; the confirmation, a message and the answer about the other channel, read together, all run the callback of the first |
| `ReplyFaults.LineToOtherCommand` | thirdparty/hiredis/async.c:436-444 | A concrete run: a line of MONITOR behind the answer to another command, in one read, goes to the callback of that command |
| `ReplyFaults.EmptyReadLosesLine` | thirdparty/hiredis/async.c:436-439 | A concrete run: after a read that completes no reply, the second reply to MONITOR reaches no callback, because the loop has put NULL into the queue; without that read it arrives |
| `ReplyFaults.PipelineAbortsIff` | thirdparty/hiredis/async.c:390-412 | The exact condition under a server that answers in order: with all subscriptions confirmed and callbacks that make no calls, the answers to a pipeline of UNSUBSCRIBE fail the assertion of the reply loop if and only if some name follows the one that was the last subscription |
| `ReplyFaults.TwoUnsubscribesAbort` | thirdparty/hiredis/async.c:461 | A concrete run: subscribed to one channel, a client that unsubscribes from it and from another in a pipeline is aborted by the second answer |
| `AsyncSafety.SubmitKeeps` | thirdparty/hiredis/async.c:634-712 | Submitting a command keeps every invariant, from inside a callback or outside |
| `AsyncSafety.RunQueued` | thirdparty/hiredis/async.c:235-258 | Running the oldest queued callback with the reply it is due keeps every invariant, whatever calls it makes |
| `AsyncSafety.RunGrows` | thirdparty/hiredis/async.c:251-258 | One run is logged once, and while commands are refused it changes nothing else |
| `AsyncProtocol.FreeContext` | thirdparty/hiredis/async.c:261-303 | Only reached on a closing context that is not freed and in no callback; it ends freed with an empty queue |
| `AsyncProtocol.DisconnectNow` | thirdparty/hiredis/async.c:317-342 | Only reached after an error or with no callback left; afterwards commands are refused, and the context is freed unless automatic freeing is off |
| `AsyncProtocol.DrainReplies` | thirdparty/hiredis/async.c:267-268 | Teardown refuses commands, so its loop empties the queue in as many turns as the queue has callbacks, whatever these do |
| `AsyncProtocol.RunQueue` | thirdparty/hiredis/async.c:251-258 | A callback adds at most the commands it issues, none when closing, and leaves the connection, the error and the freeing alone |
| `AsyncProtocol.SomeWalk` | thirdparty/hiredis/dict.c:268-286 | There is an order of iteration as the theorems about teardown take one |
| `AsyncContexts.Serve` | thirdparty/hiredis/async.c:94-748 | A context in the heap, from its creation through any events, goes through exactly the run the theorems speak about |
| `AsyncContexts.AsyncContext.FormattedCommand` | thirdparty/hiredis/async.c:634-712 | The accepted or refused step of the protocol, on the bytes of the formatted command |
| `AsyncContexts.AsyncContext.CommandArgv` | thirdparty/hiredis/async.c:738-748 | The same from an argument list, by way of the formatter |
| `AsyncContexts.AsyncContext.SubscribeNames` | thirdparty/hiredis/async.c:667-691 | The scanning loop registers every name with the count the source gives it |
| `AsyncContexts.AsyncContext.RunCallback` | thirdparty/hiredis/async.c:251-258 | The callback step of the protocol, with calls back into the context |
| `AsyncContexts.AsyncContext.FreeContext` | thirdparty/hiredis/async.c:261-303 | The teardown step of the protocol |
| `AsyncContexts.AsyncContext.Free` | thirdparty/hiredis/async.c:309-314 | From a callback only the flag, otherwise the teardown |
| `AsyncContexts.AsyncContext.DisconnectNow` | thirdparty/hiredis/async.c:317-342 | The disconnect step of the protocol, its assertion included |
| `AsyncContexts.AsyncContext.Disconnect` | thirdparty/hiredis/async.c:350-358 | From a callback or with replies to come only the flags, otherwise the disconnect |
| `AsyncContexts.AsyncContext.GetSubscribeCallback` | thirdparty/hiredis/async.c:360-418 | The entry and callback a push message is for, or the failing assertion |
| `AsyncContexts.AsyncContext.ProcessCallbacks` | thirdparty/hiredis/async.c:420-498 | The reply loop of the protocol, with the callback variable that outlives a turn |
| `AsyncContexts.AsyncContext.HandleRead` | thirdparty/hiredis/async.c:537-550 | The read event of the protocol |
| `AsyncContexts.AsyncContext.HandleWrite` | thirdparty/hiredis/async.c:570-583 | The write event of the protocol |
| `AsyncContexts.AsyncContext.HandleConnect` | thirdparty/hiredis/async.c:503-520 | The connection attempt: established, refused, or still in progress |
| `AsyncContexts.AsyncContext.HandleTimeout` | thirdparty/hiredis/async.c:587-613 | The timeout event of the protocol, with a loop that callbacks can extend, watched for any number of turns |
| `CallbackLists.CallbackList.Push` | thirdparty/hiredis/async.c:213-233 | The linked list gains the callback at its end |
| `CallbackLists.CallbackList.Shift` | thirdparty/hiredis/async.c:235-249 | The linked list gives up its oldest callback |
| `ClientFraming.CapacityIff` | LHJSampleClientCS/PacketBufferManager.cs:20-34 | No traffic of frames up to MaxPacketSize in chunks up to a given length, drained after each write, is ever refused if and only if no chunk is longer than MaxPacketSize and two chunks fit beside a frame less one byte |
| `ClientFraming.HearsAllIff` | LHJSampleClientCS/Form1.cs:283-329 | What the buffer is for: the receiving thread, which ignores what Write returns, hears every complete stream of frames exactly as it was sent, in chunks up to a given length, if and only if that same condition holds |
| `ClientFraming.HeardIff` | LHJSampleClientCS/Form1.cs:298-318 | For each stream: the thread hears exactly the frames sent if and only if no write was refused |
| `ClientFraming.RefusedLoses` | LHJSampleClientCS/Form1.cs:298 | After a refused write fewer bytes are heard than were sent, whatever the reads make of the rest |
| `ClientFraming.ClientRefuses` | LHJSampleClientCS/Form1.cs:264 | With the numbers of the client, a buffer of 80960 bytes, frames up to 1024 and reads of up to 2048 bytes: 78 full frames that arrive one by one, and then two in one read, which is refused though the buffer is empty |
| `ClientFraming.ClientCapacity` | LHJSampleClientCS/ClientNetwork.cs:49 | With the numbers of the client every stream is heard if and only if a read of the socket brings at most 1024 bytes; it asks for 2048 |
| `ClientFraming.ReadLoopDrains` | LHJSampleClientCS/Form1.cs:300-318 | On the beginning of a stream of frames the inner loop reads every complete frame, without an exception |
| `ClientFraming.LookAt` | LHJSampleClientCS/PacketBufferManager.cs:60-78 | What a read gives, by the bytes: the first two are a signed length, low byte first |
| `ClientFraming.ReadLoopAt` | LHJSampleClientCS/Form1.cs:300-318 | A frame too short for its own header ends the thread, an empty one only the loop; any other is a packet |
| `ClientFraming.RefusedIsSkipped` | LHJSampleClientCS/Form1.cs:298 | To a thread that has read all there is, a refused chunk is as if it had never been sent |
| `ClientFraming.ThrowEnds` | LHJSampleClientCS/Form1.cs:298-318 | After an exception nothing more is heard |
| `ClientFraming.SomeTrafficRefused` | LHJSampleClientCS/PacketBufferManager.cs:36-58 | For every size and chunk length outside that condition, traffic of full frames that ends in a refused write |
| `ClientFraming.Lossless` | LHJSampleClientCS/PacketBufferManager.cs:36-78 | Inside that condition every chunk is taken; and as long as every chunk is, the frames read are exactly the first frames sent and the unread bytes are the rest |
| `Framing.DrainExact` | LHJSampleClientCS/PacketBufferManager.cs:60-78 | Draining gives the frames in order and leaves less than the next one |
| `ClientFraming.SessionExact` | LHJSampleClientCS/PacketBufferManager.cs:36-101 | The same from any state between chunks, whatever the length of the chunks |
| `PacketBuffers.PacketBufferManager.Init` | LHJSampleClientCS/PacketBufferManager.cs:20-34 | Accepts exactly the sizes of at least two maximal frames with positive parameters; fresh arrays, but positions as before, so a second Init is in order exactly when the old write position lies inside the new size |
| `PacketBuffers.PacketBufferManager.Write` | LHJSampleClientCS/PacketBufferManager.cs:36-58 | Refused exactly when the source is too short or the bytes do not fit behind the write position; otherwise appended, with compaction when little space is left |
| `PacketBuffers.PacketBufferManager.Read` | LHJSampleClientCS/PacketBufferManager.cs:60-78 | What is at the front of the unread bytes: nothing, a frame, or the exception for a negative length and, with a header size of 1, for a length field that reaches behind the array |
| `PacketBuffers.PacketBufferManager.BufferRelocate` | LHJSampleClientCS/PacketBufferManager.cs:92-101 | The unread bytes move to the front by way of the second array, unchanged |
| `PacketBuffers.PacketBufferManager.ReadAll` | LHJSampleClientCS/Form1.cs:300-318 | The inner loop on the real arrays computes the reference loop, on any bytes: a negative length or a frame shorter than its header ends it with an exception |
| `PacketBuffers.Receive` | LHJSampleClientCS/Form1.cs:283-329 | The receiving thread on the real arrays, any chunks, the result of Write ignored: it hears what the reference thread hears |
| `PacketBuffers.User.SetPacketData` | LHJSample/User/User.cpp:63-84 | The bytes are stored after the unread ones, compacting at the end of the buffer with an overlap-safe copy; the result is false exactly when that copy would run past the end |
| `PacketBuffers.User.Compact` | LHJSample/User/User.cpp:67-80 | The unread bytes move to the front unchanged |
| `PacketBuffers.User.GetPacket` | LHJSample/User/User.cpp:86-114 | The next packet exactly when header and body are there |
| `PacketBuffers.ServeConnection` | LHJSample/User/User.cpp:63-114 | Any order of storing and getting on the real buffer computes the reference session, including whether and where it overruns |
| `ServerFraming.ServeExact` | LHJSample/User/User.cpp:63-114 | In any order of storing and getting, as long as unread and new bytes fit each time, the packets got are the first ones sent, in order, and nothing is lost |
| `ServerFraming.OverrunIff` | LHJSample/User/User.cpp:63-84 | Compaction saves every copy that can be saved: the copy runs past the end of the buffer if and only if unread and new bytes together exceed it |
| `ServerFraming.RoundsOverrunIff` | LHJSample/PacketManager.cpp:66-72 | One packet got for each chunk stored, on chunks of two packets: k rounds after j packets left over overrun if and only if the packets then held exceed the buffer |
| `ServerFraming.SmallPacketsOverrun` | LHJSample/PacketManager.cpp:66-72 | Traffic the server can receive that overruns: full receives of 256 bytes (MAX_SOCKBUF, ServerNetwork/Define.h line 6), two packets of 128 bytes in each, one packet got after each; 62 fit, the 63rd runs past the end |
| `ServerFraming.ServerCapacityIff` | LHJSample/User/User.cpp:63-114 | Drained after every chunk, no traffic of packets up to one size in chunks up to another ever overruns if and only if a longest chunk fits beside a longest packet less one byte |
| `ServerFraming.ServerSafe` | LHJSample/User/User.cpp:63-114 | With receives of up to 256 bytes and every complete packet got after each, the buffer is never overrun if and only if packets have at most 7841 bytes |
| `ServerFraming.DrainedExact` | LHJSample/User/User.cpp:63-114 | With that much room the packets come out in order and the rest of the stream is in the buffer |
| `ServerFraming.GetExact` | LHJSample/User/User.cpp:86-114 | A packet is got if and only if all of it has arrived |
| `ServerFraming.PacketGot` | LHJSample/User/User.cpp:86-114 | Byte by byte: every packet of at least five bytes that starts with its length, headers alone included, is got as soon as its last byte has arrived and not before |
| `ServerFraming.PacketAt` | LHJSample/User/User.cpp:86-114 | What is got from any buffer, by its first two bytes |
| `ServerFraming.StoredAt` | LHJSample/User/User.cpp:63-84 | Unread bytes move to the front only when the end of the buffer is reached |
| `ServerFraming.ServeInBounds` | LHJSample/User/User.cpp:63-84 | As long as no copy overruns, which is the case exactly when unread and new bytes fit each time, read position, write position and buffer size stay in order |
| `Pools.MemPoolT.Alloc` | thirdparty/tinyxml2/tinyxml2.h:375-399 | An item that is not live, the head of the free list or the first of a new block; free and live items stay a partition of all items of all blocks |
| `Pools.MemPoolT.Free` | thirdparty/tinyxml2/tinyxml2.h:401-411 | The item goes from the live ones to the front of the free list; NULL is ignored |
| `Pools.MemPoolT.ThreadedBlock` | thirdparty/tinyxml2/tinyxml2.h:377-388 | The items of a new block form one chain in memory order |
| `Pools.MemPoolT.Clear` | thirdparty/tinyxml2/tinyxml2.h:355-367 | All blocks, items and counters are gone |
| `Pools.MemPoolT.Scribble` | thirdparty/tinyxml2/tinyxml2.h:443-446 | Whatever a user writes into a live item, the free list is intact |
| `Pools.Exercise` | thirdparty/tinyxml2/tinyxml2.h:375-411 | In any sequence of allocations and frees the items held are distinct and exactly the live ones, and free plus live is blocks times items per block |
| `Pools.TakenPartition` | thirdparty/tinyxml2/tinyxml2.h:390-393 | Taking the head of the free list keeps the partition |
| `Pools.GivenPartition` | thirdparty/tinyxml2/tinyxml2.h:401-411 | Giving a live item back keeps the partition |
| `DynArrays.DynArray.EnsureCapacity` | thirdparty/tinyxml2/tinyxml2.h:303-316 | Room for the request, with the contents kept across the move to twice that size |
| `DynArrays.DynArray.Push` | thirdparty/tinyxml2/tinyxml2.h:226-231 | The contents gain the element at the end |
| `DynArrays.DynArray.PushArr` | thirdparty/tinyxml2/tinyxml2.h:233-240 | The contents gain unset elements at the end and keep the others |
| `DynArrays.DynArray.Pop` | thirdparty/tinyxml2/tinyxml2.h:242-246 | The last element is taken off |
| `DynArrays.DynArray.SwapRemove` | thirdparty/tinyxml2/tinyxml2.h:282-287 | The last element takes the place of the removed one |
| `DynArrays.SwapRemoveBag` | thirdparty/tinyxml2/tinyxml2.h:282-287 | SwapRemove takes away one occurrence of the removed element and keeps all others |

## Left out

- Sockets, TLS, the Winsock shim, event-loop adapters and examples: reads, writes and connection attempts are events with arbitrary outcomes.
- The connect and disconnect callbacks of the asynchronous client, and event-library hooks: they do not re-enter the context.
- Memory exhaustion: allocation succeeds, except an element vector of more than 2^31 - 1 entries, which fails as out of memory.
- RespReader.RedisReader.ProcessAggregateItem: a count above 2^31 - 1 counts as out of memory; where such a vector could be allocated, the source would go on with a count narrowed to `int`.
- ReplyObjects.CreateDouble: the numeric value `dval` is not modelled; which texts `strtod` accepts is a parameter, and the text is kept.
- ReplyObjects.RepUnique: that no two replies share an element vector, and so that `freeReplyObject` frees each once, is not stated.
- Lengths and positions beyond `int`: the model does not narrow them, nor the announced length of a bulk string where `unsigned long` has 32 bits and 2^32 would wrap to 0; formatted commands are at most 2^31 - 1 bytes long.
- Formats other than `%s`, `%b` and `%%` in command templates: they are handed to `vsnprintf`, which is not part of this model.
- SdsStrings.Sds.CatFmt: a format that ends in a lone `%` is excluded; the source then steps past the terminator, and what it reads there is not part of the string.
- Error texts: only the kind of an error is kept.
- The callbacks' own effects outside the context, and their `privdata` beyond its identity.
- AsyncContexts.AsyncContext.HandleTimeout: a loop of a timeout is watched for a number of turns given with the event, any number; a context whose loop is still going on then takes no further event.
- AsyncContexts.AsyncContext.GetSubscribeCallback: a push message whose third element is missing where the code reads it counts as the failing assertion, and assertions fail before the entry is removed.
- AsyncRouting.RunRoutedIff: which reply is a line of MONITOR is not decided by its text; a reply that finds a command at the head of the queue counts as the answer to it, and only the first MONITOR counts, as servers answer no other.
- ReplyFaults.PipelineAbortsIff: for callbacks that make no calls on the context.
- AsyncContexts.AsyncContext.FormattedCommand: only bytes that formatting an argument list with at least one argument gives; raw bytes that no formatter produced, which `nextArgument` may fail to take apart, are excluded.
- The tables of subscription callbacks are maps in `AsyncContexts`; that `dict.c` implements maps is what `Dict` and `DictIteration` prove.
- AsyncContexts.AsyncContext.HandleRead: the replies of a read are given with the event; `Conversation.Converse` composes it with the reader, on connections already established when bytes arrive.
- Dict.Dict.Add: tables of 2^30 buckets or more are excluded, because `_dictKeyIndex` returns the bucket as an `int`; the same holds for `Dict.Dict.Replace`.
- Dict.Run: fewer than 2^28 calls, which keeps the table below those 2^30 buckets.
- The client's `ArraySegment` shares the receive buffer; the model copies the frame when it is read.
- Parallel use of the server's buffer: `PacketManager` guards its queue with a lock, the buffer itself is modelled for one thread. What a copy past the end of the buffer overwrites is not modelled; the session ends there.
- Integer overflow of the pool's counters, and destructors.
- Locales: `tolower`, `isprint`, `isspace` and `strncasecmp` are those of the "C" locale.
- Chat rooms, user states, packet dispatch, configuration, logging, forms, and the XML parser and printer.
