# Verified models of the sketch base library and its JSON engine

The project models five parts of the repository and proves what they promise.

- **The lock-free bounded queue and the trace dispatcher.** `QueueMachine` is a step relation: any
  number of calls, one atomic read or compare-and-swap per step, every interleaving. `BoundedFifo` is
  the sequential queue it is compared with, `QueueHistories` what callers see of either, `QueueDelivery`
  the order with any number of consumers, `QueueProgress` what a call achieves by its own steps. `Dispatcher`
  runs producers, the writer thread and shutdown on top of the same machine; `DispatcherReleases` is what it
  keeps whatever the tags are, `DispatcherDelivery` that records reach the sinks and shutdown ends.
- **The JSON object table.** `Hashtable` works on heap nodes with the links of both circular lists;
  `BucketLayout` says how the buckets partition the main list, and `OrderedMap` is the specification.
- **The JSON printer and parser.** `Utf8`, `JsonString` and `JsonText` define the text format as
  functions; `JsonRoundTrip` and `JsonParsed` prove the two directions. `JsonGrammar` is the grammar of RFC 8259
  on its own, with what a text stands for; `JsonGrammarReads` and `JsonGrammarSound` prove that the parser reads
  exactly its texts, `JsonPrinted` and `JsonLayout` that the printer writes them, and how. `JsonStream`, `JsonLexer` and
  `JsonParser` are the stream, scanner and recursive-descent parser as they run, tied to those
  functions; `JsonDump` and `JsonGraph` are the printer as it runs, on a graph of containers with
  visited flags. `JsonEndToEnd` composes the two. `JsonEqual` is the comparison of values, `JsonArray`
  the element table of arrays with its references, `StrBuffer` the growing byte buffer.
- **The ring buffer.** `CircularBuffer` works on an array of optional cells; `RingView` sees a ring as
  a line that starts at any cell.
- **Copy-on-write strings.** `CowString` has handles, counted blocks and in-place append;
  `SharedData` the capacity arithmetic; `Transcoder` the two converters.

## How to read the model

- Queue calls have identifiers instead of threads; a thread makes one call after the other, so this
  allows more interleavings than threads do. Steps are sequentially consistent, and the counters
  do not wrap.
- The ring index is the remainder of the ticket (`QueueMachine.SlotIsRemainder`). A tag is any hash
  with the low bit set. First-in first-out with one consumer needs the tags of different tickets in one
  slot to differ: the hypothesis `DistinctTags`. It is necessary and sufficient
  (`QueueHistories.FifoIffDistinctTags`): with a clash, some pop finds the queue empty though more has been
  pushed than popped. With 32-bit hashes tags must clash in the end (`QueueLimits.HashRunsOut`).
- Conservation and the release of records at most once need no such hypothesis; that no wake-up is lost and
  that nothing leaks are stated under it.
- With several consumers delivery is in order exactly if the queue has one slot
  (`QueueDelivery.InOrderIffOneSlot`), whatever the tags are; the comment at
  include/SkBase/Queue.hxx:136-143 admits the disorder.
- Debug-only assertions are modelled as the release build: the branch returns.
- An alerted wait of the dispatcher is a wake-up without the event. Shutdown starts draining when
  the writer has exited and every producer has finished.
- Outcomes of allocators are parameters (`rehashMem`, `pairMem`, `fails`, `allocates`). In the object table a key too
  long for the pair's size to be computed counts as a failed pair allocation.
- `dropped` lists the values whose reference the object table gives up. The hash is any function.
- Masks and shifts of constants are written as remainders and quotients; `Bits.MaskIsRemainder` proves the
  one whose width varies.
- `long` has 32 bits, as on the only compilers the port header admits
  (3rd_party/jansson/jansson_port.h:13-15), and strtol saturates. The two tests against 64-bit
  extremes at 3rd_party/jansson/src/load.c:503-509 therefore never hold and are not in the model.
- `json_loads` reads up to the first NUL: its input is the bytes before it. `json_loadb` reads all bytes.
- A NUL that ends a number or a word is lost when it is pushed back, because it is also the mark of
  an empty stream buffer (3rd_party/jansson/src/load.c:156, 225-226); `JsonStream.Stream.Unget` and
  `JsonText.AfterUnget` say so.
- `JsonGrammar` departs from RFC 8259 where the code does: numbers have no fraction and no exponent, a number or a
  word swallows one NUL behind it, and integers are cut to a 32-bit word.
- Room for a push (`QueueProgress`) means that fewer items than the capacity are stored and not yet passed by
  m_gets. An item counts as stored once its slot CAS has won, also while m_puts lags behind it.
- A sink is any function of what was written, whether it has refused a chunk, and the next chunk. A refused
  chunk leaves the text as it was. A reliable sink refuses nothing; a sticky one refuses everything after its
  first refusal, so a dump into it that succeeds has written the whole text.
- A graph to dump may hold ill-formed strings and keys, as json_string_nocheck and
  json_object_set_new_nocheck make them. An ill-formed string value makes the dump fail; an ill-formed key does
  not, because the result of writing a key is ignored (3rd_party/jansson/src/dump.c:334).
- `json_equal` is modelled on values: its shortcut for two equal pointers gives the same answer, by reflexivity.
- Insertion into the ring buffer copies its arguments first: an argument inside the buffer is not modelled.
- `is_uninitialized` (include/SkBase/CircularBuffer.hxx:851-854) is wrong for some free cells;
  `CircularBuffer.Buffer.UninitializedIffFree` says exactly for which. `linearize` only asks it where it is right,
  and the insertions of one item do not ask it.
- `JSON_SORT_KEYS` does not sort in this code (3rd_party/jansson/src/dump.c:268-324), so no order is claimed for it.

## Model

| member | source | states |
|---|---|---|
| BoundedFifo.FirstInFirstOut | include/SkBase/Queue.hxx:71-158 | the sequential queue behind the results: what left plus what is inside is what was inside plus what entered, in order, and the bound holds |
| QueueMachine.Tag | include/SkBase/Queue.hxx:161-178 | a tag made for a ticket is recognised as vacant |
| QueueMachine.SlotIsRemainder | include/SkBase/Queue.hxx:88-118 | the slot of a ticket is its remainder by the capacity |
| QueueMachine.SlotsDiffer | include/SkBase/Queue.hxx:86-89 | tickets less than a round apart never share a slot |
| QueueConservation.InitialInv | include/SkBase/Queue.hxx:39-54 | the constructor establishes the invariant: each slot holds the tag of its first ticket |
| QueueConservation.StepInv | include/SkBase/Queue.hxx:76-158 | every atomic step of every call keeps conservation, the counter bounds, and tags at home |
| QueueConservation.Conservation | include/SkBase/Queue.hxx:76-158 | any producers and consumers, any tags: items stored are those in slots plus those taken; a push stored its item once if it returned true and nothing if false; a pop took just what it returns; counters stay within the capacity; a tag in a slot was made for a ticket of that slot |
| QueueConservation.FullAndEmptyAreTrue | include/SkBase/Queue.hxx:86-158 | "full" and "empty" are returned only when the counters differ by the capacity, or not at all, at the deciding read |
| QueueLinearizability.StepSimulates | include/SkBase/Queue.hxx:76-158 | each step of a single-consumer run is a step of the sequential queue or none |
| QueueLinearizability.Linearizable | include/SkBase/Queue.hxx:76-158 | every single-consumer run with distinct tags is a run of the bounded FIFO with the same outcomes |
| QueueLinearizability.TakenInOrder | include/SkBase/Queue.hxx:112-158 | items are taken in the order stored; histories are ahead of the counters by one at most, and by none when no call is in progress |
| QueueLinearizability.StaleProducersNeverStore | include/SkBase/Queue.hxx:84-106 | a slot CAS stores exactly when its ticket is the next one |
| QueueLinearizability.CounterPassesStoredTickets | include/SkBase/Queue.hxx:93-95 | m_puts moves past a ticket only after its item was stored, whoever moves it |
| QueueProgress.CounterMovesOn | include/SkBase/Queue.hxx:93-105 | after the counter step of any push or pop, whether it won its slot or lost it, the counter is past its ticket, by one move of its own or by none; any number of producers and consumers, any tags |
| QueueProgress.PushProgress | include/SkBase/Queue.hxx:76-110 | in every reachable single-consumer state with distinct tags, a push in progress that runs alone returns within 11 of its own steps; it returns true and has stored its item exactly if it had stored it or there is room |
| QueueProgress.NewPushProgress | include/SkBase/Queue.hxx:76-110 | the same for a push that begins there: 8 steps after its first |
| QueueProgress.PopProgress | include/SkBase/Queue.hxx:112-158 | a pop in progress that runs alone returns within 5 steps, with the next item in the order of storing, or null exactly if the counters are equal |
| QueueProgress.NewPopProgress | include/SkBase/Queue.hxx:112-158 | the same for a pop that begins there |
| QueueHistories.FifoIffDistinctTags | include/SkBase/Queue.hxx:76-158 | all single-consumer runs over n tickets look to their callers like the bounded FIFO, real-time order included, if and only if no two of those tickets share a slot and a tag |
| QueueHistories.RunSeen | include/SkBase/Queue.hxx:76-158 | the begins and returns of a run with distinct tags are those of the sequential run that explains it |
| QueueHistories.ClashUnexplained | include/SkBase/Queue.hxx:84-108 | from any two tickets with one slot and tag, a run that no sequential run explains: its last pop returns null with an item stored and not taken |
| QueueLimits.AccountedIffDistinctTags | include/SkBase/Queue.hxx:88-91 | under the same condition, and only then, the counters at rest differ by the items stored and not taken |
| QueueLimits.ClashLosesItem | include/SkBase/Queue.hxx:84-108 | from any two tickets with one slot and tag, a run in which a stale producer stores an item that the counters do not enclose |
| QueueLimits.HashRunsOut | include/SkBase/Queue.hxx:161-168 | 32-bit hashes cannot give distinct tags for ever |
| QueueDelivery.InOrderIffOneSlot | include/SkBase/Queue.hxx:131-144 | with any number of consumers and any tags, every run delivers in stored order if and only if the capacity is one |
| QueueDelivery.OneSlotRun | include/SkBase/Queue.hxx:112-158 | with one slot, what is stored is what was taken and then the slot's item |
| QueueDelivery.TwoConsumersReorder | include/SkBase/Queue.hxx:131-144 | for every larger capacity and any tags, a run of two consumers that delivers the item of the next round before the second |
| Dispatcher.ActGood | src/SkBase/Trace.cxx:89-143 | every action of producers, writer and shutdown keeps the dispatcher's invariant, tags being distinct |
| Dispatcher.NoLostWakeup | src/SkBase/Trace.cxx:127-142 | while tags are distinct, for a writer asleep without the event pending: if records are queued, a producer has yet to call set(); if none has, all were written |
| DispatcherReleases.ReleasedOnce | src/SkBase/Trace.cxx:218-223 | whatever the tags are, each release, by discarding, writing or draining, gives up one reference that is still held |
| DispatcherReleases.ActSafe | src/SkBase/Trace.cxx:89-143 | whatever the tags are, every action keeps each live record in one place: with its push call, in one slot, or in one hand |
| Dispatcher.NothingLeaks | src/SkBase/Trace.cxx:202-237 | while tags are distinct, after shutdown no record is left unreleased, and sinks have seen records in the order stored |
| DispatcherDelivery.WriterRunsUntilStopped | src/SkBase/Trace.cxx:123-146 | in every run, for any tags, the writer has exited only if stopFlag was set |
| DispatcherDelivery.WriterWorks | src/SkBase/Trace.cxx:89-146 | while stopFlag is clear and the producers are done, each action of the writer uses up a bounded amount of work |
| DispatcherDelivery.WriterDelivers | src/SkBase/Trace.cxx:89-146 | while tags are distinct: from every reachable world with stopFlag clear and every producer done, the writer alone comes to rest having given every stored record to the sinks, in order |
| DispatcherDelivery.WriterRunsDeliver | src/SkBase/Trace.cxx:89-146 | and every run of the writer alone is that short, and has delivered everything when it cannot go on |
| DispatcherDelivery.ShutdownEnds | src/SkBase/Trace.cxx:200-222 | while tags are distinct: with stopFlag set and every producer done, the writer, alerted if it waits, and the closing thread reach the end of the shutdown, and no record is left |
| DispatcherDelivery.ShutdownRunsEnd | src/SkBase/Trace.cxx:200-222 | and they cannot go on for ever or stop before it |
| Bits.MaskIsRemainder | 3rd_party/jansson/src/hashtable.c:111-112 | masking a hash with 2^k - 1 is its remainder by 2^k, so rehash and lookup agree on the bucket |
| BucketLayout.InsertTiles | 3rd_party/jansson/src/hashtable.c:63-76 | inserting a pair keeps the buckets a partition of the list into runs |
| BucketLayout.RemoveTiles | 3rd_party/jansson/src/hashtable.c:118-127 | so does removing one |
| OrderedMap.GetAfterSet | 3rd_party/jansson/src/hashtable.c:217-282 | set then get: the new value for the key, the old ones for the others, keys stay distinct |
| OrderedMap.GetAfterDel | 3rd_party/jansson/src/hashtable.c:268-288 | delete then get: nothing for the key, the old values for the others |
| OrderedMap.KeyOrderAfterSet | 3rd_party/jansson/src/hashtable.c:233-264 | overwriting moves no key; a new key goes last |
| OrderedMap.KeyOrderAfterDel | 3rd_party/jansson/src/hashtable.c:118-132 | deleting closes the gap in the key order |
| Hashtable.ListInsert | 3rd_party/jansson/src/hashtable.c:44-50 | relinking inserts the node into the ring and leaves it closed |
| Hashtable.ListRemove | 3rd_party/jansson/src/hashtable.c:52-56 | relinking removes the node from the ring |
| Hashtable.Table.constructor | 3rd_party/jansson/src/hashtable.c:189-209 | an empty valid table of eight buckets |
| Hashtable.Table.InsertToBucket | 3rd_party/jansson/src/hashtable.c:63-76 | the pair enters the list next to its bucket's run; the bucket and link invariants hold |
| Hashtable.Table.FindPair | 3rd_party/jansson/src/hashtable.c:78-101 | walking one bucket finds the key if and only if the table has it |
| Hashtable.Table.Get | 3rd_party/jansson/src/hashtable.c:268-282 | the value the ordered map holds for the key |
| Hashtable.Table.Del | 3rd_party/jansson/src/hashtable.c:104-135 | deletion in the ordered map, -1 exactly if the key is missing, the value's reference given up |
| Hashtable.Table.UnlinkFromBucket | 3rd_party/jansson/src/hashtable.c:118-127 | the pair leaves its bucket and the main list; all runs stay right |
| Hashtable.Table.Rehash | 3rd_party/jansson/src/hashtable.c:151-186 | twice the buckets, same map, same order, all invariants again; a failed allocation changes nothing |
| Hashtable.Table.Rethread | 3rd_party/jansson/src/hashtable.c:175-183 | walking the old links while overwriting them meets every node once and ends |
| Hashtable.Table.Set | 3rd_party/jansson/src/hashtable.c:217-266 | set in the ordered map, or no change exactly when a needed allocation fails; the order grows by one exactly when there are as many pairs as buckets, so there are never more pairs than buckets |
| Hashtable.Table.Clear | 3rd_party/jansson/src/hashtable.c:290-305 | an empty valid table; every value's reference given up once |
| Hashtable.Table.DropAll | 3rd_party/jansson/src/hashtable.c:137-149 | the walk of the main list gives up the values in its order |
| Hashtable.Table.ForEach | 3rd_party/jansson/src/hashtable.c:307-346 | iteration visits the entries in first-insertion order |
| Utf8.EncodeIsChar | 3rd_party/jansson/src/utf.c:19-53 | the encoding of a scalar value is a UTF8-char of section 4 of RFC 3629 and decodes to it |
| Utf8.DecodeIsScalar | 3rd_party/jansson/src/utf.c:91-145 | every UTF8-char is the encoding of the scalar value it decodes to |
| Utf8.EncodeAllWellFormed | 3rd_party/jansson/src/utf.c:173-195 | encodings of scalar values are well-formed strings |
| Utf8.ScalarsOf | 3rd_party/jansson/src/utf.c:147-171 | every well-formed string is the encoding of a list of scalar values |
| Utf8.EncodeAllInjective | 3rd_party/jansson/src/utf.c:147-171 | and of one list only |
| Utf8.EncodeInto | 3rd_party/jansson/src/utf.c:19-53 | -1 exactly outside the code space; otherwise the encoding at the given place and nothing else changed |
| Utf8.CheckFull | 3rd_party/jansson/src/utf.c:91-145 | after the first byte announced the size, it accepts exactly the characters of the standard and returns their code point |
| Utf8.RangeIsTable | 3rd_party/jansson/src/utf.c:124-139 | the range and overlong tests on the value are the byte table of the standard |
| Utf8.Iterate | 3rd_party/jansson/src/utf.c:147-171 | fails exactly if no character is at the front; otherwise gives it and its length |
| Utf8.CheckString | 3rd_party/jansson/src/utf.c:173-195 | accepts exactly the well-formed strings |
| Utf8.Decompose | 3rd_party/jansson/src/utf.c:147-171 | iterating visits the scalar values whose encoding the string is, and fails exactly on ill-formed strings |
| JsonString.StringRoundTrip | 3rd_party/jansson/src/dump.c:59-150 | for every flag, both scanner passes over the escaped string give back its bytes, surrogate pairs included |
| JsonString.DecodedFits | 3rd_party/jansson/src/load.c:364-376 | the decoded text is never longer than its source |
| JsonString.DecodedWellFormed | 3rd_party/jansson/src/load.c:381-453 | an accepted token of a well-formed input decodes to well-formed text |
| JsonString.EscapeWellFormed | 3rd_party/jansson/src/dump.c:81-141 | escaped text is well formed and has no NUL; with ensure-ascii it is ASCII |
| JsonString.Hex4RoundTrip | 3rd_party/jansson/src/load.c:286-307 | four printed hexadecimal digits read back as the number |
| JsonRoundTrip.IntegerScans | 3rd_party/jansson/src/load.c:465-532 | a printed integer scans to its value saturated to the range of strtol |
| JsonRoundTrip.TextScans | 3rd_party/jansson/src/load.c:309-461 | a printed string scans to its bytes, and the scanner stops right after it |
| JsonRoundTrip.ValueRoundTrip | 3rd_party/jansson/src/load.c:770-839 | inside any text and at any depth, parsing a printed value gives it back saturated, or fails exactly if it is too deep or has a NUL that is not allowed |
| JsonRoundTrip.ItemsRoundTrip | 3rd_party/jansson/src/load.c:730-768 | the same for the elements of an array, from any position |
| JsonRoundTrip.MembersRoundTrip | 3rd_party/jansson/src/load.c:651-728 | the same for the members of an object, keys and order included |
| JsonRoundTrip.PrintPlain | 3rd_party/jansson/src/dump.c:152-368 | printed text is well-formed UTF-8 without NUL, and ASCII with ensure-ascii |
| JsonRoundTrip.ParsePrinted | 3rd_party/jansson/src/load.c:841-874 | parsing a printed value, for all printer and parser flags, gives the saturated value or fails, and when which |
| JsonRoundTrip.RoundTripIffInLimits | 3rd_party/jansson/src/load.c:463-874 | the same value comes back if and only if the root is allowed, integers fit strtol, nesting is at most 2048 and NULs are allowed or absent |
| JsonParsed.CutAtAscii | 3rd_party/jansson/src/load.c:149-210 | a well-formed text may be cut before any ASCII byte, so tokens of it are well formed |
| JsonParsed.ScanGood | 3rd_party/jansson/src/load.c:534-600 | tokens of well-formed input: texts well formed, numbers in range, and well-formed input left |
| JsonParsed.ParsedRoundTrips | 3rd_party/jansson/src/load.c:841-874 | whatever the parser returns, from any input, is legal, within its own limits, and printing and parsing it again returns it unchanged |
| JsonStream.NoSentinel | 3rd_party/jansson/src/load.c:21-23 | no byte of a well-formed string, read as a signed char, is the EOF or the ERROR sentinel |
| JsonStream.BackAgain | 3rd_party/jansson/src/load.c:192-223 | taking a byte back restores line, column and position |
| JsonStream.PlaceCounts | 3rd_party/jansson/src/load.c:192-203 | lines and columns count the characters delivered, the position counts bytes |
| JsonStream.Stream.Get | 3rd_party/jansson/src/load.c:149-210 | delivers the longest well-formed prefix of the source byte by byte, then for ever the end or the error |
| JsonStream.Stream.Refill | 3rd_party/jansson/src/load.c:156-188 | loads one character, or finds the end or an undecodable byte |
| JsonStream.Stream.Unget | 3rd_party/jansson/src/load.c:212-228 | the byte is delivered again, except that a NUL is lost; the place goes back |
| JsonLexer.DecodeUnicodeEscape | 3rd_party/jansson/src/load.c:286-307 | the value of four hexadecimal digits |
| JsonLexer.SecondPass | 3rd_party/jansson/src/load.c:364-456 | the second pass decodes as specified, fails exactly on a lone surrogate, and writes within the buffer |
| JsonParser.Lexer.FirstPass | 3rd_party/jansson/src/load.c:319-362 | finds the closing quote behind valid escapes and saves the token up to it, or fails |
| JsonParser.Lexer.ScanString | 3rd_party/jansson/src/load.c:309-461 | token and rest are those of the specification |
| JsonParser.Lexer.ScanNumber | 3rd_party/jansson/src/load.c:465-532 | token, rest and result code are those of the specification, leading zeros and fractions included |
| JsonParser.Lexer.Scan | 3rd_party/jansson/src/load.c:534-600 | every call reads the next token of the specification |
| JsonParser.Lexer.ParseValue | 3rd_party/jansson/src/load.c:770-839 | returns what the specification returns, leaves the stream after the value and the depth as it was; it terminates by the depth limit |
| JsonParser.Lexer.ParseArray | 3rd_party/jansson/src/load.c:730-768 | the same for arrays |
| JsonParser.Lexer.ParseObject | 3rd_party/jansson/src/load.c:651-728 | the same for objects, duplicate and NUL keys included |
| JsonParser.Lexer.ParseJson | 3rd_party/jansson/src/load.c:841-874 | the parser as it runs computes the function of the round-trip results |
| JsonGrammar.LastWins | 3rd_party/jansson/src/load.c:679-712 | of members with the same name the last value counts, at the place of the first |
| JsonGrammarReads.LetterReads | 3rd_party/jansson/src/load.c:306-460 | both passes read every way to write a character: itself, a short escape, four digits of either case, a surrogate pair |
| JsonGrammarReads.NumberReads | 3rd_party/jansson/src/load.c:465-532 | digits without a leading zero are read as the decimal number, cut to a 32-bit word |
| JsonGrammarReads.SyntaxReads | 3rd_party/jansson/src/load.c:770-839 | every text of the grammar is read to its value, and what follows it is left, at any depth; or it fails, exactly by the limits |
| JsonGrammarSound.ValueSpelled | 3rd_party/jansson/src/load.c:770-839 | what parse_value has accepted is spelled as the grammar says |
| JsonGrammarSound.TextParses | 3rd_party/jansson/src/load.c:841-874 | for a whole input that starts with a text of the grammar the result is determined: its value, if flags, limits and the trailer admit it, else none |
| JsonGrammarSound.ParsesIffStandsFor | 3rd_party/jansson/src/load.c:841-874 | the parser returns v if and only if the input is white space, a text of the grammar of RFC 8259 for v within the flags and limits, and an allowed trailer |
| JsonDump.DumpIndent | 3rd_party/jansson/src/dump.c:33-57 | chunks of at most 32 spaces add up to the indent, a 32-bit word |
| JsonDump.DumpString | 3rd_party/jansson/src/dump.c:59-150 | it succeeds on well-formed text only; into a sink that refused nothing it always does then, and has written the quoted escaped text |
| JsonPrinted.LettersWritten | 3rd_party/jansson/src/dump.c:59-150 | each character of a string is written as itself unless JSON or a flag forbids it; then it has its short escape, or else four upper-case digits or two times four |
| JsonPrinted.IntegerWritten | 3rd_party/jansson/src/dump.c:168-180 | an integer is written in decimal, without leading zeros and without minus zero |
| JsonPrinted.PrintStandsFor | 3rd_party/jansson/src/dump.c:152-368 | for every flag, the text written is a text of the grammar and stands for the very value, with the escapes that are called for and no other |
| JsonLayout.PrintIsNeat | 3rd_party/jansson/src/dump.c:33-57 | told from the bytes alone: outside strings, the white space between two bytes is exactly what they, the open brackets and the flags call for; nothing leads or trails |
| JsonLayout.PrintIsLaid | 3rd_party/jansson/src/dump.c:33-57 | at every position: a line break is followed by (open brackets, less one before a closing one) times the indent spaces, as a 32-bit word; none without indent; no white space if also compact; a slash has its backslash exactly if asked for |
| JsonGraph.CleanIffNoCycle | 3rd_party/jansson/src/dump.c:192-196 | the walk meets no container twice on a branch if and only if none in reach can be reached from itself |
| JsonGraph.DumpableIff | 3rd_party/jansson/src/dump.c:152-233 | the walk can be dumped if and only if, besides, no string value in reach is ill-formed |
| JsonGraph.UnfoldLegal | 3rd_party/jansson/src/dump.c:152-368 | legal nodes unfold to a legal value, shared containers once per way to reach them |
| JsonGraph.Dump | 3rd_party/jansson/src/dump.c:152-368 | on every graph, legal or not, and into every sink it returns, and clear visited flags are clear again; success means a dumpable walk; if the sink refused nothing, every dumpable walk succeeds and a legal value's text has been written |
| JsonGraph.DumpArray | 3rd_party/jansson/src/dump.c:185-233 | the same for an array whose flag has been set |
| JsonGraph.DumpObject | 3rd_party/jansson/src/dump.c:235-362 | the same for an object, keys in iteration order |
| JsonGraph.DumpCallback | 3rd_party/jansson/src/dump.c:387-395 | from clear flags it fails exactly if the root is refused, a container in reach can be reached from itself, a string value in reach is ill-formed, or else only if the sink refused something; into a sink that stays refusing, success means the whole text |
| JsonGraph.LegalAccepted | 3rd_party/jansson/src/value.c:105-110 | on a graph whose strings and keys were checked when they were set, no string is ill-formed and the value is legal |
| JsonGraph.IllFormedKeyDumps | 3rd_party/jansson/src/dump.c:334 | an object with an ill-formed key for which the dump returns 0 |
| JsonGraph.KeyLost | 3rd_party/jansson/src/dump.c:334-337 | a sink that refuses quotes: the key is lost and the member goes on |
| JsonEndToEnd.DumpsThenLoads | 3rd_party/jansson/src/dump.c:370-395 | dumping any graph and loading the text: no text exactly if the root is refused, or a cycle or an ill-formed string value is in reach; otherwise, keys being legal, the unfolded value comes back if and only if it keeps to the parser's limits |
| JsonEndToEnd.Loads | 3rd_party/jansson/src/load.c:882-921 | json_loads parses the bytes before the first NUL, and returns v if and only if they are a JSON text for v |
| StrBuffer.Buffer.Grow | 3rd_party/jansson/src/strbuffer.c:66-89 | on 32-bit or 64-bit words the overflow tests fire exactly when a size would not fit, so no computed size wraps; the new size is twice the old one, or what is needed if that is more; the text is kept |
| StrBuffer.Buffer.AppendBytes | 3rd_party/jansson/src/strbuffer.c:64-96 | the bytes are appended and the NUL kept, or nothing changes, exactly when no room is left and none can be had |
| StrBuffer.Buffer.Pop | 3rd_party/jansson/src/strbuffer.c:98-107 | takes back the last byte appended; NUL from an empty buffer |
| JsonArray.Elements.Grow | 3rd_party/jansson/src/value.c:409-436 | room for the wanted elements in the old table or a larger one, or failure with the table unchanged |
| JsonArray.Elements.Set | 3rd_party/jansson/src/value.c:370-392 | replaces an element; on every path, each reference handed in is in the table or given up |
| JsonArray.Elements.Append | 3rd_party/jansson/src/value.c:438-461 | appends, or gives the value's reference up exactly if the value is the array itself or no room can be had |
| JsonArray.Elements.Insert | 3rd_party/jansson/src/value.c:463-501 | inserts at the index, by moving in place or across tables; references as before |
| JsonArray.Elements.Remove | 3rd_party/jansson/src/value.c:503-523 | removes the element and gives its reference up |
| JsonArray.Elements.Clear | 3rd_party/jansson/src/value.c:525-539 | empties the array and gives up each element's reference once |
| JsonArray.Elements.Extend | 3rd_party/jansson/src/value.c:541-561 | appends the other array's elements with a reference to each, also when the other array is the same one |
| JsonEqual.EqualIffSameMeaning | 3rd_party/jansson/src/value.c:881-905 | json_equal holds exactly for values that are the same up to member order |
| JsonEqual.SameTable | 3rd_party/jansson/src/value.c:254-270 | equal sizes and one-way inclusion make two objects the same table |
| JsonEqual.EqualIsEquivalence | 3rd_party/jansson/src/value.c:881-905 | reflexive, symmetric and transitive |
| JsonEqual.DeepCopy | 3rd_party/jansson/src/value.c:289-312 | a deep copy is the same value, order included, and equal to its source |
| CircularBuffer.Buffer.PushBack | include/SkBase/CircularBuffer.hxx:756-777 | appends and keeps the last `capacity` elements |
| CircularBuffer.Buffer.PushFront | include/SkBase/CircularBuffer.hxx:779-799 | prepends and keeps the first `capacity` elements |
| CircularBuffer.Buffer.PopBack | include/SkBase/CircularBuffer.hxx:495-501 | removes the last element and destroys its cell |
| CircularBuffer.Buffer.PopFront | include/SkBase/CircularBuffer.hxx:503-509 | removes the first element and destroys its cell |
| CircularBuffer.Buffer.OffsetIsPlace | include/SkBase/CircularBuffer_details.hxx:398-403 | linearize_pointer gives an iterator's place in the sequence |
| CircularBuffer.Buffer.InsertN | include/SkBase/CircularBuffer.hxx:1228-1275 | for content A ++ B split at the position: the last `capacity` elements of A ++ items ++ B, for every wrap |
| CircularBuffer.Buffer.InsertRange | include/SkBase/CircularBuffer.hxx:1202-1226 | the same for a forward range of any length |
| CircularBuffer.Buffer.InsertCopies | include/SkBase/CircularBuffer.hxx:527-547 | the same for n copies of an item |
| CircularBuffer.Buffer.Insert | include/SkBase/CircularBuffer.hxx:1140-1176 | the same for one item, at the front of a full buffer too; the iterator returned points at it, and exactly the elements' cells stay constructed |
| CircularBuffer.Buffer.RInsertRange | include/SkBase/CircularBuffer.hxx:1307-1333 | reverse insertion: the first `capacity` elements of A ++ items ++ B |
| CircularBuffer.Buffer.RInsertN | include/SkBase/CircularBuffer.hxx:1314-1378 | the same once the items are cut to what fits |
| CircularBuffer.Buffer.RInsert | include/SkBase/CircularBuffer.hxx:694-741 | the same for one item; the iterator returned points at it, and exactly the elements' cells stay constructed |
| CircularBuffer.Buffer.EndCells | include/SkBase/CircularBuffer.hxx:696-741 | the flag `!full()` with which one item is inserted tells whether the first cell written is still to be constructed |
| CircularBuffer.Buffer.Erase | include/SkBase/CircularBuffer.hxx:582-598 | removes the element at the position, from the back; the iterator returned points at the one after it |
| CircularBuffer.Buffer.Rerase | include/SkBase/CircularBuffer.hxx:625-642 | the same from the front; the iterator returned points at the one before it |
| CircularBuffer.Buffer.EraseRange | include/SkBase/CircularBuffer.hxx:600-623 | A ++ removed ++ B becomes A ++ B for every wrap, a full buffer and all its content included; the cells that become free are destroyed |
| CircularBuffer.Buffer.ReraseRange | include/SkBase/CircularBuffer.hxx:644-674 | the same by moving A instead of B; the iterator returned points at the last of A |
| CircularBuffer.Buffer.UninitializedIffFree | include/SkBase/CircularBuffer.hxx:851-854 | is_uninitialized is right about a cell if and only if there is content and the cell does not lie before content in one piece |
| CircularBuffer.RotateOne | include/SkBase/CircularBuffer.hxx:347-372 | one turn of the in-place rotation keeps: placed elements, then those still in order across the gap |
| CircularBuffer.Buffer.Rotate | include/SkBase/CircularBuffer.hxx:340-378 | for every wrap position, gap and size: elements at the start of storage, and exactly their cells constructed if they were before |
| CircularBuffer.Buffer.Linearize | include/SkBase/CircularBuffer.hxx:328-384 | on every buffer, the same sequence, in one piece from the returned cell; it ends; constructed cells as before |
| CircularBuffer.Buffer.SetCapacity | include/SkBase/CircularBuffer.hxx:386-397 | the first elements that fit the new capacity |
| CircularBuffer.Buffer.RSetCapacity | include/SkBase/CircularBuffer.hxx:399-410 | the last elements that fit the new capacity |
| RingView.Later | include/SkBase/CircularBuffer.hxx:821-831 | moving the start of a ring rotates the line seen from it |
| CowString.Block.Lock | include/SkBase/RefCount.hxx:48-52 | the lock is taken exactly from a count of one |
| CowString.CountSwapped | include/SkBase/String.hxx:142-146 | swapping two handles changes no block's number of holders |
| CowString.Strings.FromUnits | include/SkBase/String.hxx:476-508 | a new handle with the text, or the shared empty block |
| CowString.Strings.Copy | include/SkBase/String.hxx:83-86 | one more handle on the block, counted; all counts stay right |
| CowString.Strings.Move | include/SkBase/String.hxx:88-92 | the new handle has the block, the source is empty |
| CowString.Strings.Destroy | include/SkBase/String.hxx:61-67 | one handle less; a block is freed exactly when its last handle goes |
| CowString.Strings.Assign | include/SkBase/String.hxx:117-129 | the handle takes the other's block; all counts stay right, self-assignment included |
| CowString.Strings.MoveAssign | include/SkBase/String.hxx:131-140 | the source becomes empty unless both already share a block |
| CowString.Strings.AppendInPlace | include/SkBase/String.hxx:252-271 | it is done exactly if no other handle holds the block and the text and its terminator fit |
| CowString.Strings.Append | include/SkBase/String.hxx:235-303 | changes the text of its own handle only; fails exactly if memory is needed and has run out |
| SharedData.LeastPower64 | include/SkBase/SharedData.hxx:23-33 | the bit trick overflows exactly from 2^63 on; below, it is the least power of two strictly above |
| SharedData.TrickIsPowerAbove64 | include/SkBase/SharedData.hxx:23-33 | as a number, the trick is the least power of two above its argument |
| SharedData.LeastPower32 | include/SkBase/SharedData.hxx:12-21 | the same for 32 bits |
| SharedData.TrickIsPowerAbove32 | include/SkBase/SharedData.hxx:12-21 | the same for 32 bits |
| SharedData.PowerAboveIsLeast | include/SkBase/SharedData.hxx:12-33 | the recursive form used by the growth rules is the least power of two above |
| SharedData.RoundUpPage | include/SkBase/SharedData.hxx:35-43 | the least whole number of pages |
| SharedData.Grow | include/SkBase/SharedData.hxx:104-128 | never less than the capacity it is asked to exceed the block of |
| SharedData.GrowTo | include/SkBase/SharedData.hxx:130-156 | at least the wanted capacity |
| SharedData.LargerIsLeast | include/SkBase/SharedData.hxx:114-125 | a small block becomes the least power of two less 12 that exceeds it, a large one whole pages, one more than it takes |
| SharedData.LargeEnoughIsLeast | include/SkBase/SharedData.hxx:143-153 | the same for a wanted size: the least such block that is not smaller |
| SharedData.GrowFills | include/SkBase/SharedData.hxx:104-156 | the capacity is what the block has room for, and no less |
| SharedData.FormatV | include/SkBase/String.hxx:367-398 | the capacity grows every round, so the retry loop ends with a block that holds the text |
| Transcoder.UnitsRoundTrip | include/SkBase/Utf8String.hxx:408-448 | any 16-bit units come back from their bytes, unpaired surrogates included |
| Transcoder.UnitIsEncoded | include/SkBase/Utf8String.hxx:416-446 | a unit that is no surrogate is written as its UTF-8 character, a surrogate as the three bytes that UTF-8 leaves out |
| Transcoder.BytesAreUtf8 | include/SkBase/Utf8String.hxx:386-454 | the bytes of a text are well formed if and only if it has no surrogate, and then they are its UTF-8 encoding |
| Transcoder.Utf8IsRead | include/SkBase/String.hxx:577-665 | UTF-8 is converted to units if and only if it has no character above 0xFFFF, and then each unit is its character |
| Transcoder.Utf16ToUtf8Len | include/SkBase/Utf8String.hxx:350-384 | the length pass counts the bytes of the text, up to a zero or a given length |
| Transcoder.FromUtf16 | include/SkBase/Utf8String.hxx:386-454 | the fill pass writes just the counted bytes; its early exits never happen |
| Transcoder.Utf8ToUtf16Len | include/SkBase/String.hxx:510-575 | the length pass counts the units of the text, or, if the given length cuts a character of three bytes after its second, of all bytes up to the next zero |
| Transcoder.CountAgrees | include/SkBase/String.hxx:555-570 | the count is that of the text if and only if no character of three is so cut, or a zero follows, or the text has no unit and the bytes behind it are spoilt |
| Transcoder.CutMiscounts | include/SkBase/String.hxx:555-570 | two bytes of three with more behind them: one unit is counted, and there is none |
| Transcoder.FromUtf8 | include/SkBase/String.hxx:577-665 | the fill pass stays inside the text and writes its units, unless the length pass counted none |
| Transcoder.ThereAndBack | include/SkBase/String.hxx:577-665 | converting any 16-bit text to bytes and back gives the same text |

## Left out

- The hash function and the tag hash are any functions; murmur and lookup3 are not part of this model.
- Wrap-around of the queue's counters, weaker memory orders than sequential consistency, and producers that still run during shutdown.
- The spin loop of flush, the registration of sinks, filters and formatters, and exceptions in the trace dispatcher.
- Reference counts of JSON values and the freeing of their memory, except which references the object table gives up.
- JsonGraph.Dump: what has been written when the sink refused a chunk, or when a key is ill-formed, is not stated.
- Real numbers, the flags that turn reals into integers or back, sorted keys, error messages and the text saved only for them.
- json_pack and json_unpack, and file input.
- The lexer and the printer collect their text in a sequence, not in the byte buffer of StrBuffer: they take its allocator never to fail.
- CircularBuffer.Buffer.InsertN: which cells are constructed is not stated, because is_uninitialized misses some.
- CircularBuffer.Buffer.InsertRange: the same.
- CircularBuffer.Buffer.InsertCopies: the same.
- CircularBuffer.Buffer.RInsertN: the same.
- CircularBuffer.Buffer.RInsertRange: the same.
- Input iterators, resize, and assignment from ranges of the ring buffer.
- CowString.Strings.Append: one program order; the lock decides among handles, not threads.
- Transcoder.Utf8ToUtf16Len: if the length cuts a character as described and no zero follows in memory, the code reads past the memory it was given; the model asks for a zero there.
- JsonArray.Elements.Grow: table sizes are not reduced to a machine word.
- SharedData.GrowTo: sizes are unbounded, and the header has at least 16 bytes.
- Utf8StringT handles, which repeat the code of StringT; date, time, pair and array wrappers; sockets, registry, services and the user interface.
