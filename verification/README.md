# Verification of the data collection cluster

A Dafny model of the parts of the repository whose correctness is hardest to see from the
code, with machine-checked proofs. `dafny verify dfyconfig.toml` checks everything.

| component | files | main results |
|---|---|---|
| worker thread pool | `ThreadPool`, `PoolJobs`, `PoolFree`, `WorkQueue` | an inductive invariant over every interleaving; tokens and jobs balance; every popped job is handled exactly once; destroy terminates and signals once; exactly when the free is safe |
| cluster membership | `DcServer`, `Membership` | the node table under lossy calls and time; steady nodes stay, removed nodes return; fair round robin |
| JSON | `Utf8`, `JsonLexer`, `JsonReader`, `JsonReaderObject`, `JsonDocument`, `JsonBuild`, `JsonWriter`, `JsonRoundTrip`, `JsonLong` | the table-driven parser equals the recursive one; exact integers; what an accepted text builds; tree to text to tree; what 32-bit lengths do to all of these |
| JSON texts | `JsonSpelling`, `JsonStrings`, `JsonNumbers`, `JsonLanguage`, `JsonTexts` | a grammar of JSON texts with their meaning, independent of the parsers: exactly its texts are accepted, as what they mean |
| JSON Pointer | `JsonPointer`, `PointerFrame`, `PointerText`, `PointerLanguage` | `Create` against `Get`, and what it leaves alone; exactly the spellings of names are accepted; text round trip in both forms |
| JSON memory | `ChunkAllocator` | blocks stay apart, aligned and intact; exactly when size arithmetic breaks this |
| XML text | `XmlText`, `XmlCharacters`, `XmlStrPair` | what entities, references and line ends decode to; the in-place decoder against an out-of-place one; it inverts the printer |
| XML | `XmlParser`, `XmlSpelling`, `XmlLanguage`, `XmlTexts`, `XmlPrinter`, `XmlRoundTrip` | a grammar of documents, independent of the parser: exactly its texts are accepted, as what they mean; parsing the compact print of a document gives the document |
| XML object model | `XmlDom`, `MemPool` | every node owned once; `Clear` leaves nothing; the free-list pool |

`ByteStrings` holds what they share: byte strings that read 0 at their end, as C strings do.

How the model is built:

- Code that computes is modelled by functions, code that loops or updates in place by methods
  and classes whose contracts equate the result or the new state with such a function. The
  theorems are lemmas about the functions, so they speak about the loops too.
- For what a parser accepts there is a grammar: a datatype of all spellings, a function to their
  text and one to their meaning. The parser accepts a text exactly if it is the text of a
  spelling, and yields its meaning.
- Concurrent code is a transition system. In the pool every access to shared state is one
  step, in the order of the source: the exit flag is written before the lock is taken, a
  worker runs before it is counted, and a dispatcher posts after it has unlocked. In the
  cluster time passes between any two steps and a request may be lost, or served after its
  caller gave up.
- Integers are unbounded; where the source wraps, the model wraps: 32-bit member counts, string
  and name lengths, write reserves, accumulators, character reference multipliers and pointer
  indices, 64-bit allocation sizes. Exceptions are named under "Left out".
- The bytes of the reader's stack are modelled as bytes: the table-driven parser keeps its
  frames on the stack onto which the strings are read.
- Clocks, outcomes of calls, results of thread creation and of the base allocator, and
  addresses of new nodes are parameters or nondeterministic choices.

Where the code does not keep a promise, the model keeps the code; one lemma says exactly when
the promise holds, and another shows it broken:

- An unknown entity advances the write pointer without writing (`XmlText.InPlaceExact`,
  `XmlText.UnknownEntityShows`).
- A pointer index overflow is noticed only if the sum shrinks (`PointerText.IndexExact`,
  `PointerText.OverflowMissed`).
- An allocation size near 2^64 is aligned to 0, and other sums wrap
  (`ChunkAllocator.MallocExact`, `ChunkAllocator.ReallocExact`, `ChunkAllocator.LargestSize`).
- A container of 2^32 or more members is closed with a count modulo 2^32
  (`JsonBuild.AcceptedBuildsOne`, `JsonBuild.WideText`).
- The length of a string that is read is a 32-bit number. From 2^32 - 1 bytes on, the handler
  gets the end of the string, or a pointer past it, and the rest stays on the stack, where the
  table-driven parser takes it for a frame (`JsonBuild.AcceptedBuildsOne`,
  `JsonReader.ParsersAgree`, `JsonRoundTrip.RoundTrip`, `JsonLong.LongString`).
- The room that the writer reserves for a string is computed in 32 bits, and is too small for
  some string of every length from 715827883 on (`JsonWriter.ReserveIff`,
  `JsonWriter.ReserveWraps`).
- A pointer name of 2^32 or more bytes is cut (`PointerText.RoundTrip`, `PointerText.TokenExact`).
- The multiplier of a character reference wraps, so that `&#x100000041;` is the letter A
  (`XmlText.ReferenceExact`, `XmlText.ReferenceWraps`).
- A closing tag that closes nothing ends an XML document silently
  (`XmlRoundTrip.TailIgnoredIff`, `XmlRoundTrip.StrayEndTag`).
- `PrintString` cuts off a run of more than `INT_MAX` plain bytes at the end of a string
  (`XmlPrinter.CutNothing`, `XmlPrinter.LongRun`).
- `thrmgr_destroy` can free the pool under its last worker or under a dispatch call, whether
  it waits or not (`PoolFree.FreedUnderWorkerIff`, `PoolFree.FreeSafeIff`,
  `PoolFree.FreedUnderLastWorker`, `PoolFree.FreedUnderDispatch`).
- `InsertAfterChild` follows a null pointer if the added node is the last child and follows
  the given one (`XmlDom.AfterOk`, `XmlDom.InsertAfterReadsNull`).
- The insertions do not notice that a node is put below itself (`XmlDom.AttachAcyclicIff`,
  `XmlDom.CycleClosed`).

## Model

| member | source | states |
|---|---|---|
| ThreadPool.StepKeepsInv | utils/src/swartz_thrmgr.cpp:179-387 | every atomic step of dispatch, worker and destroy, in any interleaving of any number of threads, keeps the global invariant on mutex, counters, tokens and shutdown |
| ThreadPool.RunKeepsInv | utils/src/swartz_thrmgr.cpp:179-387 | the invariant survives every finite run |
| ThreadPool.ReachableInv | utils/src/swartz_thrmgr.cpp:221-276 | it holds in every state reachable from a new pool |
| ThreadPool.TokensMatchJobs | utils/src/swartz_thrmgr.cpp:287-386 | while the pool is valid, queue length = semaphore count + dispatchers about to post + workers holding an unspent token + jobs left by a refused first thread |
| ThreadPool.PopFindsJob | utils/src/swartz_thrmgr.cpp:287-318 | a worker that goes to pop always finds a job, also while the pool is closing |
| ThreadPool.JobsInOrder | utils/src/swartz_thrmgr.cpp:309-356 | jobs popped so far followed by jobs queued are the jobs added, in order |
| PoolJobs.HandledOnce | utils/src/swartz_thrmgr.cpp:305-318 | in every reachable state the jobs popped are, as a multiset, the jobs handed to the handler and those that workers hold between the pop and the handler, and no worker is there without a job; so each popped job is handled exactly once, with its own data |
| PoolJobs.NoneLost | utils/src/swartz_thrmgr.cpp:188-318 | when destroy has waited and freed the pool, the jobs added are those handled and those left in the queue |
| PoolJobs.ResultOfDispatch | utils/src/swartz_thrmgr.cpp:339-387 | the jobs queued are those of the dispatch calls that queued them; a call that returns true has queued its job, one that returns false has not, save for as many calls as found that not even a first thread could be created |
| PoolJobs.SomeoneWorks | utils/src/swartz_thrmgr.cpp:359-382 | a dispatch call that is going to succeed gives up the lock only when a worker is alive |
| PoolJobs.NoSpareThreads | utils/src/swartz_thrmgr.cpp:359-382 | in every reachable state there are at most as many threads as dispatch calls that found no idle worker |
| PoolJobs.StepKeepsJobs | utils/src/swartz_thrmgr.cpp:179-387 | every atomic step keeps these balances |
| ThreadPool.CountersBounded | utils/src/swartz_thrmgr.cpp:287-380 | thr_idle counts the idle workers, thr_alive the live ones up to the one being counted, 0 <= thr_idle <= thr_alive <= thr_max between critical sections |
| ThreadPool.MutualExclusion | utils/src/swartz_thrmgr.cpp:188-386 | at most one thread holds pool_mutex |
| ThreadPool.NoWorkerStaysBlocked | utils/src/swartz_thrmgr.cpp:188-210 | once destroy has made its posts, every waiting worker can take a token |
| ThreadPool.SignalledOnce | utils/src/swartz_thrmgr.cpp:188-334 | pool_sem is posted at most once in any run; if destroy waited, exactly once, with thr_alive 0 and no worker left that touches the pool |
| ThreadPool.NoThreadAfterRead | utils/src/swartz_thrmgr.cpp:188-210 | after destroy has read thr_alive it never grows again, in any continuation |
| ThreadPool.ClosingStep | utils/src/swartz_thrmgr.cpp:179-387 | every step of a closing pool lowers a measure |
| ThreadPool.NeverStuck | utils/src/swartz_thrmgr.cpp:179-337 | a closing pool that is not freed always has an enabled step |
| ThreadPool.DestroyTerminates | utils/src/swartz_thrmgr.cpp:179-219 | under every schedule a closing pool makes at most a fixed number of steps, and 17 more for each dispatch call that still begins, and it can only come to rest freed |
| PoolFree.FreedUnderWorkerIff | utils/src/swartz_thrmgr.cpp:188-334 | from the state in which POOL_EXIT is written, whatever calls are under way or begin: some schedule frees the pool while its last worker has yet to post pool_sem, exactly if a worker lives, is leaving, or may still be created by a dispatch call |
| PoolFree.FreeSafeIff | utils/src/swartz_thrmgr.cpp:188-386 | from the same state, without new calls: on every schedule no thread touches the freed pool, exactly if no worker lives or leaves and every dispatch call has returned or is about to be refused under the lock |
| PoolFree.CallTooLate | utils/src/swartz_thrmgr.cpp:188-348 | a dispatch call that begins once POOL_EXIT is written can always be overtaken: some schedule frees the pool before the call has locked the mutex |
| PoolFree.FreedUntouched | utils/src/swartz_thrmgr.cpp:188-386 | in every reachable state in which the pool is freed, it is untouched from then on exactly if no worker has yet to post pool_sem and every dispatch call has returned |
| PoolFree.FreedUnderLastWorker | utils/src/swartz_thrmgr.cpp:188-334 | there is a run in which destroy frees the pool without waiting while the last worker has yet to post pool_sem |
| PoolFree.FreedUnderDispatch | utils/src/swartz_thrmgr.cpp:382-385 | there is a run in which destroy waits and frees the pool while a dispatch call has yet to post pool_sig_sem |
| WorkQueue.Queue.constructor | utils/src/swartz_thrmgr.cpp:95-105 | a new queue is empty |
| WorkQueue.Queue.Add | utils/src/swartz_thrmgr.cpp:107-136 | appends to the linked list; head, tail and item_count stay consistent |
| WorkQueue.Queue.Pop | utils/src/swartz_thrmgr.cpp:138-158 | yields and removes the first job, or reports that there is none |
| WorkQueue.Queue.Free | utils/src/swartz_thrmgr.cpp:160-175 | frees every item and terminates |
| DcServer.RegisterEffect | DcServer/src/DcServer.cpp:20-43 | registering keeps keys unique, puts the key in with the current time and leaves all other entries alone |
| DcServer.HeartBeatEffect | DcServer/src/DcServer.cpp:45-59 | a heartbeat never inserts; it refreshes exactly the entry of its key |
| DcServer.SweepEffect | DcServer/src/DcServer.cpp:118-130 | exactly the entries older than 60000 ms before the check time go |
| DcServer.EvictEffect | DcServer/src/DcServer.cpp:243-253 | exactly the entry of the failed node goes |
| DcServer.Server.RegisterWork | DcServer/src/DcServer.cpp:20-43 | the search loop computes the specified table |
| DcServer.Server.HeartBeatWork | DcServer/src/DcServer.cpp:45-59 | the same, and the reply says whether the key was present |
| DcServer.Server.SweepNodes | DcServer/src/DcServer.cpp:110-130 | erasing while iterating removes exactly the stale entries and keeps the order |
| DcServer.Server.Pick | DcServer/src/DcServer.cpp:220-232 | the index is in range after any change of the table |
| DcServer.Server.EvictNode | DcServer/src/DcServer.cpp:243-253 | the loop removes the entry of the failed node |
| DcServer.Fair | DcServer/src/DcServer.cpp:220-232 | over any k picks from an unchanged table of n nodes, from any start, each node is chosen floor(k/n) times, plus one exactly if its turn falls in the last k mod n picks |
| Membership.StepKeepsInv | DcServer/src/DcServer.cpp:20-253 | every step of server, nodes, network and clock keeps the table invariant |
| Membership.RunKeepsInv | DcServer/src/DcServer.cpp:20-253 | so does every run |
| Membership.TableOverRuns | DcServer/src/DcServer.cpp:20-139 | in every reachable state keys are unique, a key is present exactly if it registered after its last removal, entries carry their last accepted time, and none is older than the last sweep's check time less 60000 ms |
| Membership.SweptHadGap | DcServer/src/DcServer.cpp:115-130 | every removal by a sweep proves a gap of more than 60000 ms between accepted times |
| Membership.SteadyNodeStays | DcServer/src/DcServer.cpp:110-139 | over every run, a node whose accepted times are at most 60000 ms apart is never swept, and is in the table unless evicted |
| Membership.StepKeepsCalls | DcNode/src/NodeServer.cpp:167-202 | late requests and replies are never taken for those of a later call |
| Membership.BackAtSomePoint | DcNode/src/NodeServer.cpp:167-202 | from every reachable state, in a run of any length in which none of the calls of a node fails and it completes two loop rounds (three if it starts inside a round), there is a moment when the node is in the table, accepted in that run |
| Membership.BackInTwoRounds | DcNode/src/NodeServer.cpp:167-202 | if such a run lasts at most 60000 ms and the node is not evicted in it, the node is in the table at its end |
| Membership.WorkingRound | DcNode/src/NodeServer.cpp:167-202 | an undisturbed round with working calls can always be taken, and afterwards the node believes that it is registered exactly if it is |
| Membership.NodeServer.Round | DcNode/src/NodeServer.cpp:169-194 | which calls the loop body makes and what m_bregister_ok becomes |
| Membership.RoundIsLoop | DcNode/src/NodeServer.cpp:169-194 | for the same outcomes of the two calls the transition system takes the round of NodeServer.Round: flag, calls made, and nothing else |
| Utf8.DecodeEncoded | depend/rapidjson/include/encodings.h:101-176 | decoding undoes encoding for every scalar value, whatever follows |
| Utf8.EncodeDecoded | depend/rapidjson/include/encodings.h:145-176 | what decodes is the encoding of the scalar value it yields: no overlong forms, no surrogates |
| Utf8.StreamDecodes | depend/rapidjson/include/encodings.h:101-176 | repeated Decode accepts a byte string exactly if it is the concatenation of encodings of scalar values, and yields that one sequence |
| Utf8.ValidateLikeDecode | depend/rapidjson/include/encodings.h:145-206 | Validate gives the verdict of Decode and copies exactly the bytes that Decode consumes |
| JsonLexer.ParseString | depend/rapidjson/include/reader.h:990-1055 | the string loop computes the specified string, with escapes and surrogate pairs |
| JsonStrings.PiecesRead | depend/rapidjson/include/reader.h:990-1055 | every spelling of a string, of raw bytes or UTF-8 characters, two-character escapes, \u with four digits of either case and surrogate pairs, is read as the bytes it stands for |
| JsonStrings.StringSpelled | depend/rapidjson/include/reader.h:990-1055 | whatever is read as a string is such a spelling |
| JsonStrings.CharactersRead | depend/rapidjson/include/reader.h:1003-1052 | for every sequence of scalar values and every spelling of each, the string is read as their UTF-8 |
| JsonStrings.Refused | depend/rapidjson/include/reader.h:1010-1046 | control characters, unknown escapes, \u without four hexadecimal digits and a high surrogate without a low one are refused |
| JsonNumbers.NumberRead | depend/rapidjson/include/reader.h:1455-1715 | every spelling of a number is read as its value: an exact integer, or the digits that count and the power of ten of a double; or it is refused, exactly if the integer part or the exponent is too big |
| JsonNumbers.NumberSpelled | depend/rapidjson/include/reader.h:1455-1715 | whatever is read as a number is such a spelling, and ends where it ends |
| JsonNumbers.IntegerKind | depend/rapidjson/include/reader.h:1702-1715 | which of the four integer events is emitted, by sign and size |
| JsonLexer.Scan32 | depend/rapidjson/include/reader.h:1480-1507 | the 32-bit accumulator never wraps and stops just before the digit that would not fit |
| JsonLexer.Scan64 | depend/rapidjson/include/reader.h:1535-1560 | the same for 64 bits |
| JsonLexer.ScanDouble | depend/rapidjson/include/reader.h:1562-1569 | the digits of a big integer are all taken, and rejected exactly if a digit follows DBL_MAX / 10 |
| JsonLexer.ParseInteger | depend/rapidjson/include/reader.h:1468-1569 | the integer part is held exactly, in the narrowest accumulator that can |
| JsonLexer.EmitInteger | depend/rapidjson/include/reader.h:1702-1715 | two's complement negation included, the event carries the exact value |
| JsonReader.ParsersAgree | depend/rapidjson/include/reader.h:1815-2195 | for every text and all flags modelled, if no string that is read has 2^32 - 1 or more bytes, or the text is a single string: the table-driven parser gives the verdict of the recursive parser and emits the same events with the same counts, also before a rejection |
| JsonReader.RunValue | depend/rapidjson/include/reader.h:1982-2131 | from any state that expects a value, with any bytes on the stack, the table-driven parser reads a value without overlong strings as the recursive parser does, restores the stack and returns to the enclosing container |
| JsonReader.LeafStep | depend/rapidjson/include/reader.h:2028-2042 | a value that is no container, of any length: what its string leaves lies on the stack above the frames |
| JsonLong.LongString | depend/rapidjson/include/reader.h:926-980 | for every n, an array of one string of n bytes is accepted by the recursive parser; the table-driven parser accepts it, and the document holds the string, exactly if n + 1 < 2^32 |
| JsonReaderObject.Reader.PopString | depend/rapidjson/include/reader.h:926-980 | the string and its terminator are pushed, and as many bytes as the 32-bit length counts are popped: which bytes the handler gets, and which stay |
| JsonReaderObject.Reader.ReadString | depend/rapidjson/include/reader.h:957-987 | reads a string and calls the handler with what was popped |
| JsonReaderObject.Reader.ParseObject | depend/rapidjson/include/reader.h:739-804 | the member loop emits the specified events, and fails where they end |
| JsonReaderObject.Reader.ParseArray | depend/rapidjson/include/reader.h:807-852 | the element loop emits the specified events, and fails where they end |
| JsonReaderObject.Reader.ParseValue | depend/rapidjson/include/reader.h:1723-1736 | the dispatch on the first character |
| JsonReaderObject.Reader.Parse | depend/rapidjson/include/reader.h:558-594 | the whole recursive parse, with stop-when-done and trailing white space: verdict, the calls up to it, and a stack cleared on exit |
| JsonTexts.AcceptedIff | depend/rapidjson/include/reader.h:558-852 | for all flags modelled, a text is accepted exactly if it is a JSON text, with any white space, comments and trailing commas that the flags allow; its tree is then the value that it writes |
| JsonTexts.SpellingAccepted | depend/rapidjson/include/reader.h:558-852 | every spelling of a value is accepted and read as that value |
| JsonTexts.AcceptedSpelled | depend/rapidjson/include/reader.h:558-852 | from every accepted text a spelling of it is recovered |
| JsonTexts.SpellingBuilt | depend/rapidjson/include/document.h:2222-2233 | the document is the value that the text writes exactly if no container has 2^32 or more members and no string 2^32 - 1 or more bytes |
| JsonLanguage.GapRead | depend/rapidjson/include/reader.h:710-735 | any white space and comments between tokens are skipped |
| JsonLanguage.ValueRead | depend/rapidjson/include/reader.h:739-852 | every spelling of a value is read as that value, wherever it stands |
| JsonTexts.ValueSpelled | depend/rapidjson/include/reader.h:739-852 | whatever is read as a value is a spelling of it |
| JsonReaderObject.Reader.Advance | depend/rapidjson/include/reader.h:1982-2131 | for every state and every stack, the switch computes the specified step: state, bytes on the stack, position and calls |
| JsonReaderObject.Reader.IterativeParse | depend/rapidjson/include/reader.h:2163-2195 | for every text the loop computes the specified run; without overlong strings its verdict and its calls are those of the recursive parser |
| JsonDocument.FlagsAreRanges | depend/rapidjson/include/document.h:685-721 | whichever constructor made a number, its flags are exactly those of the integer ranges that contain it |
| JsonDocument.IntegerLiteral | depend/rapidjson/include/reader.h:1468-1715 | every integer literal is exact, becomes a double exactly if outside [-2^63, 2^64-1], and otherwise carries exactly the flags of its ranges |
| JsonDocument.Builder.EndObject | depend/rapidjson/include/document.h:2428-2432 | pops the counted names and values into the object below them |
| JsonDocument.Builder.EndArray | depend/rapidjson/include/document.h:2436-2440 | pops the counted elements into the array below them |
| JsonBuild.AcceptedBuildsOne | depend/rapidjson/include/document.h:2222-2233 | for every accepted text of any length the handler ends with exactly one value, the tree that the text denotes, exactly if no container has 2^32 or more members and no string or name 2^32 - 1 or more bytes, which holds below 4 GiB; in general it never reads below its stack, the number of values left over is given, the tree has its strings cut, and it copies foreign bytes exactly if some length plus 1 is a multiple of 2^32 |
| JsonBuild.ValueBuilds | depend/rapidjson/include/document.h:2400-2440 | one value of a text, on any stack, leaves its tree with the strings cut and as many further values as its containers exceed multiples of 2^32, two for each member of an object |
| JsonBuild.CutIff | depend/rapidjson/include/reader.h:926-980 | a tree survives the cutting of its strings exactly if none has 2^32 - 1 or more bytes |
| JsonBuild.WideText | depend/rapidjson/include/document.h:2436-2440 | an array of n nulls is accepted and leaves n / 2^32 * 2^32 values beside the array |
| JsonWriter.TreeWritten | depend/rapidjson/include/document.h:1831-1868 | wherever a value may stand, sending a tree meets no assertion about the writer's levels and appends its separator and its text |
| JsonWriter.ControlEscape | depend/rapidjson/include/writer.h:433-441 | control characters without a letter of their own are written as \u00 and two capital digits |
| JsonWriter.ReserveIff | depend/rapidjson/include/writer.h:394-397 | the reserve of 2 + 6n bytes modulo 2^32 is enough for every string of n bytes exactly if it does not wrap |
| JsonWriter.ReserveWraps | depend/rapidjson/include/writer.h:394-397 | for every string of 715827883 bytes, the first length at which it wraps, 4 bytes are reserved |
| JsonWriter.TreeCovered | depend/rapidjson/include/writer.h:394-451 | sending a tree whose strings and names are shorter than that puts no byte past a reserve |
| JsonWriter.StreamWriter.Prefix | depend/rapidjson/include/writer.h:470-488 | writes the separator of the place and counts the value |
| JsonWriter.StreamWriter.WriteString | depend/rapidjson/include/writer.h:378-453 | reserve and loop: the escaped string between quotes, all of it inside the reserve exactly if the quoted string is no longer than that |
| JsonWriter.StreamWriter.String | depend/rapidjson/include/writer.h:203-208 | separator, then the quoted string, and whether it kept within its reserve |
| JsonWriter.StreamWriter.Start | depend/rapidjson/include/writer.h:217-245 | separator, bracket and a new level |
| JsonWriter.StreamWriter.End | depend/rapidjson/include/writer.h:232-253 | closes the innermost level of its kind |
| JsonRoundTrip.StringRead | depend/rapidjson/include/reader.h:990-1055 | the escaped form of any byte string reads back as that string |
| JsonRoundTrip.Utf8StringRead | depend/rapidjson/include/reader.h:990-1055 | with encoding validation, the escaped form of any valid UTF-8 string reads back as that string |
| JsonRoundTrip.IntegerRead | depend/rapidjson/include/reader.h:1455-1715 | the canonical decimal of every integer in [-2^63, 2^64-1] reads back exactly |
| JsonRoundTrip.TreeRead | depend/rapidjson/include/reader.h:739-852 | the text of a tree, standing anywhere in a text, reads back as events that put exactly that tree on the builder stack; they reach the handler unchanged if no string has 2^32 - 1 bytes, and otherwise some pointer is past its string |
| JsonRoundTrip.RoundTrip | depend/rapidjson/include/writer.h:178-488 | for every tree of null, booleans, integers, byte strings, arrays and objects: its text is accepted, and the document is the same tree and the only value on the stack exactly if no string or name has 2^32 - 1 bytes; then both parsers emit the same events; strings of up to 715827882 bytes stay within what is reserved for them |
| JsonPointer.CreateOrGet | depend/rapidjson/include/pointer.h:401-447 | Create reports an existing value exactly if Get resolves, leaves the tree unchanged then, and otherwise yields a new null |
| PointerFrame.CreateKeeps | depend/rapidjson/include/pointer.h:401-447 | every path of the old tree that does not run through a value that the pointer retypes is a path of the new tree, through the same kinds of containers and by the same names; the value at its end is the same, unless the pointer goes on from it |
| PointerFrame.CreateTypes | depend/rapidjson/include/pointer.h:411-419 | a value that the pointer goes on from keeps its type, unless it cannot hold the token: then it becomes an object for a name and an array for an index |
| PointerFrame.CreateAddsNothingElse | depend/rapidjson/include/pointer.h:401-447 | every path of the new tree is one of the old that was not lost, or part of the created path, or a null before a created index in an array |
| JsonPointer.GetAfterCreate | depend/rapidjson/include/pointer.h:401-507 | after Create, Get reaches the created value exactly if "-" was never applied to an array, and nothing otherwise |
| JsonPointer.CreateValue | depend/rapidjson/include/pointer.h:401-447 | the loop that changes the tree along the path computes Create |
| JsonPointer.GetValue | depend/rapidjson/include/pointer.h:479-507 | the loop computes Get, and the unresolved index is that of the first token that leads nowhere |
| PointerText.IndexExact | depend/rapidjson/include/pointer.h:900-917 | for every name: a canonical decimal gets its value modulo 2^32, unless some digit makes the 32-bit accumulator smaller; so the index is the right one exactly if the value fits, some digit makes the accumulator smaller, or the wrapped value is the invalid index |
| PointerText.LastDigitOverflows | depend/rapidjson/include/pointer.h:905-915 | where only the last digit can overflow, it is noticed exactly if the wrapped value is less than the value without that digit |
| PointerText.OverflowMissed | depend/rapidjson/include/pointer.h:905-915 | 8589934590 is taken for index 4294967294 |
| PointerText.TokenExact | depend/rapidjson/include/pointer.h:895-917 | a token is the name with its index exactly if the length of the name fits 32 bits |
| PointerText.NamesFit | depend/rapidjson/include/pointer.h:815-921 | names with their terminators never need more bytes than the source has |
| PointerText.RoundTrip | depend/rapidjson/include/pointer.h:802-972 | for every list of names the plain form exists, the fragment form exists exactly if all names are valid UTF-8, and parsing either reads the names; the tokens are the names, each with its index, exactly if all lengths fit 32 bits |
| PointerText.WritesValid | depend/rapidjson/include/pointer.h:941-972 | a name has a fragment form exactly if it is valid UTF-8 |
| PointerText.DashParsed | depend/rapidjson/include/pointer.h:889-917 | in parsed tokens "-" has no index |
| PointerText.ScanName | depend/rapidjson/include/pointer.h:840-898 | the inner loop yields the name and whether all of it is digits |
| PointerText.ConvertIndex | depend/rapidjson/include/pointer.h:895-917 | the second check and the conversion loop compute the index |
| PointerText.ParsePointer | depend/rapidjson/include/pointer.h:802-932 | the outer loop computes the tokens or fails; the name buffer never runs ahead of the read position |
| PointerLanguage.ParsedIff | depend/rapidjson/include/pointer.h:802-932 | a text is read as a list of tokens exactly if it is a spelling of their names, in plain form or as a fragment, with either case of hexadecimal digits |
| PointerLanguage.SpellingRead | depend/rapidjson/include/pointer.h:840-887 | every spelling of names is read as these names |
| PointerLanguage.ParsedSpelled | depend/rapidjson/include/pointer.h:840-887 | whatever is accepted is such a spelling |
| ChunkAllocator.MallocSound | depend/rapidjson/include/allocators.h:176-188 | where no sum wraps, all blocks stay held, aligned and pairwise apart, and the returned block is one of them |
| ChunkAllocator.MallocExact | depend/rapidjson/include/allocators.h:176-188 | a returned pointer covers the bytes asked for, in memory that belongs to the pool, exactly if no 64-bit sum wraps |
| ChunkAllocator.ChunkLasts | depend/rapidjson/include/allocators.h:176-188 | a new chunk has the chunk capacity, and serves further requests that fit it together with the first |
| ChunkAllocator.LargestSize | depend/rapidjson/include/allocators.h:176-188 | a request of 2^64 - 1 bytes yields the top of the chunk, which does not move |
| ChunkAllocator.ReallocSound | depend/rapidjson/include/allocators.h:191-221 | in place, by a new block or not at all, where no sum wraps on the way taken all blocks stay held, aligned and apart; the returned one has room for the new size exactly if that size can be aligned without wrapping |
| ChunkAllocator.ReallocExact | depend/rapidjson/include/allocators.h:191-221 | for every size a returned pointer covers the bytes asked for, in memory that belongs to the pool, exactly if the size can be aligned and no sum wraps on the way taken |
| ChunkAllocator.MemoryPoolAllocator.constructor | depend/rapidjson/include/allocators.h:110-113 | no chunk yet |
| ChunkAllocator.MemoryPoolAllocator.WithBuffer | depend/rapidjson/include/allocators.h:125-134 | the user's buffer is the first chunk; the pool is valid exactly if it is aligned |
| ChunkAllocator.MemoryPoolAllocator.Allocate | depend/rapidjson/include/allocators.h:176-249 | for every size the steps compute Malloc and no byte changes; the pool stays valid where no sum wraps |
| ChunkAllocator.MemoryPoolAllocator.Reallocate | depend/rapidjson/include/allocators.h:191-221 | for all sizes the steps compute Realloc; where no sum wraps, the old bytes are in the returned block and no byte of any other block changes |
| ChunkAllocator.MemoryPoolAllocator.Clear | depend/rapidjson/include/allocators.h:145-153 | every chunk but the user's buffer goes, and that one is empty |
| XmlText.InPlaceExact | DcNode/src/tinyxml2.cpp:278-347 | the in-place decoder equals the out-of-place one exactly if the write pointer stands on an ampersand at every unknown entity |
| XmlText.UnknownEntityShows | DcNode/src/tinyxml2.cpp:341-345 | a text on which they differ |
| XmlText.PrintedStringRead | DcNode/src/tinyxml2.cpp:267-365 | for every byte string, decoding what PrintString wrote gives it back with line ends normalised, and unchanged exactly if it has no carriage return |
| XmlText.VerbatimDecodes | DcNode/src/tinyxml2.cpp:282-305 | where only line ends are processed, text without carriage returns is unchanged |
| XmlText.ReferenceExact | DcNode/src/tinyxml2.cpp:456-549 | for both bases and any number of digits: the number read is congruent to the value modulo 2^32, and is the value exactly if every digit times its weight fits 32 bits, so always below 2^32; a scalar value becomes its UTF-8 encoding |
| XmlText.ReferenceWraps | DcNode/src/tinyxml2.cpp:470-509 | `&#x100000041;` is read as the letter A |
| XmlText.CollapsedIsJoined | DcNode/src/tinyxml2.cpp:238-264 | collapsing white space yields the words joined by single spaces |
| XmlCharacters.CharactersDecoded | DcNode/src/tinyxml2.cpp:270-350 | text made of plain runs, the five entities and references to scalar values, in both bases, decodes to the characters they stand for, line ends normalised |
| XmlCharacters.VerbatimIsNormal | DcNode/src/tinyxml2.cpp:282-305 | where entities are not processed only line ends change |
| XmlCharacters.NoReference | DcNode/src/tinyxml2.cpp:309-319 | an ampersand and a # that start no reference are kept: no semicolon follows, or something before it is no digit |
| XmlStrPair.GetCharacterRef | DcNode/src/tinyxml2.cpp:456-549 | reads nothing past the terminator and computes the specified reference |
| XmlStrPair.DecodeInPlace | DcNode/src/tinyxml2.cpp:270-350 | for every buffer the write pointer never passes the read pointer, neither passes the end, nothing outside changes, and the result is the specified decoding |
| XmlStrPair.Collapse | DcNode/src/tinyxml2.cpp:238-264 | the same for CollapseWhitespace |
| XmlStrPair.StrPair.GetStr | DcNode/src/tinyxml2.cpp:267-365 | the first call decodes in place by the flags, later calls change nothing |
| XmlParser.ScanTag | DcNode/src/tinyxml2.cpp:193-215 | the loop finds the first end tag before the terminator |
| XmlParser.ScanName | DcNode/src/tinyxml2.cpp:218-235 | the loop finds the end of the name |
| XmlParser.ReadAttributes | DcNode/src/tinyxml2.cpp:1801-1858 | the loop yields the attributes and whether the tag is sealed, and refuses a repeated name |
| XmlParser.ParseDeep | DcNode/src/tinyxml2.cpp:988-1086 | loop and recursion compute the specified node list: a closing tag read by a child ends its parent |
| XmlTexts.ParsedIff | DcNode/src/tinyxml2.cpp:988-1086 | a text is accepted as a document exactly if it is a spelling of it: white space, both kinds of quotes, attributes of distinct names in order, end tags that bear the names of their elements, and what may follow the last node |
| XmlTexts.SpellingParsed | DcNode/src/tinyxml2.cpp:988-1086 | every spelling of a document is accepted as that document |
| XmlTexts.ParsedSpelled | DcNode/src/tinyxml2.cpp:988-1086 | from every accepted text a spelling of its document is recovered |
| XmlLanguage.NodesReads | DcNode/src/tinyxml2.cpp:988-1086 | every spelling of a list of nodes, anywhere in a text, adds exactly these nodes |
| XmlTexts.ListFound | DcNode/src/tinyxml2.cpp:988-1086 | whatever is read as a list of nodes is a spelling of it |
| XmlTexts.WrongEndTag | DcNode/src/tinyxml2.cpp:1063-1081 | an element closed by a tag of another name is refused, wherever it stands |
| XmlTexts.Unclosed | DcNode/src/tinyxml2.cpp:1063-1081 | so is an element that is still open at the end of the text |
| XmlLanguage.AttributeReads | DcNode/src/tinyxml2.cpp:1342-1368 | an attribute in either kind of quotes, with any white space around the equals sign |
| XmlPrinter.PrintString | DcNode/src/tinyxml2.cpp:2449-2499 | for every string the escaped text is printed, of which a last run of plain bytes is cut at INT_MAX |
| XmlPrinter.LongRun | DcNode/src/tinyxml2.cpp:2493-2498 | a run of INT_MAX + 1 plain bytes loses its last byte |
| XmlPrinter.CutNothing | DcNode/src/tinyxml2.cpp:2493-2498 | a tree is printed as it is exactly if no value of it ends in a run of more than INT_MAX plain bytes |
| XmlPrinter.Printer.OpenElement | DcNode/src/tinyxml2.cpp:2514-2532 | seals the tag before it, starts the tag and pushes the name |
| XmlPrinter.Printer.PushAttribute | DcNode/src/tinyxml2.cpp:2535-2543 | appends name and escaped value, as PrintString prints it |
| XmlPrinter.Printer.CloseElement | DcNode/src/tinyxml2.cpp:2586-2611 | seals an empty element or writes the end tag of the name on the stack |
| XmlPrinter.Printer.PushText | DcNode/src/tinyxml2.cpp:2624-2637 | appends escaped text, as PrintString prints it, or a CDATA section |
| XmlPrinter.Printer.Accept | DcNode/src/tinyxml2.cpp:2741-2788 | visiting any tree appends exactly the markup of the tree that is printed for it, and leaves stack and depth as they were |
| XmlPrinter.Print | DcNode/src/tinyxml2.cpp:2289-2298 | a document prints as the markup of its printed nodes, after a byte order mark if it has one; without overlong runs these are its nodes |
| XmlRoundTrip.NodesRead | DcNode/src/tinyxml2.cpp:988-1086 | reading the markup of a list of valid nodes, anywhere in a text, adds exactly these nodes |
| XmlRoundTrip.AttributesRead | DcNode/src/tinyxml2.cpp:1801-1858 | printed attributes with distinct names read back in order |
| XmlRoundTrip.RoundTrip | DcNode/src/tinyxml2.cpp:988-1086 | for every document with valid names, distinct attribute names, values free of NUL and CR, no adjacent text nodes and no blank text, the compact print parses to that document without an error |
| XmlRoundTrip.TailIgnoredIff | DcNode/src/tinyxml2.cpp:1049-1086 | for every valid document and every tail: with that tail the text still parses to the document exactly if the tail is white space or starts, after white space, with a complete closing tag |
| XmlRoundTrip.StrayEndTag | DcNode/src/tinyxml2.cpp:1049-1058 | in particular a closing tag at the top ends the document without an error, and everything after it is ignored |
| XmlDom.CutOwned | DcNode/src/tinyxml2.cpp:804-825 | Unlink takes one child out of one list and leaves every other list and the ownership of every other node as they were |
| XmlDom.SplicedOwned | DcNode/src/tinyxml2.cpp:841-935 | inserting a loose node below a node that is not under it puts it into one list and keeps everything else |
| XmlDom.AttachAcyclicIff | DcNode/src/tinyxml2.cpp:841-935 | putting a loose node under another closes no cycle exactly if it is neither that node nor above it |
| XmlDom.AfterOk | DcNode/src/tinyxml2.cpp:918-932 | once the added node is unlinked, the given child has a next sibling exactly if it had one other than the added node as the last child |
| XmlDom.MarkedOwned | DcNode/src/tinyxml2.cpp:2020-2031 | MarkInUse takes one node off the list of unlinked nodes |
| XmlDom.NothingLeft | DcNode/src/tinyxml2.cpp:2033-2038 | a document without children and unlinked nodes has no node left |
| XmlDom.InsertAfterReadsNull | DcNode/src/tinyxml2.cpp:924-932 | in the case that InsertAfterChild leaves out, the next sibling is gone when it is read again |
| XmlDom.Document.CreateUnlinkedNode | DcNode/src/tinyxml2.h:1885-1896 | a new node is listed as unlinked |
| XmlDom.Document.MarkInUse | DcNode/src/tinyxml2.cpp:2020-2031 | the loop removes exactly the node, if it is listed |
| XmlDom.Document.Unlink | DcNode/src/tinyxml2.cpp:804-825 | the link updates remove the child from its parent's list |
| XmlDom.Document.InsertChildPreamble | DcNode/src/tinyxml2.cpp:1103-1115 | the node is detached from its parent or from the unlinked list |
| XmlDom.Document.InsertEndChild | DcNode/src/tinyxml2.cpp:841-868 | the node is moved to the end of the list |
| XmlDom.Document.InsertFirstChild | DcNode/src/tinyxml2.cpp:871-899 | the node is moved to the front of the list |
| XmlDom.Document.InsertAfterChild | DcNode/src/tinyxml2.cpp:902-935 | the node is moved right after the given child; a foreign or equal child changes nothing |
| XmlDom.Document.DeleteNode | DcNode/src/tinyxml2.cpp:1088-1101 | the node goes with exactly the nodes below it, and every node left is unchanged |
| XmlDom.Document.DeleteChildren | DcNode/src/tinyxml2.cpp:794-801 | the loop terminates with no child left |
| XmlDom.Document.DeleteChild | DcNode/src/tinyxml2.cpp:828-838 | the child goes with what is below it, its siblings keep their order |
| XmlDom.Document.Clear | DcNode/src/tinyxml2.cpp:2033-2038 | Clear terminates and no node is left |
| MemPool.NewBlock | DcNode/src/tinyxml2.h:363-374 | the items of a new block are distinct and linked in order |
| MemPool.Pool.constructor | DcNode/src/tinyxml2.h:337-337 | an empty pool with 4096 / ITEM_SIZE items per block |
| MemPool.Pool.Alloc | DcNode/src/tinyxml2.h:362-386 | an item that was not live becomes live; live + free = blocks times items per block |
| MemPool.Pool.Free | DcNode/src/tinyxml2.h:388-399 | the item goes to the front of the free list and is no longer live |
| MemPool.Pool.SetTracked | DcNode/src/tinyxml2.h:406-408 | only the count of untracked items changes |
| MemPool.Pool.Clear | DcNode/src/tinyxml2.h:342-353 | no block, no live and no free item is left |

## Left out

- HTTP server, Thrift stubs and servers, ActiveMQ producer, sockets, logging, configuration, process start-up: plumbing around the modelled logic.
- Doubles: rounding, `dtoa`, `Strtod` and the digit printers; a double event carries significand and exponent, and integer printing is taken as canonical decimal.
- The SIMD, Windows and assembly variants of code that is modelled in its portable form.
- XML text with entities that are not known, in the grammar: what they decode to is said by InPlaceExact.
- JSON parse flags for in-situ parsing, numbers as strings, NaN and infinity, and full precision; error codes and offsets; handlers that stop the parse.
- UTF-16, UTF-32 and the encoded streams.
- The pretty-printing forms of the JSON and the XML writer, numeric conversions with `sscanf` and `snprintf`, file loading, `XMLHandle`, cloning.
- XML line numbers and error codes. Values are decoded when they are parsed, not when they are first read; the terminators that a late read writes into the buffer fall on bytes that the parser has consumed.
- Entity processing turned off and collapsed white space in whole XML documents; both are modelled for single strings.
- Nodes of several XML documents, and the memory pools behind one document: a node's address is chosen by the caller.
- Progress of the pool when an idle timeout races with a dispatch, which the code does not guarantee; overflow of item_count; the queueing time of a job; dispatches that begin after the pool is freed.
- The 30 s and 45 s waits of the node and of the server: any time may pass in them.
- JsonRoundTrip.RoundTrip: arrays and objects have fewer than 2^32 members and strings and names fewer than 2^32 bytes, as SizeType demands.
- JsonReader.ParsersAgree: one direction; with an overlong string in a container the parsers can still agree, if the bytes it leaves happen to form the right frame. A number that is popped as a state but is none counts as a rejection; the source would use it as an index into its table if more text followed.
- JsonBuild.AcceptedBuildsOne: a handler that is given a pointer past its string has no result in the model; the source copies what lies there.
- JsonLexer.ScanDouble: the accumulator of a big integer is an exact integer, so the rounding of a double at the guard DBL_MAX / 10 is not modelled.
- XmlDom: nodes are records in a map from addresses, so that links are values; the order of all link updates is that of the source.
- XmlDom.Document.InsertEndChild: a node may not be inserted below itself, which the source does not check; AttachAcyclicIff says that exactly then a cycle closes.
- XmlDom.Document.InsertFirstChild: the same.
- XmlDom.Document.InsertAfterChild: the same, and the case in which the source writes through a null pointer is left out; InsertAfterReadsNull describes it.
- ChunkAllocator.MemoryPoolAllocator.WithBuffer: what follows in a buffer that is not aligned to 8 bytes; the source does not check it, and all pointers it returns are misaligned as the buffer is.
- XmlPrinter.Print: the model fits printing to a file; in memory the buffer grows by `cap * 2` in an `int`, which overflows once more than INT_MAX / 2 bytes must be allocated.
- ThreadPool.ReachableInv: one call of destroy. The test for POOL_VALID and the write of POOL_EXIT are not one step, so two concurrent calls can both pass the test and free the pool twice.
- PoolFree.FreeSafeIff: dispatch calls that begin after POOL_EXIT is written are left out, because with them the free is never safe (CallTooLate).
