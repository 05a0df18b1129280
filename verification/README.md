# A model of the iRODS client library

The library talks to an iRODS server: it names things by logical paths, keeps a pool of connections,
walks collections, reads and writes data objects through buffered streams, pages through query
results, and copies trees. This project models the parts that have an algorithm or a protocol of
their own and proves what they keep over all inputs and all runs. The server, the transport under a
stream and the catalog are contracts: what they may answer is left open, and nothing else about them
is assumed.

| file | models |
|---|---|
| `PathElements.dfy`, `PathNames.dfy`, `PathLexical.dfy`, `Paths.dfy` | logical paths: positions and elements, the iterator, `/=`, parents, normal and relative forms |
| `ConnectionPool.dfy` | the pool as interleaved steps of any number of threads, and its constructor |
| `RecursiveIterator.dfy` | the recursive collection iterator and whole walks |
| `Positioned.dfy`, `DataObjectBuffer.dfy` | the stream buffer over a positioned transport |
| `Base64.dfy` | the encoder and the decoder |
| `PagedQuery.dfy` | the query iterator over a server that gives pages through statements |
| `ChildrenParser.dfy` | the children string of a resource |
| `ConfigurationParser.dfy` | the store under nested keys |
| `Copy.dfy` | copying a tree within the catalog |
| `Bytes.dfy`, `Strings.dfy`, `Wrappers.dfy` | what several of these share |

Where the code does less than its documentation or its obvious purpose suggests, the model follows
the code. One result then gives the exact condition under which the promise is met, and another an
input on which it is not:

| promise | met exactly when | an input on which it is not |
|---|---|---|
| stepping back reads the root | `RootIsLostExactlyWhenDoubled` | `DoubledRootIsLost`: `//a` |
| parent and object name make up the path | `ParentAndObjectName` | `/`, in the same lemma |
| the normal form resolves `..` | `NormalIsResolution`, `NormalOfAbsoluteIsResolution` | `AdjacentDotDotsKeepName`: `/a/b/../..` |
| the relative form leads from the base to the path | `RelativeLeadsToPath` | `BaseSeparatorIsCounted`: `/a/b` from `/a/c/` |
| every pool slot in use has a holder | `SlotsAreConserved` | `FailedRefreshLosesSlot` |
| the walk reports the depth in the tree | `DepthIsRight` | `LastChildLooksShallow` |
| a seek moves the reader | `SeekOff`, `ApplyOther` | `SeekAfterLooking` |
| a switch to output keeps the reader's position | `PrepareForOutput`, `ApplyOther` | `PutAfterLooking` |
| `xsgetn` returns what it placed | `Xsgetn` | `GetAfterLooking` |
| a failing server makes a query throw | `Advance`, `Run` | `FaultsAfterOnePage` |
| `it++` returns an iterator on the row it stood on | `PostIncrement` | `CopyLeavesPage`: a page of two rows, then one of one |
| the limit of a query is kept | `LimitIsKept` | `LargeLimitIsLost` |
| a query leaves no statement open | `Run` | `TwoPagesLeaveStatement` |
| the base64 decoder stays within its bound | `Decode` | `ThreePadsSpill`: `A===`; `SpillsAndIsRejected`: `A===B` |
| a recursive copy skips or overwrites what is there, as its options say | `Copy`: only where nothing is there; a data object copied alone does | `SkipInsideRecursionFails` |
| a copy of a copy is a copy of the original | `CopyOfCopy` | `CopyOfCopyTakesName` |
| an older data object can be updated | `CopyDataObject` | any newer source, in the same contract |

## Model
| member | source | states |
|---|---|---|
| PathElements.PrevUndoesNext | src/filesystem/path.cpp:285-383 | stepping back undoes stepping forward from every element, and every step forward raises the position |
| PathElements.NextUndoesPrev | src/filesystem/path.cpp:285-383 | stepping forward undoes stepping back from every position but the first |
| PathElements.RootIsLostExactlyWhenDoubled | src/filesystem/path.cpp:354-380 | some step back arrives at the root without reading it exactly when the path starts with two separators and goes on |
| PathElements.ElementsAreNames | src/filesystem/path.cpp:259-335 | the walk by positions sees the root, the non-empty pieces between separators, and an empty element after a trailing separator, and nothing else |
| PathElements.PathIterator.Begin | src/filesystem/path.cpp:259-283 | a new iterator shows the first element |
| PathElements.PathIterator.Advance | src/filesystem/path.cpp:285-335 | `++` goes to the next position and shows its element, through runs of separators and the trailing one, also from a root that a step back failed to read |
| PathElements.PathIterator.Retreat | src/filesystem/path.cpp:337-383 | `--` goes to the position before and shows its element, but for the root it loses |
| PathNames.NamesOfConcat | src/filesystem/path.cpp:243-253 | names never run together when text is joined at a separator |
| PathNames.AppendMeans | src/filesystem/path.cpp:33-45 | appending puts names behind names, keeps the root, and gives exactly the argument when that is absolute |
| PathNames.WithoutObjectNameShape | src/filesystem/path.cpp:47-54 | a name after a separator goes and the separator stays; text without a separator stays |
| PathNames.ElementsOfRender | src/filesystem/path.cpp:17-26 | names written with single separators are read back as the same elements and no more |
| PathNames.JoinOfElements | src/filesystem/path.cpp:17-26 | joining the elements of any path spells its names with single separators and none at the end |
| PathNames.JoinOfSlice | src/filesystem/path.cpp:17-26 | joining the first elements keeps the root and the names among them |
| PathLexical.ObjectNameShape | src/filesystem/path.cpp:181-184 | the object name is the last name, or empty after a trailing separator or without names |
| PathLexical.RelativePathShape | src/filesystem/path.cpp:165-172 | what is below the root, spelled with single separators; put behind the root it gives the path respelled |
| PathLexical.ParentShape | src/filesystem/path.cpp:174-179 | the parent has all names but the last, or all of them before a trailing separator |
| PathLexical.ParentAndObjectName | src/filesystem/path.cpp:165-184 | parent and object name appended give the join of all elements exactly when the path is not `/` |
| PathLexical.RespelledPath | src/filesystem/path.cpp:17-26 | that join has no repeated and no trailing separators and the same elements but for a trailing empty one |
| PathLexical.ParentIsShorter | src/filesystem/path.cpp:174-179 | every parent is strictly shorter text |
| PathLexical.ParentStepsAreElements | src/filesystem/path.cpp:174-179 | going to the parent until nothing is left takes one step for each element |
| PathLexical.NormalIsResolution | src/filesystem/path.cpp:77-96 | the names of the normal form are those of resolving dots with a stack exactly when no separator left behind by one `..` meets another `..` and no first name of a relative path is taken back |
| PathLexical.SpacedDotDotsLeaveNothing | src/filesystem/path.cpp:77-96 | an ordinary name between any two `..` is enough for that in an absolute path |
| PathLexical.NormalOfAbsoluteIsResolution | src/filesystem/path.cpp:77-96 | for an absolute path the condition is on the text: no two `..` with nothing but dots between them where the first has two names or more to take from |
| PathLexical.AdjacentDotDotsKeepName | src/filesystem/path.cpp:47-54 | `/a/b/../..` keeps its first name, whatever the names |
| PathLexical.NormalHasNoDots | src/filesystem/path.cpp:77-96 | whatever the path, its normal form has no `.` and no `..` |
| PathLexical.NormalShape | src/filesystem/path.cpp:77-96 | the text of every normal form: its root and names with single separators, and a last separator exactly when the path ends with `..`, but for dots, and has names left, or, if relative, had two ordinary ones |
| PathLexical.RelativeText | src/filesystem/path.cpp:98-119 | the text of every relative form: `.` for equal paths, the path respelled for an absolute one from a relative base, and otherwise the `..` and the rest of the path with single separators |
| PathLexical.RelativeShape | src/filesystem/path.cpp:98-119 | every relative form is canonical text, and is relative but for an absolute path from a relative base |
| PathLexical.RelativeNames | src/filesystem/path.cpp:98-119 | the names of a relative form, for absolute and for relative paths: one `..` for each element of the base after the shared ones, then the rest of the path |
| PathLexical.RelativeLeadsToPath | src/filesystem/path.cpp:98-119 | the relative form appended to the base and followed, from the root or for two relative paths from any directory, leads to where the path leads exactly when no trailing separator of the base is counted as a level |
| Paths.ComparisonIsConsistent | src/filesystem/path.cpp:127-158 | comparing either way round gives opposite signs, and zero for equal elements only |
| Paths.ComparisonMeans | src/filesystem/path.cpp:127-158 | the sign is negative exactly when the first element that differs is the smaller one or is missing |
| Strings.StringLessMeans | src/filesystem/path.cpp:127-158 | elements are ordered by the first character that differs, and a beginning comes before what goes on from it |
| Paths.SamePathIsSameNames | src/filesystem/path.cpp:127-158 | two spellings are equal paths exactly when root, names and a trailing separator agree |
| Paths.Path.Extend | src/filesystem/path.cpp:33-45 | `/=` changes the text to the appended one, or to an absolute argument |
| Paths.Path.RemoveObjectName | src/filesystem/path.cpp:47-54 | everything after the last separator goes and the separator stays |
| Paths.Path.Compare | src/filesystem/path.cpp:127-158 | the loop compares the element sequences |
| Paths.Path.ParentPath | src/filesystem/path.cpp:174-179 | the loop over the iterator computes the specified parent |
| Paths.Path.ObjectName | src/filesystem/path.cpp:181-184 | and the specified object name |
| Paths.Path.LexicallyNormal | src/filesystem/path.cpp:77-96 | and the specified normal form, changing a path in place |
| Paths.Path.LexicallyRelative | src/filesystem/path.cpp:98-119 | and the specified relative form, whose exact text is `RelativeText` |
| Paths.Mismatch | src/filesystem/path.cpp:102-102 | both iterators stop at the first difference, with the rest of the elements ahead |
| Paths.WalkForward | src/filesystem/path.cpp:220-231 | a loop over a path sees its elements in order |
| Paths.WalkBackward | src/filesystem/path.cpp:337-383 | stepping from the end to the beginning reads the elements in reverse exactly when the root is not doubled |
| Paths.DoubledRootIsLost | src/filesystem/path.cpp:354-380 | `//a` read backwards ends with an empty element for its root |
| Paths.BaseSeparatorIsCounted | src/filesystem/path.cpp:98-119 | the relative form of `/a/b` from `/a/c/` is `../../b`, and `/a/c/../../b` leads to `/b` |
| ConnectionPool.LockIsExclusive | src/core/src/connection_pool.cpp:173-185 | no two threads are under one slot's lock |
| ConnectionPool.StepIsLocal | src/core/src/connection_pool.cpp:173-190 | a step changes no other thread and only its own slot, under its lock but for a proxy's release |
| ConnectionPool.HoldersComeFrom | src/core/src/connection_pool.cpp:13-41 | whoever holds a slot after a step held it before, or was handed it by the step, or claims it now |
| ConnectionPool.StepKeepsInv | src/core/src/connection_pool.cpp:13-190 | every step of any thread or proxy keeps the whole invariant |
| ConnectionPool.RunsAreSafe | src/core/src/connection_pool.cpp:13-190 | in every state of every run each slot has at most one holder and is in use, each live proxy refers to its own slot's logged-in connection, and no two share one |
| ConnectionPool.MovedFromReleasesNothing | src/core/src/connection_pool.cpp:13-41 | destroying a moved-from proxy changes no slot and no other proxy |
| ConnectionPool.LostForever | src/core/src/connection_pool.cpp:160-185 | a slot whose refresh threw is never handed out again and its connection stays as it was |
| ConnectionPool.LosingStepLoses | src/core/src/connection_pool.cpp:30-41 | a refresh that throws and an assignment over a live proxy each lose a slot that was not lost; the first leaves no usable connection in it |
| ConnectionPool.StepLosesAtMostOne | src/core/src/connection_pool.cpp:30-41 | no other step loses a slot, and none brings one back |
| ConnectionPool.LostSlotsAreCounted | src/core/src/connection_pool.cpp:160-185 | the slots lost in a run are counted exactly by its losing steps: slots are conserved exactly when there are none |
| ConnectionPool.SlotsAreConserved | src/core/src/connection_pool.cpp:13-190 | in a run from a fresh pool as many slots are lost as there were losing steps, and every slot in use has a holder exactly when there were none |
| ConnectionPool.FailedRefreshLosesSlot | src/core/src/connection_pool.cpp:160-185 | any fresh pool loses its first slot to a thread whose refresh cannot connect |
| ConnectionPool.OwnStepsAtSlot | src/core/src/connection_pool.cpp:175-184 | a thread's steps at one slot claim it, with its connection untouched, if it is available and otherwise leave the pool as it was |
| ConnectionPool.SoloRunClaims | src/core/src/connection_pool.cpp:175-184 | left to itself, and when no try at a lock fails spuriously, a thread claims the first available slot it comes to, and nothing else in the pool differs then |
| ConnectionPool.AloneItReturns | src/core/src/connection_pool.cpp:160-181 | from the verification on, a thread left to itself returns a live proxy to the slot's own connection, untouched, if that was found alive, and otherwise to the next new one, logged in; the slot is in use and unlocked and nothing else differs |
| ConnectionPool.AloneItGetsAConnection | src/core/src/connection_pool.cpp:173-185 | if any slot is available a thread left to itself ends with such a proxy, in at most three steps for each slot of the pool and five more |
| ConnectionPool.VerifiedIsHandedOut | src/core/src/connection_pool.cpp:139-181 | whatever the other threads do: after a verification that succeeded the thread takes no step before it returns, and hands out the connection it verified, unchanged; after one that failed it hands out one made since, for the same slot |
| PoolConstruction.BuildStepKeepsInv | src/core/src/connection_pool.cpp:86-103 | every step of the constructor's tasks keeps what is known of flags and slots |
| PoolConstruction.NothingBeginsAfterFailure | src/core/src/connection_pool.cpp:86-101 | a task that had not begun when an error was noted never connects, however the tasks interleave |
| PoolConstruction.ConstructorReturnsLoggedIn | src/core/src/connection_pool.cpp:57-137 | however the tasks interleave, the constructor returns normally exactly when every slot is logged in; it throws a connect error exactly when some task could not connect, and a login error exactly when none of these but some task was refused |
| RecursiveIterator.RecursiveCollectionIterator.constructor | src/filesystem/recursive_collection_iterator.cpp:11-21 | the iterator is well formed exactly when the collection is not empty |
| RecursiveIterator.RecursiveCollectionIterator.Next | src/filesystem/recursive_collection_iterator.cpp:25-64 | `++` drops from the pre-order that is left exactly the current entry, or its whole subtree if recursion was switched off, and switches it on again |
| RecursiveIterator.RecursiveCollectionIterator.Pop | src/filesystem/recursive_collection_iterator.cpp:66-76 | `pop` drops exactly what the top listing still holds |
| RecursiveIterator.Walk | src/filesystem/recursive_collection_iterator.cpp:25-76 | a walk that descends, skips and leaves by any policy sees what the recursive definition sees, in its order, and ends |
| RecursiveIterator.DescendingSeesAll | src/filesystem/recursive_collection_iterator.cpp:25-64 | always descending sees the full pre-order |
| RecursiveIterator.WalkDepths | include/filesystem/include/filesystem/recursive_collection_iterator.hpp:50-50 | the depths a walk reports, from the stack's height |
| RecursiveIterator.DepthIsRight | src/filesystem/recursive_collection_iterator.cpp:38-44 | they are the depths in the tree exactly when no listing ends with a non-empty collection |
| RecursiveIterator.LastChildLooksShallow | src/filesystem/recursive_collection_iterator.cpp:38-44 | an object in the only collection of a listing is reported beside it |
| Positioned.OverwriteAt | include/transport/default_transport.hpp:149-162 | a write replaces exactly its range and fills a gap with zeros |
| Positioned.WritesAddUp | include/dstream.hpp:328-345 | two writes in a row are one longer write |
| Positioned.SeeksAgree | include/transport/default_transport.hpp:164-199 | a position is the same reached from the beginning, from the current one and from the end |
| Positioned.SeekToEndAppends | include/transport/default_transport.hpp:164-199 | what is put after a seek to the end is appended to the file |
| DataObjectBuffer.DataObjectBuf.FlushBuffer | include/dstream.hpp:328-345 | flushing never changes the stream with its pending bytes written, and leaves none pending unless sending fails |
| DataObjectBuffer.DataObjectBuf.PrepareForInput | include/dstream.hpp:283-297 | switching to input sends what is pending and drops it only if that fails; the two areas are never live together |
| DataObjectBuffer.DataObjectBuf.PrepareForOutput | include/dstream.hpp:299-312 | switching to output keeps the reader's position exactly when nothing was unread |
| DataObjectBuffer.DataObjectBuf.Sputc | include/dstream.hpp:191-204 | a character put is the unbuffered write of it, or refused without effect when sending fails; while there is room nothing is sent |
| DataObjectBuffer.DataObjectBuf.Xsputn | include/dstream.hpp:222-231 | a block put is the unbuffered write of it, or refused without effect when sending fails |
| DataObjectBuffer.DataObjectBuf.SeekOff | include/dstream.hpp:262-280 | a seek sends what is pending and moves; reading goes on from there exactly when nothing was unread |
| DataObjectBuffer.DataObjectBuf.Close | include/dstream.hpp:141-156 | a successful close has written everything; the transport is closed even when sending failed |
| DataObjectBuffer.Drive | include/dstream.hpp:191-280 | any sequence of puts, flushes and seeks leaves, with the pending bytes written, what an unbuffered writer accepting the same operations leaves; as many are refused as the transport fails |
| DataObjectBuffer.WriteAndClose | include/dstream.hpp:94-156 | from opening to a successful close the file and position are those of the unbuffered writer, and without failures every operation and the close succeed |
| DataObjectBuffer.DataObjectBuf.Underflow | include/dstream.hpp:166-189 | an unread character is shown as it is; in a stream that was only read, it is the stream's next byte, and the unread bytes stay the ones before the transport's position |
| DataObjectBuffer.DataObjectBuf.Xsgetn | include/dstream.hpp:206-220 | the bytes placed are the stream's next ones, all the unread ones first; they are no more than asked for exactly when no more than that were unread; the count returned leaves the unread ones out |
| DataObjectBuffer.ReadBytes | include/dstream.hpp:166-189 | single-character reads deliver the file's bytes in order, so that these and the unread ones are what was received, and stop only at its end or when receiving fails |
| DataObjectBuffer.ApplyRead | include/dstream.hpp:166-220 | a read follows the unbuffered stream exactly when a switch to input has not dropped bytes it could not send |
| DataObjectBuffer.ApplyOther | include/dstream.hpp:191-280 | a put, flush or seek follows the unbuffered stream exactly when nothing was unread, or it is a flush, a refused seek, or a relative seek to where the unread bytes stand again |
| DataObjectBuffer.DriveMixed | include/dstream.hpp:166-280 | any sequence of reads, puts, flushes and seeks, up to the first that does not follow: the reader stands where an unbuffered one would, and every read was given the bytes that stood there |
| DataObjectBuffer.SeekAfterLooking | include/dstream.hpp:262-280 | after looking at the first of two bytes and seeking to the second, the first is still shown |
| DataObjectBuffer.PutAfterLooking | include/dstream.hpp:299-312 | after looking at the first byte, a character put does not replace it |
| DataObjectBuffer.GetAfterLooking | include/dstream.hpp:206-220 | after looking at the first byte, a request places more than it counts |
| Base64.TablesAreInverse | src/core/src/base64.cpp:9-35 | a character has a value in one table exactly when the other gives it for that value |
| Base64.CodesAreAlphabet | src/core/src/base64.cpp:9-10 | the codes are the alphabet, character by character (RFC 4648, section 4) |
| Base64.OtherCharacters | src/core/src/base64.cpp:12-35 | the pad is `=`, and every other character outside the alphabet is ignored |
| Base64.ShiftsAndMasks | src/core/src/base64.cpp:57-72 | on bit vectors, the encoder's shifts and masks are quotients and remainders by powers of two |
| Base64.GroupShiftsAndMasks | src/core/src/base64.cpp:111-128 | so are the decoder's |
| Base64.ShiftsPickDigits | src/core/src/base64.cpp:57-72 | those quotients and remainders are the four base-64 digits of the 24 bits |
| Base64.SymbolsLength | src/core/src/base64.cpp:50-54 | a quarter of the symbols for each started group of three bytes |
| Base64.Encode | src/core/src/base64.cpp:45-81 | given room, the symbols of the input and a NUL are written and nothing after it; otherwise nothing |
| Base64.Decode | src/core/src/base64.cpp:91-137 | success exactly on data symbols followed by at most three pads that fill their groups, given the room; overflow exactly when a group's end finds too little; on every input, rejected or not, what was written, and that it passes the bound, by one byte, exactly when a group with the third pad finds no byte to spare |
| Base64.DecodedLength | src/core/src/base64.cpp:113-128 | as many bytes as the room asked for, and one more after three pads |
| Base64.SpillsPastBound | src/core/src/base64.cpp:117-122 | the groups that spill are exactly those that pass the test on the room and decode to more than the bound |
| Base64.ThreePadsSpill | src/core/src/base64.cpp:117-122 | `A===` is accepted in no room and decodes to one byte |
| Base64.SpillsAndIsRejected | src/core/src/base64.cpp:106-122 | `A===B` is rejected after that byte was written |
| Base64.ThreePadsApartDoNotSpill | src/core/src/base64.cpp:106-109 | `A=B=C=` is rejected before, whatever the bound |
| Base64.IgnoredCharactersDoNotMatter | src/core/src/base64.cpp:98-101 | characters outside the alphabet, wherever they stand, never change what is decoded (RFC 4648, section 3.3) |
| Base64.DecodedSymbols | src/core/src/base64.cpp:45-137 | the symbols of any bytes are accepted and decode to them |
| Base64.DecodingUndoesEncoding | src/core/src/base64.cpp:45-137 | decoding any encoding gives the bytes back, in room for exactly those bytes (RFC 4648, section 4) |
| Base64.GroupIsCanonical | src/core/src/base64.cpp:111-128 | a group comes back from its bytes exactly when its spare bits are zero and it has at most two pads (RFC 4648, section 3.5) |
| Base64.EncodingUndoesDecoding | src/core/src/base64.cpp:45-137 | an accepted string comes back from its bytes exactly when it has no ignored character and is canonical |
| PagedQuery.LimitIsKept | include/query.hpp:174-178 | a limit is kept on all rows exactly when it fits 32 bits |
| PagedQuery.LargeLimitIsLost | include/query.hpp:174-178 | a limit of one more than 32 bits hold leaves one row of two |
| PagedQuery.RowOfPage | include/query.hpp:97-105 | a row index below the page's row count names one row among all rows |
| PagedQuery.QueryImpl.FetchPage | include/query.hpp:167-172 | from between two pages a fetch ends at the next page or with the statement closed |
| PagedQuery.QueryImpl.Destroy | include/query.hpp:141-158 | the destructor closes the statement that is still open, if any, and no other |
| PagedQuery.Iterator.Capture | include/query.hpp:354-357 | every dereference is within its page and gives the row at the iterator's number |
| PagedQuery.Iterator.WithInput | include/query.hpp:320-329 | the one constructor that sets `gen_input_` leaves the query null, so its iterators cannot be advanced |
| PagedQuery.Iterator.Advance | include/query.hpp:364-396 | an increment goes one row on or ends at the limit or the last row; a page is asked for exactly when the row wanted next is on it; when the server then fails it follows the null `gen_input_` and never throws |
| PagedQuery.Iterator.PostIncrement | include/query.hpp:336-340 | the copy it returns shows the row it stood on while the increment stays on the page; when the page is turned it can be dereferenced exactly when the next page is not the shorter one, and shows the row on the same line of that page |
| PagedQuery.CopyLeavesPage | include/query.hpp:336-340 | after two rows and then one, the iterator returned at the second row is past its page |
| PagedQuery.Loop | include/query.hpp:286-401 | a loop, left at any point, sees the rows from the page at hand in order, truncated to the limit; nothing for an empty query string; it never throws, and faults exactly when it wants more rows than there are and the server fails |
| PagedQuery.MakeImpl | include/query.hpp:174-190 | a specific query runs once when it is made, and its statement stays behind if there are more pages |
| PagedQuery.Open | include/query.hpp:403-441 | the query starts at its first page; without rows a general query starts at the end and a specific one throws that there are none; any other error is thrown |
| PagedQuery.Run | include/query.hpp:62-460 | from construction to destruction: the rows seen; a general query without rows ends normally and a specific one throws; a failure before the first row is thrown, a later one is a fault, each exactly when; without a fault every page is asked for once and in order and none that starts at or past the limit, no statement is misused, and none stays open exactly for general queries and those with one answer |
| PagedQuery.FaultsAfterOnePage | include/query.hpp:383-390 | one page and then an error: a loop over all rows faults, one over a single row does not |
| PagedQuery.TwoPagesLeaveStatement | include/query.hpp:257-260 | a specific query with two pages leaves its first statement open |
| ChildrenParser.OrderOfKeys | src/core/src/irods_children_parser.cpp:23-39 | children are printed in ascending order of their names, each once |
| ChildrenParser.PrintedIsJoined | src/core/src/irods_children_parser.cpp:23-39 | the printed text is each `name{context}` in that order, with semicolons only between them |
| ChildrenParser.TextsOfString | src/core/src/irods_children_parser.cpp:127-156 | the pieces between semicolons make up the string, but for a last semicolon |
| ChildrenParser.TextWithoutBrace | src/core/src/irods_children_parser.cpp:130-133 | a piece without `{` is a child named by all of it, without context |
| ChildrenParser.TextWithBrace | src/core/src/irods_children_parser.cpp:130-145 | a piece with `{` is a child exactly when a `}` stands after the first `{`; its name precedes that, its context ends before the first `}` after it, and the rest is dropped |
| ChildrenParser.EnteredMeans | src/core/src/irods_children_parser.cpp:110-164 | the map holds exactly the children before the first malformed one, each name with its last context; success exactly without a malformed one |
| ChildrenParser.ParsedIsClean | src/core/src/irods_children_parser.cpp:110-164 | whatever is parsed, names avoid `;` and `{` and contexts avoid `;` and `}` |
| ChildrenParser.ParsingUndoesPrinting | src/core/src/irods_children_parser.cpp:23-164 | parsing the printed form gives the map back exactly when it is clean in that sense |
| ChildrenParser.PrintedParsesTheSame | src/core/src/irods_children_parser.cpp:23-164 | printing what any string was parsed to and parsing that changes nothing |
| ChildrenParser.Parser.Str | src/core/src/irods_children_parser.cpp:23-39 | the loop prints the children in order |
| ChildrenParser.Parser.AddChild | src/core/src/irods_children_parser.cpp:41-55 | a new child is added, an existing one refused, and the map stays clean exactly if the child is |
| ChildrenParser.Parser.RemoveChild | src/core/src/irods_children_parser.cpp:57-71 | an existing child goes, a missing one is an error, and a clean map stays clean |
| ChildrenParser.Parser.SetString | src/core/src/irods_children_parser.cpp:110-164 | the loop over positions parses as specified, with the children before a malformed one on failure |
| ConfigurationParser.SetThenGet | src/core/include/irods_configuration_parser.hpp:46-73 | at and below a path that was set stands what was set there |
| ConfigurationParser.SetLeavesOthers | src/core/include/irods_configuration_parser.hpp:46-73 | at every path not related to it the store is what it was, present or absent |
| ConfigurationParser.SetOverrides | src/core/include/irods_configuration_parser.hpp:46-73 | a second set overrides the first |
| ConfigurationParser.SetOfGotten | src/core/include/irods_configuration_parser.hpp:46-115 | setting what is already there changes nothing |
| ConfigurationParser.SetsCommute | src/core/include/irods_configuration_parser.hpp:46-73 | sets on unrelated paths can be made in either order |
| ConfigurationParser.SetFailsWhenBlocked | src/core/include/irods_configuration_parser.hpp:61-68 | a set fails exactly when a value that is not a map stands on the way |
| ConfigurationParser.GottenMeans | src/core/include/irods_configuration_parser.hpp:87-115 | a get succeeds exactly with the value that is there in the type asked for, and misses a key exactly when a map on the way lacks it |
| ConfigurationParser.KeyIsMade | src/core/include/irods_configuration_parser.hpp:65-65 | making a missing key on the way does not change what the set comes to |
| ConfigurationParser.EmptyBecomesMap | src/core/include/irods_configuration_parser.hpp:61-63 | neither does making an empty value a map |
| ConfigurationParser.Parser.Set | src/core/include/irods_configuration_parser.hpp:46-73 | the walk in place comes to the specified store, and one that throws leaves the store as it was |
| ConfigurationParser.Parser.Get | src/core/include/irods_configuration_parser.hpp:87-115 | the walk finds the specified value or error |
| Copy.WantedLands | src/filesystem/filesystem.cpp:276-308 | every object that is to be copied lands at one place, and what is there after is that object |
| Copy.PlaceOfData | src/filesystem/filesystem.cpp:282-288 | a data object goes to the target, or into it under its own name when it is a collection |
| Copy.WhatIsCopied | src/filesystem/filesystem.cpp:282-307 | object by object: a recursive copy takes everything, with collections only just those, no options the collection and its data objects, and other options nothing |
| Copy.AbsentTargetHasRoom | src/filesystem/filesystem.cpp:282-307 | in a copy to where nothing is, nothing is in the way, every object keeps its place below the target, and all of the image is new |
| Copy.CopyOfCopy | src/filesystem/filesystem.cpp:251-308 | a copy of a copy is what a copy of the original would be, but for a data object that goes into a collection under another name |
| Copy.CopyOfCopyTakesName | src/filesystem/filesystem.cpp:282-285 | that one takes the name of the copy along |
| Copy.CopyTheCopy | src/filesystem/filesystem.cpp:251-308 | a collection copied to where nothing was, and the copy copied on, leave exactly the two images of the original beside what was there |
| Copy.ChildCopiesTheSame | src/filesystem/filesystem.cpp:303-305 | the copy of a child wants the same objects, sends them to the same places, and finds the same in the way, whichever other children went before |
| Copy.RoomByChildren | src/filesystem/filesystem.cpp:292-306 | nothing is in the way of a collection exactly when nothing is below any of its children |
| Copy.PartNext | src/filesystem/filesystem.cpp:303-305 | copying one more child adds exactly the part of the image below its name |
| Copy.ChildIsSmaller | src/filesystem/filesystem.cpp:303-305 | copying a child leaves less of the source, so the recursion ends |
| Copy.Catalog.CreateCollection | src/filesystem/filesystem.cpp:360-380 | a collection is created where its parent is, an existing one reported, and nothing else changes |
| Copy.Catalog.CreateCollectionLike | src/filesystem/filesystem.cpp:382-401 | the new collection has the permissions of the pattern |
| Copy.Catalog.CopyDataObject | src/filesystem/filesystem.cpp:310-358 | what happens to an absent and an existing target for each choice of options: `update_existing` leaves one that is not older alone and fails on an older one; inside a recursive copy an existing target always fails |
| Copy.Catalog.CopyCollection | src/filesystem/filesystem.cpp:292-306 | the loop over a collection succeeds only if nothing is in the way, and then has merged the image name by name, into a new or an existing collection; on a reliable server it succeeds exactly then |
| Copy.Catalog.Copy | src/filesystem/filesystem.cpp:251-308 | a copy of a collection, or within a recursion, succeeds only if no place is taken, whatever the options, and the result is what was there with exactly the image merged in; on a reliable server it succeeds exactly then; a failure leaves only a part of the image; a data object copied alone onto another one is left for `skip_existing`, written over for `overwrite_existing`, left for `update_existing` exactly when the source was not written later, and refused otherwise; nothing outside the target changes |
| Copy.SkipInsideRecursionFails | src/filesystem/filesystem.cpp:330-346 | two collections that hold an object of the same name: whatever other options a recursive copy has, it fails |

## Left out
- `replace_extension`, `stem`, `extension`, `lexically_proximate`, stream output of paths: they would only add easy members.
- `hash_value` of a path: it hashes the spelling, so equal paths may have different hashes.
- Connection pool: its threads interleave at single accesses to shared state, so it is modelled as steps on a value and not as a class; weak memory order is not modelled.
- Connection pool: the age of a connection and the query that verifies it are one answer of the step that verifies; the size check and the single-slot shortcut of the constructor are not modelled.
- PoolConstruction.ConstructorReturnsLoggedIn: the first connection, made alone, is taken to have succeeded, since the constructor throws otherwise.
- Recursive iterator: the collection does not change during the walk; listings come without errors; a collection's emptiness is asked of the same listing.
- Positioned.Transport: `send` writes all it is given or fails without effect; partial sends, after which `flush_buffer` does not move the tail down, are not modelled. Offsets are unbounded.
- DataObjectBuffer.DataObjectBuf.Xsgetn: a request smaller than what is unread places more bytes than the caller has room for; where these go is not modelled.
- DataObjectBuffer.DataObjectBuf.Open: a fresh buffer only; the transport is open already; reopening, moving, swapping, `pbackfail` and append mode are not modelled.
- Base64: the two tables are functions of a character, and sizes do not wrap around. Where a group spills, the decoder's array is taken to have one byte past the bound.
- PagedQuery.Run: successful pages have rows, errors come without output, and the server closes a statement with its last page or an error; automatic closing is not modelled. Parsing the query string is one answer, `fillErr`.
- PagedQuery.Iterator.Advance: nothing is said of the state after a fault, nor of whether destructors run. Columns are not modelled inside a row.
- PagedQuery.Loop: copies of an iterator that are themselves advanced side by side over the pages they share are not modelled.
- ChildrenParser: `list`, `first_child` and `last_child` only read the map.
- ConfigurationParser.Parser.Set: a reference into nested maps is the key path that leads to it, so references kept by callers are not modelled; single-key `set` and `get` are the paths of length one; `remove`, loading and writing JSON are not modelled.
- Copy.Catalog.Copy: a collection copied into itself or into one of the collections around it is excluded; the first does not end before a path is too long. Paths are lists of names, their length is not limited, and object identity is the path.
- Copy.Catalog.CopyDataObject: the time of a new copy is left open, and the server is taken to refuse writing over an object without the force flag.
- API stubs, packing, sockets, authentication, plugins and logging: they are input and output, or rest on code that is not part of the repository.
