# Verification model of the file-index server

This project models the stateful core of the server in Dafny and proves what that core is for. It covers:

- **Ternary search tree** (`TernaryShape`, `TernaryZipper`, `TernaryTree`, `TernaryHistory`). Pointer nodes in a heap with an explicit allocation set. Insertion and erasure walk and relink the nodes as the source does and are proved against a recursive reference on shapes, which in turn is proved to mean a plain map. The zipper says where a pointer walk has got to.
- **Search** (`Leapfrog`, `Search`). The intersection loop as a step machine with its 8-bit counter, its exact termination condition and probe bound, and the search object that drives it, proved equal to a naive scan.
- **Commands** (`Bytes`, `Arguments`, `TextReader`, `TextCodec`, `TextLimits`, `TextCases`, `BinaryCodec`, `Command`). Text and binary argument forms, the destructive text reader on its buffer, and the command object that grows its buffer and writes through a moving pointer. `TextLimits` proves for which arguments the text form works at all; `TextCases` says what the reader makes of every text.
- **Framing** (`Framing`, `Connection`, `Link`). Both ends of a byte stream whose calls may move any number of bytes, be put off or fail. Byte conservation gives order and equality of commands for every interleaving; `Link` joins it with the codec, end to end.
- **Channels** (`Channel`, `Spelling`). Every member's roster as a replay of the messages sent to that member alone.
- **Connections** (`Server`). The accepting thread and the main thread as steps on a shared state with a binary semaphore, and the rule that the newest connection from an address wins.
- **Smaller cores** (`Notify`, `SongCert`, `Time`, `Scheduler`).

`dafny verify dfyconfig.toml` checks everything. Most proofs keep costly definitions out of sight with `hide`.

What is modelled as a parameter or an arbitrary choice: results of socket calls (`Framing.Pipe`), the clock (`Scheduling.Clock`), handlers' results, failing sockets, the order in which a map is iterated (`Channels`), contents of new memory, and the keyed hash (`SongCerts.Mac`, any function with a 20-byte result).

## Findings

- The text form returns its arguments if and only if each string is non-empty, holds no quote if it holds a space, and does not begin with a quote if it holds no space (`TextLimits.TextRoundTripIff`). The reader's position is lost (null) after a last argument that was printed without quotes, so it is optional in the model.
- In binary form the four spare bytes that are reserved for each argument stay inside the size and are left unset, so a second flush adds its arguments behind them. All arguments come back, whatever new memory holds, if and only if no more than one flush had any (`BinaryCodec.FlushesReadBackIff`): pushing with `<<` works for one argument, and packing for any number.
- The run counter of the intersection is an `unsigned char`: with more than 255 required lists that share a file the loop does not end (`Leapfrog.EndsIff`). A maximum of zero matches is treated like one.
- The comment above the intersection describes one behaviour for any number of sets; in the code, a single set is listed with the caller's own files, which several sets drop. The model follows the code.
- A lone quote at the end of the text is not refused where it stands, as the comment in the reader has it: the walk back starts in front of the empty argument, so the quote itself is overwritten and the position is lost (`TextCases.LoneQuote`).
- A criterion of at least or at best goes the wrong way for values whose difference does not fit 32 bits (`Searching.Search.CompareExactly`).
- Where the text has ended nothing is stored for a caller. Before that, a number that cannot be taken leaves the caller's variable as it was, while a string pointer is stored even then.
- The comment on the notification registry says that names are lower-cased first; nothing does that, but the multimap compares without regard to case, so all spellings of a name share the key of the first.

## Model

| member | source | states |
|---|---|---|
| TernaryTrees.TernaryTree.constructor | ternary.hh:23 | a new tree is valid, has no node and stands for the empty map |
| TernaryTrees.TernaryTree.Find | ternary.hh:186-205 | the result is exactly what a plain map from strings to value sets holds: the set if the key is stored, nothing otherwise |
| TernaryTrees.TernaryTree.Insert | ternary.hh:158-184 | the map gains just that value under just that key; nodes are only added, all of them fresh, and every node that was there keeps its prefix |
| TernaryTrees.TernaryTree.InsertNodes | ternary.hh:158-184 | the pointer walk and the chain of new nodes give the shape of the recursive reference insertion, with exactly as many new nodes as prefixes were missing |
| TernaryTrees.TernaryTree.Erase | ternary.hh:26-156 | the map loses just that value (or all values) of just that key, whichever way the tree has to be relinked; nodes are only freed, and every surviving node keeps its prefix |
| TernaryTrees.TernaryTree.EraseNodes | ternary.hh:29-156 | cut, relink and delete loop give the shape of the recursive reference erasure, or leave the tree alone when the key is not stored |
| TernaryTrees.TernaryTree.FindBranch | ternary.hh:38-69 | the node found is the one at the end of the key, and the recorded pair is the last node that branches or hangs at a side link, with its parent |
| TernaryTrees.TernaryTree.Relink | ternary.hh:96-139 | putting the branch's other child into the one link of the parent that held the branch, told apart by pointer comparison, re-roots the surroundings at it and changes nothing else |
| TernaryTrees.TernaryTree.Unlink | ternary.hh:96-100 | a branch that only hung at a side link leaves that link, and only that, empty |
| TernaryTrees.TernaryTree.Replace | ternary.hh:126-139 | the link that held the branch, found by comparing pointers, holds the new node, and everything around it is as before |
| TernaryTrees.TernaryTree.HangLeft | ternary.hh:141-144 | hanging the lower subtree under the leftmost node of the higher one is the graft of the reference erasure |
| TernaryTrees.TernaryTree.Detach | ternary.hh:96-147 | after relinking, the root holds the tree with the branch replaced by its joined side subtrees, and the dead chain is intact and ready to be freed |
| TernaryTrees.TernaryTree.DeleteChain | ternary.hh:150-155 | exactly the nodes of the detached chain are freed, each of them once |
| TernaryTrees.TernaryTree.CutBranch | ternary.hh:96-155 | the heap afterwards is exactly the nodes reachable from the root: no live node freed, no dead one left |
| TernaryTrees.TernaryTree.CutRoot | ternary.hh:86-89 | with no branch recorded the tree is one chain, and all of it is freed |
| TernaryTrees.InsertHolds | ternary.hh:158-184 | the reference insertion means the map update, for every key at once |
| TernaryTrees.AssignHolds | ternary.hh:74-155 | the reference erasure means the map update, for every key at once |
| TernaryTrees.FoundAssign | ternary.hh:74-82 | with no value left, the side subtrees take the node's place and the way back is cleaned up; otherwise only its values change |
| CStrings.KeyMeans | ternary.hh:158-184 | keys are C strings with the zero that ends them |
| TernaryShape.InsertKeeps | ternary.hh:158-184 | levels stay ordered by character, every non-NUL node keeps an eq child and every NUL node a value |
| TernaryShape.InsertEffect | ternary.hh:158-184 | what insertion does to the node of every prefix, stored or new |
| TernaryShape.AssignKeeps | ternary.hh:29-156 | erasing keeps the order of every level, an eq child on every non-NUL node and a value in every NUL node |
| TernaryShape.AssignEffect | ternary.hh:29-156 | what erasing does to the node of every prefix: those of other keys are untouched, those of no key are gone |
| TernaryShape.GraftKeeps | ternary.hh:141-144 | grafting the lower subtree keeps the level ordered |
| TernaryShape.GraftEffect | ternary.hh:141-144 | after grafting, every prefix is found where it was, in the one subtree or the other |
| TernaryShape.JoinEffect | ternary.hh:112-144 | the same for the node that takes the branch's place in all three cases |
| TernaryShape.NodesArePrefixes | ternary.hh:177-181 | there is a node for a string exactly if the string is a prefix of a stored key |
| TernaryShape.ValuesAtKeys | ternary.hh:183 | a node has values exactly if its prefix ends with the NUL |
| TernaryShape.OnePrefixPerCell | ternary.hh:12-21 | no node stands for two prefixes: the tree is unshared and acyclic |
| TernaryZipper.DescendInsert | ternary.hh:162-175 | inserting at the link where the walk stopped is inserting at the root |
| TernaryZipper.DescendAssign | ternary.hh:38-69 | erasing at the node where the walk stopped is erasing at the root, once the way back is cleaned up |
| TernaryZipper.LastBranchCut | ternary.hh:84-155 | cutting at the recorded branch alone equals cleaning up the whole way back, node by node; with nothing recorded the whole tree goes |
| TernaryZipper.PlugCells | ternary.hh:12-21 | surroundings and subtree have no node in common exactly if the whole tree is unshared |
| TernaryHistory.RunIsHistory | ternary.hh:26-184 | the plain map holds a value under a key exactly if some insertion put it there and no later erasure took it away |
| TernaryHistory.Replay | ternary.hh:26-205 | after any sequence of insertions and erasures the tree stands for that plain map, with all invariants |
| TernaryHistory.Perform | ternary.hh:26-184 | one operation allocates exactly the nodes of the prefixes that the stored keys gain and frees exactly those of the prefixes that they lose |
| TernaryHistory.RootIsNull | ternary.hh:21-23 | the root is null exactly when the map is empty |
| TernaryHistory.PrefixNode | ternary.hh:158-184 | in every reachable tree there is a node for each distinct non-empty prefix of the stored keys, and for nothing else |
| TernaryHistory.NodesDiffer | ternary.hh:150-181 | of two trees before and after an operation, the larger has more nodes just by those of the prefixes that the other lacks |
| TernaryHistory.NodePerPrefix | ternary.hh:150-181 | the nodes in the heap correspond one to one with those prefixes |
| Leapfrog.FirstMeaning | search.cc:273-281 | the reference result: ascending, from the set, as many as allowed, and nothing smaller left out |
| Leapfrog.LeapKeepsPending | search.cc:249-256 | leaping to the lower bound in one list skips no hit |
| Leapfrog.CounterIsRun | search.cc:257 | the 8-bit run counter says "all lists" exactly when the run is that long |
| Leapfrog.TakeHit | search.cc:257-282 | a file found in all lists is the next hit, or none; when enough are listed they are the first hits |
| Leapfrog.ProbeKeeps | search.cc:249-293 | every turn of the loop keeps: nothing found so far is missing, the run is real, and each list was last found at a larger element |
| Leapfrog.ProbeEnds | search.cc:249-293 | the turn that leaves the loop leaves the reference result |
| Leapfrog.VisitsBounded | search.cc:249-293 | there are no more rounds than the smallest list has elements, as each visit lands on a larger one |
| Leapfrog.NeverEnds | search.cc:208-257 | with more than 255 lists and a common file the loop comes back to that file for ever |
| Leapfrog.Ends | search.cc:249-293 | otherwise the loop ends, with the first hits newest first, within (number of lists) x (size of any list + 1) probes |
| Leapfrog.EndsIff | search.cc:208-293 | the loop ends if and only if there are at most 255 lists or no file is in all of them |
| Searching.SubMeans | search.cc:165 | the 32-bit difference: in range, equal to the true one up to multiples of 2 to the 32nd, and equal to it if that fits |
| Searching.Search.CompareMeans | search.cc:145-173 | as long as the difference fits, option 1 lets pass what is at least the value, -1 what is at most it, 0 what equals it, and any other option nothing |
| Searching.Search.CompareExactly | search.cc:165-170 | of 32-bit numbers the comparison is right if and only if the difference fits or neither inequality was asked for |
| Searching.Search.FoundIsHit | search.cc:216-243 | the tests of the code are those of the query: terms, dashes (45), ports, the three criteria and whose the file is |
| Searching.Search.Report | search.cc:220-241 | a file is listed exactly if it passes the attribute, port and ownership tests and is in no excluded set |
| Searching.Search.MergeOne | search.cc:216-247 | one list: the first of its files that pass, newest first, the caller's own included |
| Searching.Search.TakeMatch | search.cc:257-289 | the match branch is the step of the loop machine, match counter and early return included |
| Searching.Search.Look | search.cc:250-289 | the loop body is one step of the loop machine |
| Searching.Search.MergeMany | search.cc:249-293 | several lists: the first of the common files that pass and are not the caller's own, newest first, nothing missed or repeated, within the probe bound |
| Searching.Search.JMerge | search.cc:207-296 | both branches, as one statement about the intersection |
| Searching.Search.FindTerms | search.cc:127-136 | the sets to require and to exclude are those of the terms that list any file, in the order of the terms |
| Searching.Search.Go | search.cc:122-143 | the files added are hits in the sense of the query, each once, by falling address, no more than the maximum (or one if that is zero), and no hit is left out unless there is no room and it lies above them all; they are also the first files of a naive scan, and the match count is the length of the list |
| Searching.Search.ScanIsMerge | search.cc:122-143 | scanning all files one by one gives what intersecting and excluding posting sets does |
| Searching.Search.ScanOfHistory | search.cc:122-143 | over an index built by any insertions and erasures the scan says of each file what was put where and not taken away |
| Searching.InPostings | search.cc:127-136 | a file is in all (some) of the sets looked up exactly if it is listed under all (some) of the terms that list anything |
| TextReader.GetNextArgument | functions.cc:34-108 | the loops over the buffer do what the specification of one argument says: terminators written, position moved or lost, failure reported |
| TextReader.ArgumentBefore | functions.cc:49-69 | an argument with a space after it ends there or at its second quote, and the position moves past the spaces; an open quote is reported and the position lost |
| TextReader.LastArgument | functions.cc:70-105 | the last argument loses its quotes and the position is lost, but for one that is not closed, where the position is behind its quote |
| TextReader.LastQuote | functions.cc:83-94 | walking to the end and back finds the last quote that may close the argument |
| TextReader.EndArgument | functions.cc:50-57 | the terminator is written and all spaces after it skipped |
| TextReader.GetNextWithin | functions.cc:110-115 | what is too long is refused, but taken off the text all the same |
| TextReader.GetNextNumber | functions.cc:117-126 | a number is handed over exactly if there is an argument |
| TextCases.LastWord | functions.cc:70-105 | a last word without a quote in front is handed over as it is, and nothing is left; an empty one is refused |
| TextCases.LastQuoted | functions.cc:70-105 | a last argument in quotes, holding no space, is what lies between its first and its last quote |
| TextCases.LastUnclosed | functions.cc:70-91 | a quote with no later one but right behind it, and no space, is refused, and the reader goes on behind it |
| TextCases.LoneQuote | functions.cc:70-97 | a lone quote is overwritten, nothing is found and nothing is left, because the walk back starts in front of the argument |
| TextCases.UnclosedWithSpace | functions.cc:57-69 | a quote that is not closed, with a space behind it, is refused, and so is all the rest |
| TextCases.FirstWord | functions.cc:49-56 | a word ends at its space (32), and all further spaces are skipped |
| TextCases.FirstQuoted | functions.cc:57-69 | an argument in quotes (34), with a space anywhere, ends at the second quote, and the spaces behind it are skipped |
| TextCases.ShiftAtEnd | command.cc:204-206 | where the text has ended nothing is stored and the position stays |
| TextCases.ShiftFound | command.cc:201-233 | an argument that is found comes as the string it is, or as the signed value of the number it reads as |
| TextCases.ShiftMissed | command.cc:201-233 | one that is not found leaves a number unset, and a string pointing where it would begin |
| TextCases.NoOtherCase | functions.cc:34-108 | every text falls under one of these cases |
| Arguments.DigitsMean | command.cc:125 | printed numbers are decimal: the digit at each place |
| Arguments.DigitsEnough | command.cc:125 | there are as many digits as needed and no leading zero |
| Arguments.StrtoulMeans | functions.cc:121 | what a number is read as: blanks, a sign, zeroes and digits up to the first other character, cut at 32 bits |
| Arguments.StrtoulNothing | functions.cc:121 | a sign without digits is read as zero |
| Arguments.NumberRoundTrip | command.cc:124-126 | every 32-bit number, negative ones included, survives printing as a signed and reading as an unsigned decimal |
| Arguments.DecimalLength | command.cc:111-113 | no printed number takes more than eleven characters |
| Commands.TextFits | command.cc:111-130 | the room reserved for an argument, with its four spare bytes, is enough for its text form, space and quotes included |
| Commands.Command.Grow | command.cc:32-37 | the contents are kept, and new memory has a NUL behind the size asked for |
| Commands.Command.FlushText | command.cc:108-138 | the text afterwards is the old text with the arguments printed after it, closed by a NUL, never outside the buffer; it need only be the printed text that stays within 16 bits |
| Commands.Command.FlushBinary | command.cc:108-166 | the arguments are encoded right after the old contents, in the literal bytes of the format, and four bytes for each of them are left unset at the end |
| Commands.Command.Flush | command.cc:108-169 | text form below code 10000 and binary form from there on, and the queue of arguments is empty afterwards |
| Commands.Command.PushAndFlush | command.hh:98-102 | one `<<` adds one argument to the contents |
| Commands.Command.UnshiftAsText | command.cc:201-209 | buffer, position and result are those of the specification of reading one argument, with nothing stored at the end of the text |
| Commands.Command.UnshiftAsBinary | command.cc:209-268 | an argument lying in the literal bytes of the format is taken by who asks for its type; anything with other type bytes leaves position and variable as they were |
| Commands.Command.UnpackAsText | command.hh:173-186 | unpacking in turn is the specification of a whole unpacking |
| Commands.Command.VunpackAsBinary | command.cc:270-292 | the checked unpacking stops, with false, where the position reaches the size |
| TextCodec.PrintLast | command.cc:118-136 | how each argument looks in text, in characters: decimals, quotes (34) around strings with a space, a space (32) in front |
| TextCodec.PrintInSteps | command.hh:98-102 | pushing one at a time prints the same bytes as pushing all at once |
| TextCodec.Take | command.cc:118-136 | whatever follows, the reader finds a readable argument in full and stops in front of the next one |
| TextCodec.UnpackKeeps | functions.cc:50-69 | reading on changes nothing in front of the position, so strings handed out stay good |
| TextCodec.TextRoundTrip | command.cc:118-136 | unshifting what was flushed returns the original numbers and strings, all of them standing at the end |
| TextLimits.Fails | functions.cc:34-108 | an argument that cannot be read spoils the round trip, wherever it stands and whatever follows |
| TextLimits.TextRoundTripIff | functions.cc:34-108 | the round trip holds if and only if every string is non-empty, holds no quote if it holds a space, and does not begin with a quote if it holds none |
| BinaryCodec.EncodedAllLaid | command.cc:139-166 | the bytes of every argument: size with the high byte first, type 1, 2 or 3, and its contents, numbers by value |
| BinaryCodec.LaidTaken | command.cc:209-268 | an argument laid out in these bytes is what is taken |
| BinaryCodec.RefusedMeans | command.cc:209-260 | an argument is refused if and only if its type bytes differ, a number has not four bytes, or a string is empty or not closed |
| BinaryCodec.TakenMeans | command.cc:209-268 | what is taken lies in these bytes: a string up to its first NUL, anything else as a whole |
| BinaryCodec.UnshiftEncoded | command.cc:209-268 | an encoded argument comes back unchanged if asked for as what it is, and is left alone if asked for as anything else |
| BinaryCodec.UnpackEncoded | command.cc:139-166 | for every list of arguments and every list of types asked for, exactly the fitting ones are returned and the position is behind them |
| BinaryCodec.BinaryRoundTrip | command.cc:139-166 | all arguments packed at once come back, whatever the slack bytes are |
| BinaryCodec.VunpackRoundTrip | command.cc:270-292 | the checked unpacking succeeds on them as well, because the slack is part of the size |
| BinaryCodec.VunpackMeans | command.cc:270-292 | checked unpacking goes on while the position is below the size and fails exactly where it is not |
| BinaryCodec.VunpackAgrees | command.cc:270-292 | checked and unchecked unpacking agree as long as something is left |
| BinaryCodec.SecondFlushIsLost | command.cc:111-116 | what comes after the slack of a flush is not returned, whatever is asked for, if that slack does not look like a header |
| BinaryCodec.FlushesReadBackIff | command.cc:108-166 | however arguments are divided among flushes: they all come back, whatever new memory holds, if and only if no more than one flush had any |
| Commands.Command.FlushInParts | command.hh:98-102 | the contents after any number of flushes are those that the exact limit speaks of |
| Framing.FrameBytes | command.hh:131-144 | a frame in bytes: the size, the code, high bytes first, and the contents |
| Framing.FramesDiffer | command.hh:131-144 | a frame says itself where it ends |
| Framing.WireDecodes | client.cc:59-102 | frames read off a stream are a prefix of the frames written to it, and what is left begins with the next one |
| Framing.Send | socket.cc:266-275 | the position moves by what the socket took, and these are the next bytes of the header and the data |
| Framing.Recv | socket.cc:239-246 | bytes received are added where the position is, header included, and nothing is lost on the way |
| Connection.Client.Flush | client.cc:104-121 | bytes sent and bytes still to be sent are together what they were, in order, however the calls went; it returns normally only with an empty queue and gives up only when a call did |
| Connection.Client.Write | client.cc:123-140 | the frame of the command comes after everything queued before; it is sent at once only if nothing was waiting |
| Connection.Client.PeekHead | client.cc:59-85 | size and code are known before a byte is taken, or nothing has happened |
| Connection.Client.RecvMore | client.cc:87-93 | one receive keeps what was received and what is under way together |
| Connection.Client.Read | client.cc:59-102 | a command is returned only when complete and with it exactly its own bytes are taken; otherwise a call gave nothing, or the header was not all there, and nothing is lost; the data are followed by a NUL, and a command already complete is returned without fail |
| Links.Pack | command.hh:188-192 | the command built by SAY carries the arguments in the form that its code asks for |
| Links.Link.Say | command.hh:188-196 | what is written is the message that carries the arguments |
| Links.Link.Read | client.cc:59-102 | what is read is the next message that was written; a command that is complete already is returned without fail |
| Links.Link.InOrder | client.cc:59-140 | at any time the commands read are a prefix of those written, with equal code, size and contents |
| Links.Link.Drained | client.cc:59-140 | with nothing queued and nothing under way all of them have been read, but for one complete command that the next read returns |
| Links.Link.Hear | command.hh:170-192 | end to end: text arguments given to SAY come out of UNPACK unchanged, after any number of partial sends and receives |
| Links.Run | client.cc:59-140 | for every interleaving of writes, flushes, reads and single socket calls with every outcome: read is a prefix of written, and equal once drained |
| Links.SaidIsHeard | command.cc:32-37 | the NUL behind the data is what makes the contents of a command that arrived readable as text |
| Links.SaidIsHeardInBinary | command.cc:139-166 | a binary command that arrived unpacks to the arguments it carries |
| Spelling.FoldSame | defines.hh:96-103 | two names compare as equal exactly if they have the same length and differ only in the case of ASCII letters |
| Channels.OthersUnmoved | channel.cc:45-82 | a client's picture of one channel is not touched by messages of another |
| Channels.RosterInsert | channel.cc:49-57 | what USER_JOIN and USER_HERE say is what the member map gained |
| Channels.RosterRemove | channel.cc:66-70 | what USER_PART says is what the member map lost |
| Channels.RosterMeans | channel.cc:52-57 | a roster lists exactly the names of the members, each with its line speed |
| Channels.ActedMeans | channel.cc:45-82 | what each act makes of the set of members |
| Channels.Channel.Find | channel.cc:40-43 | the member whose name differs in the case of letters only; none exactly if nobody bears such a name |
| Channels.Channel.Insert | channel.cc:45-61 | afterwards every member's replayed roster is the member map and nobody else sees the channel; the user is added exactly if nobody bears the name in any spelling |
| Channels.Channel.AnnounceAll | channel.cc:52-57 | the announcements may go out in any order |
| Channels.Channel.Remove | channel.cc:63-74 | the same when a user leaves, found by identity; a user who is not there is left alone |
| Channels.Channel.Clear | channel.cc:76-82 | the same when all are sent away |
| Channels.Channel.Broadcast | channel.cc:84-90 | every member gets the message once, and nobody else does |
| Channels.Channel.StillValid | channel.cc:45-82 | whatever another channel does, the pictures of this one stay right |
| Channels.RunChannels | channel.cc:45-82 | for every run on any number of channels, members are what the history says and everybody's picture of every channel is right |
| Servers.StepSynchronised | server.cc:54-93 | the lock is held exactly while one of the two threads is in its section, also while the parent's lock waits for the child to release it |
| Servers.StepConserves | server.cc:54-130 | no step of either thread loses, repeats or reorders an accepted client |
| Servers.StepNewestWins | server.cc:118-137 | of the clients kept, exactly those are marked dead that a later connection from their address replaced |
| Servers.Invariant | server.cc:54-167 | all that holds in every interleaving of the two threads |
| Servers.OnePlace | server.cc:60-137 | an accepted client is in exactly one of: the accepting thread's hand, the part of the queue not yet moved, the client list, destroyed |
| Servers.InBothLists | server.cc:110-116 | a client stands in the queue and the client list at once only while the main thread, with the lock, is moving the queue |
| Servers.ArrivalOrder | server.cc:70-116 | clients are moved and kept in the order in which they were accepted |
| Servers.QueueIsGuarded | server.cc:70-116 | the queue is read and changed only by the thread that has the lock, and the other has it not |
| Servers.OpenWaits | server.cc:85-90 | opening returns only after the accepting thread has started |
| Servers.LockIsReleased | server.cc:57-116 | whoever has the lock can always take a step towards releasing it |
| Servers.MainCanStep | server.cc:79-116 | in every run the main thread can take its step exactly where it has come to it, with the lock free where it takes the lock |
| Servers.AcceptorCanStep | server.cc:54-77 | the same of the accepting thread: any new client can be accepted, and handed over once the lock is free |
| Servers.BecomesIdle | server.cc:79-116 | from every state the main thread can come to be idle, with the queue emptied if it was taking it |
| Servers.OpenCanReturn | server.cc:79-93 | there is a run in which opening returns |
| Servers.AcceptedMovesOn | server.cc:60-137 | from every state each accepted client has a continuation that brings it into the client list, or it is destroyed already |
| Servers.LiveAreDistinct | server.cc:118-130 | of two clients from one address the earlier is marked dead |
| Servers.AfterSweep | server.cc:139-167 | after the clients are checked none is dead, their addresses differ, their order is kept, and each is the last that came from its address |
| Servers.TakenInSteps | server.cc:110-116 | moving the whole queue is moving its clients one by one |
| Servers.Server.AddConnection | server.cc:118-130 | the new client comes last, and exactly those from its address are marked dead |
| Servers.Server.CheckIncoming | server.cc:110-116 | all of the queue is added in order, and the marks are those of adding one by one |
| Servers.Server.CheckClients | server.cc:132-167 | erasing while iterating removes exactly the dead and the failing, and keeps the order |
| Notifying.WantsMeans | notify.cc:28-123 | a wish stands exactly if it was made, in any spelling, and neither taken back nor forgotten since |
| Notifying.NotifyManager.RegisteredMeans | notify.cc:99-123 | a user is registered for a name exactly if the user's list holds it in some spelling |
| Notifying.WithEntryRegisters | notify.cc:118-120 | an entry registers just that user for just that name, in every spelling |
| Notifying.WithoutUserRegisters | notify.cc:36-46 | erasing forgets just that user for just that name, in every spelling |
| Notifying.NotifyManager.Add | notify.cc:99-123 | refused exactly if already registered under any spelling; otherwise a key is allocated only for a new name and shared for one known in any spelling, and put first in the user's list |
| Notifying.NotifyManager.Remove | notify.cc:28-69 | registry and list lose the pair, however the name is written, and agree again; the result says whether there was one |
| Notifying.NotifyManager.Leave | notify.cc:36-66 | the key is freed exactly when its last entry goes |
| Notifying.NotifyManager.KeysInUse | notify.cc:62-66 | a key is allocated for exactly the names somebody is registered for, one for all spellings of each |
| Notifying.NotifyManager.Notify | notify.cc:77-92 | everybody registered for the name in any spelling is told once, and nobody else: that the client is online, with its line speed, or that it is offline |
| Notifying.NotifyManager.ClearNotifies | notify.cc:192-197 | the user is forgotten under every name and spelling and nobody else is; the acknowledgement counts what was there |
| Notifying.RunNotifies | notify.cc:28-197 | for every run, a user is registered for a name, in every spelling, exactly if the history says so in some, and registry, lists and keys agree |
| Notifying.EraseUser | notify.cc:40-46 | erasing on the way along the range removes all entries of the user and no other |
| SongCerts.StringsRoundTrip | filecert.cc:183-211 | strings that were written are read back, whatever lies around them |
| SongCerts.StringsCanonical | filecert.cc:183-211 | strings that were read are written as the bytes they were read from |
| SongCerts.SongCert.CreateSignature | filecert.cc:129-164 | the bytes signed are the header and artist, title, album, composer, orchestra and soloist in that order, each with its NUL, missing ones as empty |
| SongCerts.SongCert.ValidSignature | filecert.cc:220-228 | valid exactly if the signature kept is that of the present contents |
| SongCerts.SongCert.ByteSize | filecert.cc:234-246 | the size announced is the number of bytes that will be written |
| SongCerts.SongCert.CopyToBytes | filecert.cc:254-318 | exactly that many bytes are written: 24 of header with version 0, the six fields in order and 20 of signature; or nothing if there is no room |
| SongCerts.SongCert.GetFromBytes | filecert.cc:172-215 | header, the six fields in order and signature are what the bytes say; less than 50 bytes are refused and change nothing |
| SongCerts.SongCert.RoundTrip | filecert.cc:172-318 | what is read from the bytes of a certificate is that certificate, as version 0, and passes the signature test |
| SongCerts.SongCert.ValidExactly | filecert.cc:172-228 | a certificate read from any bytes is valid exactly if they carry the signature of what precedes it, and would be written as those bytes |
| Times.MicrosMean | time.hh:104-105 | a second is a million microseconds |
| Times.NormalForm | time.hh:62-69 | normalising, with C's division, keeps the microseconds and gives the only normal form |
| Times.ArithmeticExact | time.hh:71-83 | sums and differences are exact to the microsecond |
| Times.ComparisonExact | time.hh:47-61 | normal times compare as their microseconds |
| Times.AtLeastBound | time.hh:57-58 | compared with a normal time, any time asks for a definite number of microseconds, which is its own only if it is normal |
| Scheduling.Event.Ready | event.cc:30-36 | ready exactly if the frequency has gone by since the last run, for frequencies that are not normal too |
| Scheduling.Event.Run | event.cc:38-41 | runs when ready are never closer than the frequency; a run at any other time is recorded as well |
| Scheduling.Scheduler.Add | scheduler.cc:23-38 | an event without handler or with frequency zero is refused; any other, of whatever frequency, is added last |
| Scheduling.Scheduler.Run | scheduler.cc:58-84 | passes are never closer than the sixty seconds of the interval; in a pass what was due runs once, what is not due does not run, and without a pass nothing does; the result says whether all that ran succeeded |
| Scheduling.RunIfReady | scheduler.cc:73-80 | one event in a pass: it runs exactly once if it was due, and its failure is reported |
| Scheduling.CountIs | event.cc:30-41 | counting along the runs is counting the runs in the window |
| Scheduling.WindowBound | event.cc:30-41 | a window of length T holds at most 1 + T/frequency runs |

## Left out

- Real sockets, polling, threads, signals and the main loops: they are the arbitrary choices and steps above.
- Datagram clients, addresses per command and the ages of buffers and queues: they do not take part in framing.
- Closing, reopening and destroying clients, servers and trees, and copying commands: lifetime plumbing.
- `Connection.Client.Read`: when a call fails the model keeps the state, while the callers of the source close the connection.
- `TextCodec.UnpackText`: reading on from the null position is the end of the program; the checked unpacking of a text command compares that position, taken as an address difference, with the size, and is not modelled.
- `Commands.Command.Flush`: requires what the 16-bit fields of the source can hold: the printed text in text form, the reserved room in binary form, and each string with its NUL. Beyond that the source truncates, or, for a string of exactly 65535 bytes, reserves too little; neither is modelled.
- `Links.Pack`: the same limits.
- `Servers.OnePlace`: of the queue only the part not yet moved counts, because the source clears the queue only when all of it has been moved; `Servers.InBothLists` says when a client stands in both lists.
- `BinaryCodec.UnshiftBinary`: a header or contents beyond the buffer is its own outcome, which the methods exclude; the source does not check.
- `SongCerts.SongCert.GetFromBytes`: requires that six strings and a signature are there once the buffer is large enough at all, because the source reads on without a check; sizes are not cut to 32 bits.
- `Times.ArithmeticExact`: seconds are unbounded, and times made from floating-point numbers are left out.
- `Channels.Channel.Insert`: names and line speeds are fixed, and other fields of the messages are left out; `User::write` is a stub in the source and appends to the user's outbox here.
- `Notifying.NotifyManager.Notify`: the equal range of a name is in the order of insertion; the order between names does not matter and is left out.
- `Servers.Step`: one step for a whole pass over the clients, because no other thread looks at them.
- `Servers.Server.CheckClients`: reading a command and flushing the queue of a client are the framing part; here they only may fail.
- Parsing a query, tokenising names, and the lexicon: term lists and index contents are given.
- The hash functions, the fixed-layout file certificate, databases, transfers, the disabled server handlers and remote linking.
- Ignore lists, hex conversion, string separation, rotating buffers and addresses: easy members only.
