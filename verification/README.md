# Natural C, verified

A Dafny model of the core of Natural C: its data-structure library, and the compiler `ncc` that the
library itself is written for. The sources are read as `ncc` compiles them: a bare library call is a
`try`, a `string_t *` or `list_t *` local without an initializer is a fresh empty object, and a
function that falls off its end returns `__retval`.

The code is modelled as it is written, with its departures from its evident intent. Where that makes
a property false of the code, the project says exactly when it holds, with a concrete input for
which it does not.

| module | models |
|---|---|
| `Bytes` | characters, text and the view of the C library |
| `Lists`, `Shapes`, `Sorting`, `SortOrder` | the doubly linked list of `list.c`: nodes on the heap, the abstract list and its runs, the order that `list_sort` arrives at, and its two comparisons as orders of texts and of numbers |
| `Buffers` | the NUL-terminated string buffer of `string.c` |
| `Codec`, `Lines`, `Serialize` | percent-encoding, split, join and chomp, list serialization |
| `Framing`, `Chunking`, `ChunkingLimits`, `SocketReader` | `socket_readline`: the abstract reader, its independence of how the stream is cut, the exact limits of that, and the reader on real lists |
| `LineEndings` | what chomp, split and the reader make of lines that end in "\n" or "\r\n" |
| `Tables`, `TableRuns`, `TableExactness` | the hash table as buckets of pairs: single operations, runs against a map, exactly which runs follow the map and which questions are answered as by the map |
| `HashText`, `TextExactness` | the text form of a table, and exactly which tables come back from it |
| `BucketLists`, `HashTables` | one bucket, and the whole table, on the heap |
| `Translator`, `Lowering`, `Outcomes`, `ExitDiscipline`, `Locals` | the parser of `ncc`, the meaning of source and emitted code and their equality, the one outcome that each has, how functions are left, which locals are created and destroyed |

Objects that the sources update in place are classes here (`Entry`, `List`, `Buffer`, `HashTable`,
`Socket`, `Parser`). Each of their methods is proved against a function on values, and the theorems
are about those functions and their runs.

Some ways in which the code and its documentation or intent differ, and what is proved:

- The specification promises that `finally` always runs (doc/docbook/spec.xml:35-40), but `throw`
  and `try` expand to a direct return (nc_exception.h:27, 34, 87).
  `ExitDiscipline.FinallyRunsExact` says exactly when it runs, and
  `ExitDiscipline.FinallyRunsWithControl` gives a condition that shows in the source.
- `list_unshift` and `list_merge` leave a back link NULL, and merging an empty list loses the tail
  (list.c:198-199, 652, 655). A list in this model carries which back links are in order;
  `Lists.Perform` says for each operation when the chain breaks, in terms of the pointers that a
  caller can follow.
- `list_sort` loads the compared pair once per pass (list.c:493-494). It rotates the list;
  `Sorting.SortExact` says exactly which lists it sorts, and runs of list operations do what they
  are meant to do exactly if their sorts meet such lists (`Shapes.LinkKeepingRuns`).
- The searches of the hash table stop at value nodes too (hash.c:71-78, 164-171).
  `TableExactness.RunExact` says exactly which runs behave as a map all the same.
- The text form of a table escapes one newline of a value, and the loader adds one at the end
  (string.c:1066-1103, hash.c:480-500). `TextExactness.OneEntryExact` says exactly which values
  come back.
- `str_unescape` leaves its destination alone when the source is empty (string.c:1335-1337), which
  `list_deserialize` inherits: `Serialize.DeserializeSerializeExact`.
- `socket_readline` loses a carriage return in front of a cut, and an unterminated line behind other
  lines: `ChunkingLimits.ChunkingExact`.

Meanings of functions and of emitted code are compared under equal allowances of jumps and loop
passes, so that equality also covers programs that do not end. The allowances are only a means:
`Outcomes` shows that a run that ends does so in the same way under every larger allowance, and
that a function and its translation have the same outcome or both have none.

## Model

| member | source | states |
|---|---|---|
| Lists.List.Append | list.c:93-106 | A node put behind a list with its tail pointer extends the chain by exactly that node with both links right; on a list that lost its tail pointer the node is counted but stands alone and cannot be reached. |
| Lists.List.Push | list.c:214-223 | A fresh last node holds the value and every other node is as before, unless the tail pointer was lost. |
| Lists.List.Unshift | list.c:189-205 | The value comes first and the forward chain is intact; the old first node is left without a back link. |
| Lists.List.Pop | list.c:232-245 | Gives the last value and takes its node out exactly when that node has its back link; otherwise head still leads, along unchanged pointers, to the node released, nothing else changes, and the tail is lost. A list without a tail is reported as empty. |
| Lists.List.Shift | list.c:442-459 | Gives the first value and unlinks its node on every chain, whatever back links or tail are missing; an empty list fails unchanged. |
| Lists.List.Get | list.c:287-296 | The value at an offset, or an error past the end. |
| Lists.List.Find | list.c:334-347 | True exactly when the text is one of the values. |
| Lists.List.EntryGet | list.c:380-403 | The node at an offset; the walk never runs off the chain. |
| Lists.List.EntryDelete | list.c:412-432 | Unlinks the node at any position with its two neighbours joined, exactly when the node has its back link; otherwise its successor loses its back link, nothing else changes, and head leads along the old pointers to the released node. |
| Lists.List.LeadsAstray | list.c:412-432 | Where head leads to a released node, no sequence of live nodes is a way from head to NULL. |
| Lists.List.Delete | list.c:825-842 | Deletes by offset with the same condition and the same dangling way; an offset equal to the count is accepted and deletes nothing. |
| Lists.List.Truncate | list.c:133-153 | Every node of the chain is released once and the list is empty. |
| Lists.List.Copy | list.c:618-629 | All old nodes are released, all nodes are new, the values are those of the source, and the links are all in order. A list copied onto itself ends up empty. |
| Lists.List.Merge | list.c:641-662 | Every node of both lists ends up once in the destination, in order, counts add up, the source is empty; the node at the seam has no back link, and an empty source costs the destination its tail pointer. A list merged onto itself ends up empty. |
| Lists.List.Move | list.c:674-690 | The nodes themselves change owner with all their links; the old nodes of the destination are released and the source is empty. A list moved onto itself ends up empty. |
| Lists.List.TurnLinks | list.c:806-815 | The pointer-swapping loop ends, and exchanges the two links of exactly the nodes from the end back to the last one without a back link. |
| Lists.List.Reverse | list.c:800-816 | A well-linked list becomes the well-linked list of the same nodes in reverse; otherwise exactly the nodes behind the last missing back link have their links exchanged and stay on the chain, and all others are as they were. |
| Lists.List.SortPass | list.c:488-517 | A pass moves the first value to the end or does nothing, depending on the first pair alone. |
| Lists.List.Sort | list.c:470-520 | The loops end, no link changes, and the values are the rotation that the sorting theorems describe. |
| Lists.Perform | list.c:93-842 | Each operation on a list gives the abstract list, with no node but old, source and new ones; where the abstract step breaks, no way of live nodes from head to NULL has as many nodes as the list counts. |
| Lists.PerformRun | list.c:93-842 | Any run of operations on a list on the heap follows the run on abstract lists up to the first operation that breaks; that one would dereference NULL if it is a merge, and otherwise leaves the pointers as Perform says. |
| Shapes.LinkKeepingRuns | list.c:412-842 | Any run without unshift and merge keeps next and prev mutually inverse and the tail in place. It does at every step what it is meant to do, where sorting means putting comparable values in order, if and only if each of its sorts meets a list that is sorted or has only its first value to move to the end. |
| Shapes.QueueRuns | list.c:641-662 | Any run of appending, unshifting, merging non-empty lists, sorting, copying and taking from the front survives the missing back links, and does what it is meant to do on the same condition on its sorts. |
| Shapes.SurvivingStepExact | list.c:93-842 | An operation that does not break the chain of a list with its tail does what it is meant to do, unless and only unless it is a sort of comparable values that it does not sort. |
| Shapes.RunsThatBreak | list.c:198-199 | Three short runs that break a list: pop after unshift, pop after merge, push after merging an empty list. |
| Shapes.ReverseTwice | list.c:800-816 | Two reversals restore a well-linked list. |
| Sorting.SortExact | list.c:470-520 | With comparable values the sort succeeds, and its result is sorted exactly when the list was sorted already or only its first value belongs at the end. |
| Sorting.SortRotates | list.c:489-519 | Whatever the flags and values, the result is a rotation of the input and so a permutation of it. |
| Sorting.PassOverRotation | list.c:489-519 | After k passes the list is rotated by k, and the next pass goes on exactly while k is before the first adjacent pair in order. |
| Sorting.NoCyclicDescent | list.c:489-519 | Round the list not every adjacent pair can be out of order, so the outer loop ends within count - 1 active passes. |
| Sorting.SortFailsOnCBA | list.c:489-519 | Sorting c, b, a yields a, c, b. |
| SortOrder.StrcmpExact | list.c:496-497 | The comparison of texts: at the first octet that differs the smaller one decides, and a proper prefix comes first. |
| SortOrder.TextSort | list.c:470-520 | A lexicographic sort, ascending or descending, rotates the texts, and leaves them in that order if and only if they were, or come into it when the first goes to the end. |
| SortOrder.NumberExact | string.c:819-854 | A text converts to a number of 32 bits if and only if it is white space, a sign or none, zeros, and the decimal numeral of a number below 2^64; a minus sign means the difference to 2^64. |
| SortOrder.NumericSort | list.c:470-520 | A numeric sort of texts that spell numbers rotates them, and leaves the numbers ascending, or descending with that flag, if and only if they were, or come into that order when the first goes to the end. |
| SortOrder.NinetyNineAndHundred | selftest.c:626-631 | 99 and 100 stay as they are in an ascending numeric sort, and change places in a descending one. |
| Codec.StrEscape | string.c:1288-1319 | The loop computes the encoding that the round-trip lemmas are about; a NUL, which strchr(3) takes for a kept character, is dropped. |
| Codec.StrUnescape | string.c:1328-1353 | The loop computes the decoding of the text before the first NUL; an empty source leaves the destination as it was. |
| Codec.EscapeFirst | string.c:1300-1316 | Character by character: letters, digits and / _ . - ~ stand for themselves, a NUL is dropped, and every other character becomes a percent sign and its two lower-case hexadecimal digits. |
| Codec.CodeDecodes | string.c:1340-1345 | A percent sign and the two hexadecimal digits of a character, each in either case, decode to that character, and those of NUL to nothing. |
| Codec.OtherCopied | string.c:1346-1349 | Any other character decodes to itself. |
| Codec.UnescapeAnyCase | string.c:1288-1353 | Decoding an encoding gives the text back, whatever the case of the digits of its codes. |
| Codec.UnescapeEscape | string.c:1288-1353 | Decoding the encoding of any NUL-free text gives the text back. |
| Codec.EscapeInjective | string.c:1288-1319 | Different NUL-free texts have different encodings. |
| Codec.EscapeCanonical | string.c:1302-1316 | An encoding consists of kept characters and lower-case codes of other characters; no separator and no line ending occurs in it. |
| Codec.EscapeUnescapeExact | string.c:1288-1353 | Encoding the decoding of a text gives the text back exactly when it is such a canonical text. |
| Lines.Strsep | string.c:1469 | The first piece and the rest reassemble to all pieces of the text, and the rest is shorter. |
| Lines.StrSplit | string.c:1442-1482 | The list holds the pieces of the chomped text in order, on fresh nodes; an empty text leaves the list untouched. |
| Lines.StrJoin | list.c:586-607 | The values with the delimiter between them, and a final newline when the delimiter is one; a NUL delimiter puts nothing between them. |
| Lines.TokensRaw | string.c:1469 | Joining the pieces of a text with the delimiter gives the text, and no piece holds a delimiter. |
| Lines.SplitJoinExact | string.c:1442-1482 | For every list and delimiter: splitting the joined text gives the list back exactly when no value holds the delimiter and, for newlines, none ends in CR, for others, the text is not empty and does not end in CR or LF; for NUL there is besides just one value. The empty list comes back for all but the newline. |
| Lines.FinalCRIsLost | string.c:1234-1255 | A list of lines whose text ends in CR never comes back. |
| LineEndings.ChompExact | string.c:1234-1255 | Chomp takes "\r\n" from the end of a text, or else "\n", or else "\r", or nothing. |
| LineEndings.SplitEnded | string.c:1442-1482 | Splitting any lines, each ended by "\n" or "\r\n", at "\n" gives exactly the lines. |
| Bytes.CStringEnds | string.c:535-562 | What the C library sees of a text ends in front of its first octet 0. |
| Serialize.ListSerialize | list.c:724-739 | The values, encoded, with single spaces between them. |
| Serialize.ListDeserialize | list.c:748-761 | The list holds the decoded pieces, except that an empty piece repeats the value before it, because the decoding buffer is shared. |
| Serialize.EscapedLinesSplit | list.c:748-757 | Splitting the serialized text at its spaces gives exactly the encoded values, except for a single empty value. |
| Serialize.DeserializeSerializeExact | list.c:724-761 | A NUL-free list comes back from its serialized form exactly when its empty values all come first and it is not one empty value. |
| Serialize.NonEmptyValuesComeBack | list.c:724-761 | Every list of non-empty values, the empty list included, comes back. |
| Serialize.EmptyValueRepeats | list.c:757-760 | A value and then an empty one come back as the value twice. |
| SocketReader.Socket.ReadLoop | socket.c:854-908 | The nest of loops and gotos around read(2) gathers exactly the text, the end or the time-out that the abstract reader gathers, and updates the status bits as it does. |
| SocketReader.FoldIn | socket.c:914-939 | Completing the fragment, merging and shifting on real lists gives the abstract buffer and first line, and the lists stay sound. |
| SocketReader.Socket.TakeLine | socket.c:910-939 | Splitting, completing the fragment, merging and shifting the real lists does what the abstract reader does with a text. |
| SocketReader.Socket.Readline | socket.c:840-942 | One call on the real buffer list, status bits and input answers and changes its state as the abstract reader does. |
| SocketReader.ReadAll | socket.c:840-942 | Reading a framable stream to its end delivers exactly its lines, however it was cut. |
| Framing.SplitPieces | string.c:1442-1482 | What split makes of a text is its lines without LF or CRLF, the last of them without one CR more. |
| Framing.TokensConcat | string.c:1469 | The pieces of two adjoining texts are the pieces of each with the two in the middle glued. |
| Chunking.AnyChunking | socket.c:840-942 | Chunking independence: however an orderly feed cuts a framable stream, repeated calls deliver exactly the lines of the stream and then fail. |
| LineEndings.EndedDelivered | socket.c:840-942 | However an orderly feed cuts lines ended by "\n" or "\r\n", repeated calls deliver exactly the lines and then fail. |
| LineEndings.CutAtNul | socket.c:885-886 | Of the bytes of one read, those from an octet 0 on are not seen. |
| Chunking.EarlyEnd | socket.c:840-942 | Wherever a stream breaks off whose carriage returns stand only at the ends of lines (the first line apart), what was delivered is a prefix of its lines, in order. |
| Chunking.DrainPending | socket.c:840-942 | From any state that meets the framing invariant, a session delivers a prefix of the pending lines, and all of them unless the stream ends behind a fragment. |
| Chunking.CallPending | socket.c:854-942 | One call delivers the next pending line or times out, keeps the framing invariant, and never runs into a logic error. |
| Chunking.AcceptWithFragment | socket.c:914-936 | Text that ends inside a line leaves exactly that piece behind as the fragment, and no pending line is lost. |
| Chunking.AcceptWholeLines | socket.c:914-939 | Text that ends a line leaves no fragment, and its lines join the pending ones. |
| ChunkingLimits.ChunkingExact | socket.c:840-942 | All ways of cutting a NUL-free stream deliver its lines if and only if carriage returns stand only at the ends of lines (the first line apart) and the last line is terminated or the only one. |
| ChunkingLimits.PrefixExact | socket.c:840-942 | Every way of cutting a NUL-free stream delivers a prefix of its lines if and only if carriage returns stand only at the ends of lines, the first line apart. |
| ChunkingLimits.SomeChunkingBreaks | socket.c:840-942 | For every other stream, a feed that delivers different lines. |
| ChunkingLimits.LastLineIsLost | socket.c:898-936 | Of a stream read at once that ends inside a later line, only the first line is delivered. |
| ChunkingLimits.LastLineExample | socket.c:898-936 | Of the lines a and b, the second unterminated and both read at once, only a is delivered. |
| ChunkingLimits.LaterLineShrinks | socket.c:912-936 | For any carriage return inside any later line, terminated or not, a feed that delivers that line shorter than it is. |
| ChunkingLimits.NoLogicError | socket.c:916-924 | While no data follows an end of file, no session of any bytes and errors runs into either logic error. |
| ChunkingLimits.LogicErrorAfterEof | socket.c:916-921 | Data after an end of file does run into it. |
| ChunkingLimits.TimeoutLosesText | socket.c:870-872 | Text gathered before a read that would block is dropped. |
| Tables.HashFunction | hash.c:43-55 | The slot is the exclusive or of the octets of the key, below 256. |
| Tables.SlotParts | hash.c:43-55 | The empty key has slot 0, a key of one octet has that octet for its slot, and the slot of two texts together is the exclusive or of their slots. |
| Tables.SetExact | hash.c:148-184 | Within a bucket, setting is a map update exactly when no value node in front of the key equals it, or nothing changes by it. |
| Tables.DeleteExact | hash.c:94-113 | The same for deleting: both directions. |
| TableRuns.CleanRunRefinesMap | hash.c:94-218 | A run of set, delete, truncate and from-list whose searches meet no value node equal to the key never faults and leaves the table holding, and counting, exactly the map. |
| TableRuns.ApartRunRefinesMap | hash.c:94-583 | From the empty table, a program that keeps its keys and its values apart gets a plain map, and lookups answer as the map does. |
| TableRuns.ShadowedFaults | hash.c:71-78 | A key stored as the value of another key of its slot makes get and set dereference NULL. |
| TableRuns.ShadowedExample | hash.c:164-171 | Setting ab to ba and then ba to anything dereferences NULL. |
| TableRuns.EnumerationAgrees | hash.c:272-362 | Keys and values are equally long and aligned, the keys are distinct, their zip is exactly the map, and a value is listed exactly when it is in the map's range. |
| TableExactness.SetStepExact | hash.c:148-184 | On a whole table that holds a map: setting leaves it holding the updated map if and only if the search does no harm. |
| TableExactness.DeleteStepExact | hash.c:94-113 | On a whole table: deleting removes exactly the key, or reports it missing, if and only if the search does no harm. |
| TableExactness.KeyExistsExact | hash.c:333-344 | On a whole table that holds a map: the key is reported as the map has it if and only if the map has it or no key of its slot has it for a value. |
| TableExactness.GetExact | hash.c:123-138 | On a whole table that holds a map: a lookup answers as the map if and only if no key of the slot has the key for a value; or the key is there, and stands before the first such value or has for its own value the key that stands behind it. |
| TableExactness.RunExact | hash.c:94-583 | A run holds the map at every one of its steps if and only if no search of it does harm. |
| TableExactness.AnswersAfterRun | hash.c:94-583 | After a run from the empty table whose searches do no harm, lookups and tests for a key answer as the map, under those conditions on the map. |
| HashText.LineMatches | hash.c:470-472 | The regular expression finds the key and the value of a written line, whatever the value holds. |
| HashText.MatchLineExact | hash.c:470-472 | The key and the value taken from a line are those of the leftmost match of ([A-Za-z0-9._-]+): (.*), and there are none if and only if nothing matches. |
| HashText.GoodKeyExact | hash.c:470-472 | The keys of the round-trip theorems are exactly the texts that the expression takes for the key of their own line. |
| TextExactness.WrittenSplits | hash.c:396-436 | Splitting the text of a table gives the lines of its entries in order, one for a one-line value and one more for each newline of another, each without a final carriage return, the last without two. |
| TextExactness.WrittenFirst | hash.c:396-436 | An entry is written as its key, ": ", its value and "\n"; the first "\n" of the value stands behind a backslash. |
| TextExactness.LineRead | hash.c:445-505 | Reading the line of an entry whose value ends in neither CR nor backslash into any table sets its key. |
| TextExactness.TwoLinesRead | hash.c:445-505 | Reading an entry of two lines into any table sets its key to the two lines, each with its "\n". |
| TextExactness.ReturnsExact | hash.c:396-505 | The values that come back, written out: one line that ends in neither CR nor backslash, or two of which the second is such a line and not empty. |
| TextExactness.LoadSetsPairs | hash.c:445-505 | Loading the lines of entries whose values come back sets them one after the other. |
| TextExactness.OneEntryExact | hash.c:396-505 | One entry with a key over the regular expression's characters and any value at all comes back if and only if the value is one line ending in neither CR nor backslash, or two lines, ended by a newline, of which the second is not empty and ends in neither. |
| TextExactness.RoundTripExact | hash.c:396-505 | For keys over the regular expression's characters and values that are one line or have that two-line form, loading the text into a new table gives the same map if and only if every stored key can be found and every value comes back by itself; then it gives the same table. |
| BucketLists.SearchNodes | hash.c:71-79 | Walking the nodes of a bucket one by one stops at the first node equal to the key, be it a key or a value. |
| BucketLists.GetIn | hash.c:123-138 | The node after the one found, on the real list; NULL there is a fault. |
| BucketLists.SetIn | hash.c:161-183 | On the real list: writing the node after the one found, or appending a pair. |
| BucketLists.DeleteIn | hash.c:100-112 | On the real list: taking out the node after the one found and then that one. |
| BucketLists.RemoveTwo | hash.c:103-106 | Two deletions of adjacent nodes leave the list whole, without those two values. |
| HashTables.HashTable.constructor | hash.c:192-198 | A new table is empty. |
| HashTables.HashTable.Get | hash.c:123-138 | Answers as the abstract table and changes nothing. |
| HashTables.HashTable.Set | hash.c:148-184 | The heap of 256 lists changes as the abstract table does, with all other buckets untouched and no nodes shared. |
| HashTables.HashTable.Delete | hash.c:94-113 | The same for deletion. |
| HashTables.HashTable.Truncate | hash.c:206-218 | Every node of every bucket is released, every bucket is empty, and the count is zero. |
| HashTables.HashTable.KeyExists | hash.c:333-344 | True exactly when the search finds something to return. |
| HashTables.HashTable.GetKeys | hash.c:272-293 | The keys in bucket order, by steps of two nodes that never leave a list. |
| HashTables.HashTable.GetValues | hash.c:302-323 | The values in the same order. |
| HashTables.HashTable.ValueExists | hash.c:355-362 | True exactly when the value is stored under some key. |
| HashTables.HashTable.Serialize | hash.c:396-436 | Appends the text of all pairs to the destination. |
| HashTables.HashTable.Deserialize | hash.c:445-505 | Loads a text of any form into the heap as the abstract loader does, errors included. |
| HashTables.HashTable.FromList | hash.c:556-583 | An odd list is refused; an even one is set pair by pair. |
| Translator.Parser.ParseLine | ncc:540-641 | One turn of the parser loop emits and remembers what the line calls for. |
| Translator.Parse | ncc:540-641 | A whole file is translated line by line from the parser's initial state. |
| Translator.FunctionEmitted | ncc:543-626 | Whatever stood before it in the file, a function with or without catch and finally comes out in the one layout of body, catch, finally, destructors and return. |
| Translator.FileIsolates | ncc:543-626 | The functions of a file do not influence each other's translation. |
| Translator.MissingBlankLeaks | ncc:561-606 | Any function without a blank line, whatever it declares and does, creates none of its own locals and destroys the locals of the function before it. |
| Locals.CreatedAndDestroyed | ncc:245-300 | The code of a function anywhere in a file has one item that creates locals, behind its declarations, and one that destroys them, in front of the return; both name exactly the variables without an initializer in its declarations of object types, in order and each as often as declared. |
| Locals.SmallFunction | ncc:540-641 | The code of a function with two declarations and a return, item by item. |
| Lowering.StatementPreserved | ncc:637-641 | A rewritten statement has the events, the return code and the jump that the statement means, through branches and loops. |
| Lowering.Labels | ncc:581-626 | The two labels occur once each in an emitted function, at the places of the layout. |
| Lowering.LoweringPreservesMeaning | ncc:581-641 | The emitted labels, gotos and returns produce the event trace and return code of the structured function, jump for jump and pass for pass. |
| Lowering.TranslationPreservesMeaning | ncc:543-641 | The same for the parser's output on a function anywhere in a file. |
| Locals.LocalsLive | ncc:543-641 | Whatever a function does, its emitted code creates exactly those variables in order before anything else; if it returns, it destroys them in the same order behind everything else, and if it leaves at once, not at all; nothing else is created or destroyed. |
| Outcomes.MeaningMore | ncc:581-641 | A function that ends under some allowance ends in the same way under every larger one. |
| Outcomes.RunCodeMore | ncc:581-641 | So does any emitted code, from any position. |
| Outcomes.OneOutcome | ncc:581-641 | A function has at most one outcome: one trace and one return code, whatever the allowances. |
| Outcomes.OneOutcomeOfCode | ncc:581-641 | So has any emitted code. |
| Outcomes.SameOutcome | ncc:543-641 | A function and its translation, anywhere in a file, have the same outcome or neither has one. |
| ExitDiscipline.ExitsOnce | ncc:581-641 | If nothing returns in finally and catch never returns 0: catch is entered once if the body raised, or finally raised after success, and not otherwise; finally is entered twice if it raised after success, and otherwise once; every automatic local is destroyed exactly once; the code is that of the body, or a failure after a raise; and three jumps are enough unless a block that is entered does not stop. A function that leaves at once enters the blocks no more often and destroys nothing. |
| ExitDiscipline.EmittedExitsOnce | ncc:543-641 | The same for the code emitted for the function anywhere in a file. |
| ExitDiscipline.FinallyRunsExact | nc_exception.h:27-87 | In a function that ends, finally is entered if and only if neither the body nor the catch block it raised to is left by throw or try. |
| ExitDiscipline.FinallyRunsWithControl | nc_exception.h:27-87 | In a function that ends, without throw and bare library calls in body and catch, finally is entered. |
| ExitDiscipline.ThrowSkipsFinally | nc_exception.h:34 | A function that throws leaves without its finally block. |
| ExitDiscipline.ReturnInFinallyNeverReturns | ncc:637-641 | A finally block in which something returns, jumps or throws on every way keeps its function from ever returning, whatever body and catch do. |
| ExitDiscipline.NoEndOfFinally | ncc:637-641 | So does any finally block that is never run to its end, for whatever reason. |
| ExitDiscipline.SuccessFromCatchLoops | nc_exception.h:40 | If catch always returns success and finally, entered with success, always raises, the function never ends unless its body returns failure or leaves at once. |
| Buffers.Buffer.constructor | string.c:429-444 | A new string is empty, terminated, and 16 characters large. |
| Buffers.Buffer.Truncate | string.c:90-97 | The string is empty and still terminated. |
| Buffers.Buffer.Resize | string.c:467-486 | Only sizes from 1 to STRING_MAX are accepted; the block never shrinks and the contents with their NUL survive. |
| Buffers.Buffer.SetLen | string.c:370-386 | Accepted exactly below the size; a failure changes nothing. |
| Buffers.Buffer.Cat | string.c:535-562 | All or nothing: the text is appended exactly when the result stays below STRING_MAX, the block grows to the text and its NUL if it has to, and the last step cannot fail. |
| Buffers.Buffer.Putc | string.c:106-117 | Appends one character under the same condition; a NUL appends nothing. |
| Buffers.Buffer.Ncpy | string.c:864-892 | Replaces the contents when shorter than STRING_MAX; at exactly STRING_MAX it fails with the old contents already gone. |
| Buffers.Buffer.Cpy | string.c:73-82 | Replaces the contents, or fails and changes nothing. |
| Buffers.Buffer.Copy | string.c:268-297 | The contents of the source in a block of their own; copying onto itself is refused. |
| Buffers.Buffer.Move | string.c:310-340 | The contents change owner and the source is left empty. |
| Buffers.Buffer.Append | string.c:517-525 | Appends the source's contents or changes nothing. |
| Buffers.Buffer.Prepend | string.c:495-507 | The source's contents come first; when both do not fit, the destination is left with the source's alone. |
| Buffers.Buffer.TruncateAt | string.c:176-184 | A prefix of the contents, or an error past the end. |
| Buffers.Buffer.SetTerminator | string.c:248-259 | Replaces the last character, drops it for NUL, or becomes the first. |
| Buffers.Buffer.ChompInPlace | string.c:1234-1255 | One LF and then one CR disappear from the end, in place. |
| Buffers.Buffer.Swap | string.c:1490-1498 | The two strings exchange blocks and contents. |
| Buffers.RunsStayBounded | string.c:73-892 | No run of operations on a pool of strings, those with two strings included, reaches STRING_MAX characters or puts a NUL into a text. |
| Buffers.LongestText | string.c:535-562 | A string holds any text of up to 536870911 characters, and no longer one. |
| Buffers.RunOps | string.c:73-892 | Any run of operations on a pool of strings, with one string or two different ones or one twice, keeps them terminated, within their blocks and with blocks of their own, and has the effect of the same run on plain texts. |

## Left out

- The rest of `socket.c` with TLS, and `dns.c`, `host.c`, `passwd.c`, `file.c`, `process.c`,
  `signal.c`, `thread.c`, `session.c`, `server.c`, `log.c`: system calls and callback dispatch.
- read(2) is the sequence of its results; what `select`, time and the network do is not modelled.
- Allocation failure: every `malloc` succeeds. The undo branch of `hash_set` for a failed push
  (hash.c:177-182) is not reached.
- Strings of size 0 (`EMPTY_STRING`), `str_alias` and unowned blocks: every buffer owns its block.
- Buffers.Buffer.Cat: does not model a source that lies inside the destination's own block.
- Buffers.Buffer.Cpy: nor does this; the code refuses the block itself as a source.
- Buffers.Buffer.Ncpy: nor does this; and it copies text without a NUL among the characters it is told to copy.
- The C integers of strtoul(3) are those of a 64-bit `unsigned long` and a 32-bit `unsigned int`.
- The bound STRING_MAX outside `Buffers`: the texts of the other modules are unbounded.
- The wrap-around of `size_t` and `uint32_t` counters of lists and tables, which count objects in memory.
- Moving values out of list nodes is a copy of values; which block a value occupies is left to `Buffers`.
- Lists.List.Merge: does not model a destination with nodes but without its tail, where the code dereferences NULL.
- Lists.PerformRun: ends at such a merge; each operation that takes from a list has a source of its own.
- HashTables.HashTable.FromList: does not model a list that is one of the table's own buckets.
- Codec.StrUnescape: does not model what sscanf(3) makes of a '%' that two hexadecimal digits do not follow (one digit, white space, a sign, "0x"); such a '%' is copied.
- Buffers.RunOps: leaves `str_set_len` out of runs, because it can leave a NUL inside the text.
- Lines.StrSplit: a NUL delimiter and texts with an embedded NUL are as on texts, not as strsep(3) sees them.
- HashTables.HashTable.GetKeys: returns the sequence of keys instead of filling a list, as do GetValues and the list that ValueExists searches.
- TextExactness.RoundTripExact: whole tables that hold values of other multi-line forms are not covered; such a value does not come back by itself (`TextExactness.OneEntryExact`), and its later lines are read as entries of their own, which may set any key.
- `hash_copy`, `hash_from_char`, `hash_print`, `list_compare`, `list_from_char`, `list_write`, `list_find_substr`: easy members, or not working as documented.
- `list_sort` with the pair reloaded at each step, which is not what the code does.
- In `ncc`: lexing by regular expressions, include search, method-call syntax, `foreach`, class definitions, logging and the gcc invocation. Lines come classified.
- Functions whose finally comes before their catch; functions without a blank line, except for `Translator.MissingBlankLeaks`.
- A failing automatic `new` or `destroy`, which return at once, and `throw_fatal`, which aborts.
- General regular expressions; the one of the table loader is modelled on its own pattern.
