# Verified models of the SDK's C cores

Dafny models of the nine C files of the chip SDK in which something intricate happens, with proofs of
what each of them is for. `dafny verify dfyconfig.toml` checks everything.

| file | models |
|---|---|
| `ConsoleStream.dfy` | the UART console's lines as a fold over bytes, and what CR and LF do |
| `Console.dfy` | the UART console: interrupt and task hand line buffers round a ring, in any interleaving |
| `MergeSort.dfy`, `ListBench.dfy` | CoreMark's in-place list mergesort with its self-modifying comparators, and the list benchmark around it |
| `Crc.dfy` | CoreMark's bit-serial CRC-16 |
| `CoreState.dfy` | CoreMark's number scanner against its grammar, and the corrupt-and-restore benchmark |
| `JsonValue.dfy`, `JsonParse.dfy` | JSON trees with the text cJSON prints for them, and what its parser reads, as functions |
| `JsonRoundTrip.dfy` | parsing undoes printing |
| `JsonSyntax.dfy` | the grammar of the texts that cJSON accepts, with space and comments, and the proof that it reads just these |
| `JsonString.dfy` | cJSON's string literal decoder, on a buffer of the size that its first scan computes |
| `JsonMinify.dfy` | the in-place minifier |
| `JsonPrint.dfy` | the growing or preallocated print buffer and the printer with one allocation for each node |
| `JsonNode.dfy` | cJSON's doubly linked sibling lists |
| `JsonTree.dfy`, `JsonBuild.dfy`, `JsonEdit.dfy` | trees of nodes on a heap: delete, parse under failing allocations, duplicate, reference, replace |
| `Wrappers.dfy`, `Bytes.dfy` | optional values and bytes |
| `Bootloader.dfy` | the update from a compressed image, with power lost at any step |
| `HeapTrace.dfy` | the heap tracer's table, search hint and totals |
| `AtQueue.dfy`, `AtParameter.dfy` | the AT parser's byte queue, IP and hex parameters |

How the models are built:

- A C structure whose fields change is a class; loops of the source are loops with invariants, proved against
  functions or predicates on plain sequences and maps. Large method bodies of the source are cut into smaller
  methods where that keeps the proofs short.
- A choice that the model cannot know (an allocation fails, a read is short, the decoder stops here) is a
  nondeterministic assignment, so each theorem holds for every choice.
- The console's atomic steps are methods of one class that keep `Valid()`; `Session` runs any script of arrivals,
  interrupts and task steps, and a ghost counter holds the bytes dropped. `Valid()` says that the buffers in use form
  one cyclic window.
- The heap of cJSON keeps a ghost set of live blocks. Freeing needs a live block, and freeing a node havocs its
  fields, so neither a double free nor a use after free can be verified.
- The flash of the bootloader records every intermediate state, byte by byte and sector by sector (a sector passes
  through arbitrary contents while it is erased), and a byte can only be written where the flash is erased.
- Bytes are integers from 0 to 255; the CRC, the list data and the number scanner work on bit-vectors of the source's
  width.

Behaviour of the code that its description does not suggest, and that the models follow:

- A string literal may end with the text instead of a quote (`src/cjson/cJSON.c:507-520` and `src/cjson/cJSON.c:658-662`),
  an exponent may lack digits, a zero may stand in front of other digits, and a minus sign alone is a number.
  `JsonSyntax.AcceptsDocuments` gives the whole grammar.
- `print_object` reuses the variable that holds its start, so its returned pointer only serves as a flag inside other
  values (`src/cjson/cJSON.c:1547-1556`); a whole document still starts at the buffer's start.
- `core_state_transition` accepts a lone point as a floating number, needs a sign in every exponent, and leaves an
  invalid token behind the offending symbol, not behind its comma.
- Whether an LF behind a CR ends another, empty line depends on whether it had arrived when the interrupt looked
  (`src/console/console.c:214-222`).
- The console starts with a saved byte of zero (`src/console/console.c:92-116`), which the first interrupt discards.
- If the boot record cannot be read, `bl_uncompress_image` falls back to sequence 0 and `bl_load_bin` then writes that
  into the record, so a pending update can be lost (`Bootloader.LoseUpdate`); an uncompressed update image that cannot be
  loaded where it lies is lost the same way (`Bootloader.LoseUncompressed`). `Bootloader.Boot` states exactly when.
- A failed decompression is still followed by the section check, and the record is set if that passes.
- Reallocation moves the sums of the heap regions but not their entry counts (`HeapTrace.CountDrifts`);
  `HeapTrace.Tracer.TraceRun` says when they are right.
- A hex parameter that ends with anything but a colon also skips the byte behind its end
  (`src/atcmd/at_parameter.c:297-300`).

## Model

| member | source | states |
|---|---|---|
| Console.Console.constructor | src/console/console.c:357-408 | the state that start leaves: buffer 0 receives, all others are free, no line is ready |
| Console.GetValidBufIdx | src/console/console.c:131-146 | one round behind the last index finds the nearest set bit and clears only it, or finds none if there is none |
| Console.RxStep | src/console/console.c:150-162 | making the receiving buffer ready and taking the next free one keeps the cyclic window |
| Console.TakeStep | src/console/console.c:304-341 | the task's scan for a ready line meets the oldest one first |
| Console.ReleaseStep | src/console/console.c:304-341 | releasing the executed buffer shortens the window at its old end |
| Console.Console.RxCmdline | src/console/console.c:150-162 | a finished line becomes ready with its bytes unchanged and the semaphore counts it |
| Console.Console.PutText | src/console/console.c:165-286 | a byte of text follows the fold: printable bytes append, others and overlong lines restart |
| Console.Console.RxOneBuffer | src/console/console.c:165-286 | serving one buffer hears exactly the bytes up to the first CR or LF, and that as one line end |
| Console.Console.FinishLine | src/console/console.c:165-286 | at a line end the line is handed over; behind a CR, an LF that is there is swallowed and any other byte that is there is kept and asks for another turn |
| Console.Console.RxTurn | src/console/console.c:165-286 | with a buffer its bytes are served, without one all waiting bytes are dropped and counted |
| Console.Console.RxCallback | src/console/console.c:165-286 | the interrupt hears at least one waiting byte, in order; none is dropped unless it has no buffer or is left without one behind a CR, and then all that are left are |
| Console.Console.TaskTake | src/console/console.c:304-341 | the task takes the oldest ready line |
| Console.Console.TaskExecute | src/console/console.c:304-341 | what is executed is exactly the oldest line that was received and not yet executed |
| Console.Console.TaskRelease | src/console/console.c:304-341 | the buffer is freed, and serves reception at once if reception had none |
| Console.InOnePlace | src/console/console.c:131-162 | in every reachable state each buffer is receiving, ready, executing or free, and only one of these |
| Console.SemaphoreCountsReady | src/console/console.c:150-162 | in every reachable state the semaphore and the token held by the task count the ready buffers |
| Console.ExecutedInOrder | src/console/console.c:304-341 | executed lines are a prefix of the received lines, missing at most one for each buffer, and all of them once the task waits on a zero semaphore |
| ConsoleStream.FoldSplits | src/console/console.c:165-286 | cutting a byte stream anywhere does not change the lines it gives |
| ConsoleStream.FoldIsClean | src/console/console.c:165-286 | lines and the unfinished line are printable and shorter than 256 bytes |
| ConsoleStream.FoldUndoesTyping | src/console/console.c:165-286 | typing printable lines gives back those lines |
| ConsoleStream.LineBehindByte | src/console/console.c:165-286 | a byte that is neither text nor LF throws away what was typed before it on the line: the line behind it is what is typed after it |
| ConsoleStream.LineBehind | src/console/console.c:165-286 | where a line starts, any text and LF give the text as the line, or of a text of 256 bytes and more what is left when the buffer starts again every 256 bytes |
| ConsoleStream.LineBehindRun | src/console/console.c:165-286 | a text that fills the buffer throws away the line |
| ConsoleStream.ServedReads | src/console/console.c:165-286 | serving one buffer hears a CR as a line end, with an LF behind it swallowed if it is there already |
| ConsoleStream.ReadingsAreAlike | src/console/console.c:165-286 | however CR and LF were cut apart, the lines are the same but for empty ones |
| Console.TaskStep | src/console/console.c:304-341 | the next step of the task, which stays blocked while no line is ready; every other step brings it nearer to waiting or shortens the window |
| Console.Happen | src/console/console.c:165-345 | one arrival, interrupt or task step in any state: bytes arrive as they are, an interrupt hears at least one, the task moves on unless it is blocked; bytes are dropped only when an interrupt has no buffer, and then all that are left |
| Console.HasRoom | src/console/console.c:131-162 | reception has a buffer as long as fewer lines than buffers have arrived |
| Console.Session | src/console/console.c:165-345 | any interleaving that dropped no byte hears the whole stream, and executes the lines of one fold over what was heard, once each and in order; no byte is dropped while there are more buffers than line ends, even if the task never runs |
| Console.Drain | src/console/console.c:165-345 | from any state, interrupts and task steps in turn end with nothing waiting and every completed line executed; every byte is heard, unless a CR with more behind it uses up the last buffer |
| Console.CompleteSession | src/console/console.c:165-345 | after any script that dropped no byte and a drain that drops none, the executed lines are exactly those of the whole stream, up to empty ones if it has CRs |
| MergeSort.CalcFunc | src/coremark/core_list_join.c:63-98 | the value is cached in the low byte, bit 7 saying so, and stable from then on; the high byte survives, whatever the kernel returns; types without a kernel have their own low seven bits as the value |
| MergeSort.ComparedBits | src/coremark/core_list_join.c:63-118 | which bits the two comparators of the source look at and settle |
| MergeSort.Compare | src/coremark/core_list_join.c:101-118 | the sign follows a total preorder on keys that later comparisons do not change, for both comparators of the source and for any other that is a total preorder; data already settled is not touched |
| MergeSort.AtMostIsPreorder | src/coremark/core_list_join.c:101-118 | what each comparator decides by is total and transitive |
| MergeSort.TakeFirst | src/coremark/core_list_join.c:456-478 | taking from the first run when its key is not greater keeps the merged part sorted and stable |
| MergeSort.TakeSecond | src/coremark/core_list_join.c:456-478 | taking from the second run when its key is smaller keeps the merged part sorted and stable |
| MergeSort.MergeStep | src/coremark/core_list_join.c:454-478 | one relinking keeps the three threads of the list intact and all nodes in them |
| MergeSort.MergeTwo | src/coremark/core_list_join.c:450-481 | two neighbouring runs become one run of the same nodes behind what was merged before |
| MergeSort.Pass | src/coremark/core_list_join.c:433-484 | a pass turns sorted runs of a width into runs of twice that width, and counts them |
| MergeSort.OneRunIsSorted | src/coremark/core_list_join.c:486-491 | a list that is one run is sorted and stable, and every item of it has been compared |
| MergeSort.Mergesort | src/coremark/core_list_join.c:426-496 | for both self-modifying comparators and for every comparator that is a total preorder: the result has exactly the same nodes, NULL-terminated, sorted and stable; it terminates |
| ListBench.Find | src/coremark/core_list_join.c:370-381 | the first node that matches, or none if no node does |
| ListBench.Reverse | src/coremark/core_list_join.c:395-405 | the chain of the same nodes in reverse order |
| ListBench.CacheNext | src/coremark/core_list_join.c:156-162 | the node behind the found one moves behind the head; the nodes stay the same |
| ListBench.Remove | src/coremark/core_list_join.c:316-330 | the following node leaves the chain and the two nodes have exchanged their data |
| ListBench.UndoRemove | src/coremark/core_list_join.c:345-354 | links and data are exchanged back |
| ListBench.RemoveAndRestore | src/coremark/core_list_join.c:174-186 | removing, searching and putting back leaves chain, data and links as they were; the CRC starts at the first match among the items without the second one |
| ListBench.Scramble | src/coremark/core_list_join.c:143-170 | the searches one after the other: each finds the first match or none, turns the list round and moves a node; the count is four for each hit, one less for each miss, and the bits of the items, in sixteen bits |
| ListBench.SearchOnce | src/coremark/core_list_join.c:143-170 | one search: what it finds, the list behind it and the bit it adds |
| ListBench.CrcWalk | src/coremark/core_list_join.c:174-193 | the CRC of the head's data once for each node from a place on |
| ListBench.IndexedIsUnique | src/coremark/core_list_join.c:112-118 | sorting by distinct indices leaves only one order |
| ListBench.SortedIsIndexed | src/coremark/core_list_join.c:187-188 | the final sort by index gives back the indexed order |
| ListBench.Shuffle | src/coremark/core_list_join.c:143-173 | searches and the sort by data keep the nodes and the high bytes of the data; the list and the count after the searches are those of the search rounds |
| ListBench.SortByValue | src/coremark/core_list_join.c:171-173 | the sort by data: every value cached, rising, equal ones in the order they had |
| ListBench.Restore | src/coremark/core_list_join.c:187-188 | the sort by index brings back the original order and rebuilds every item from its high byte |
| ListBench.BenchList | src/coremark/core_list_join.c:132-199 | a list sorted by distinct indices with original data ends with the same order, info pointers and data, for every sign of the finder index; the answer is the two CRC walks behind the count, fully determined for a finder index that is not positive, and up to the values of the benchmark kernels otherwise |
| Crc.CrcBit | src/coremark/core_util.c:148-160 | one turn of the loop is one step of the shift register with polynomial 0xA001, the data bits still to come being xored in |
| Crc.Crcu8 | src/coremark/core_util.c:142-163 | eight steps of the register applied to crc xor the byte |
| Crc.Crcu16 | src/coremark/core_util.c:166-170 | sixteen steps of the register applied to crc xor the word |
| Crc.Crcu32 | src/coremark/core_util.c:172-176 | the two words one after the other, low word first |
| Crc.StepsAreLinear | src/coremark/core_util.c:142-163 | any number of steps is linear over xor |
| Crc.StepsAreBijective | src/coremark/core_util.c:142-163 | any number of steps can be undone, in both directions |
| Crc.Crc16Laws | src/coremark/core_util.c:142-179 | the word CRC is linear, injective in the word and injective in the old CRC |
| Crc.MessageIsBits | src/coremark/core_util.c:142-179 | feeding words is feeding their bits, low bit first, into the register |
| Crc.BurstIsDetected | src/coremark/core_util.c:142-179 | two bit streams that differ only within a burst of at most sixteen bits have different CRCs |
| Crc.OneWordIsDetected | src/coremark/core_util.c:142-179 | two messages that differ in exactly one word have different CRCs |
| CoreState.Classifies | src/coremark/core_state.c:184-277 | every state but the invalid one is reached exactly on the tokens of its grammar: integers, floating and scientific numbers, and their unfinished forms |
| CoreState.InvalidStays | src/coremark/core_state.c:184-277 | a token with an invalid beginning is invalid |
| CoreState.CountedOnce | src/coremark/core_state.c:184-277 | no state is left twice: a token adds at most one to each counter and exactly one to the start counter unless it is empty |
| CoreState.CountersOfToken | src/coremark/core_state.c:184-277 | which counters a token raises: those of the grammars that it leaves again, and the invalid one for a first symbol that starts nothing or for leaving a scientific number |
| CoreState.Transition | src/coremark/core_state.c:184-277 | the state of the whole token up to comma or NUL, the place where scanning goes on, and what each counter gains |
| CoreState.ScanEnd | src/coremark/core_state.c:187-275 | scanning always advances on a text that is not at its end |
| CoreState.EveryTokenIsCounted | src/coremark/core_state.c:58-68 | the counters of final states add up to the number of tokens |
| CoreState.CountTokens | src/coremark/core_state.c:58-68 | each counter grows by the number of tokens that end in its state |
| CoreState.TokenIsRead | src/coremark/core_state.c:58-68 | a token of a grammar in front of a comma counts for it, and scanning goes on behind the comma |
| CoreState.TokenIsRefused | src/coremark/core_state.c:58-68 | a symbol with which no grammar goes on ends the token as invalid, and scanning goes on right behind it |
| CoreState.Corrupt | src/coremark/core_state.c:69-74 | exactly the visited symbols other than commas are changed by xor |
| CoreState.VisitedAre | src/coremark/core_state.c:69-74 | the visited symbols are those at multiples of the step below the size |
| CoreState.TwiceRestores | src/coremark/core_state.c:69-92 | a symbol is restored by the second xor if and only if the first has not made it a comma |
| CoreState.UndoRestores | src/coremark/core_state.c:69-92 | the memory is restored if and only if the seed byte is zero or no visited symbol equals the comma xor the seed byte |
| CoreState.BenchState | src/coremark/core_state.c:43-98 | both scans are counted completely, the answer is the CRC over all counters, and with equal seeds the memory is as before if and only if that condition holds |
| CoreState.WordsAt | src/coremark/core_state.c:93-97 | each counter goes into the answer as 32 bits, low half first, the final states' counter before the transitions' |
| JsonRoundTrip.NumberComesBack | src/cjson/cJSON.c:165-232 | the decimal text of an integer in int range reads as that integer |
| JsonRoundTrip.UnescapeUndoesEscape | src/cjson/cJSON.c:668-811 | decoding an escaped NUL-free byte string gives it back |
| JsonRoundTrip.StringComesBack | src/cjson/cJSON.c:490-665 | a printed string reads as itself and reading stops behind its quote |
| JsonRoundTrip.ArrayComesBack | src/cjson/cJSON.c:1072-1136 | a printed array, formatted or not, reads as itself |
| JsonRoundTrip.ObjectComesBack | src/cjson/cJSON.c:1308-1400 | a printed object, formatted or not, reads as itself with keys and order |
| JsonRoundTrip.ValueComesBack | src/cjson/cJSON.c:921-1400 | every printable tree at every depth reads back from its text, and reading stops exactly behind it |
| JsonRoundTrip.DocumentComesBack | src/cjson/cJSON.c:839-876 | a printed document parses to the same tree with and without the required terminator |
| JsonSyntax.DecodesWhatIsSpelled | src/cjson/cJSON.c:531-657 | content is decoded to some bytes if and only if it spells them: bytes for themselves, the eight short escapes of section 7 of RFC 8259, and UTF-16 escapes, in any mix |
| JsonSyntax.OtherEscapesFail | src/cjson/cJSON.c:543-565 | any other letter behind a backslash is refused, wherever it stands |
| JsonSyntax.PrinterEscapes | src/cjson/cJSON.c:757-806 | what the printer writes for each byte of a string |
| JsonSyntax.PrintedDigits | src/cjson/cJSON.c:317-389 | the text of an integer has its digits and no idle zero |
| JsonSyntax.NumeralIsRead | src/cjson/cJSON.c:165-232 | a number is read with all digits before and behind the point as mantissa, and the exponent less the digits behind the point |
| JsonSyntax.ValueIsRead | src/cjson/cJSON.c:921-1400 | every text of the grammar, with any space between its tokens, is read as what it means, and reading stops right behind it |
| JsonSyntax.AcceptsDocuments | src/cjson/cJSON.c:839-876 | a text is accepted to its end if and only if it is a document of the grammar, and with that document's meaning; the one other text that is accepted is a lone literal without closing quote |
| JsonSyntax.FrontIsEnough | src/cjson/cJSON.c:839-876 | without the demand that nothing follows, the value in front is read and the rest left |
| JsonValue.ObjectIsRows | src/cjson/cJSON.c:1456-1557 | a formatted object has a line for each member, indented by tabs, with a tab behind the colon, and closes at its own depth |
| JsonValue.ArrayIsRow | src/cjson/cJSON.c:1178-1225 | a formatted array stands on one line with a comma and a space between its elements |
| JsonString.Utf8IsDecoded | src/cjson/cJSON.c:610-650 | an independent UTF-8 decoder (section 3 of RFC 3629) gives back the encoded scalar value |
| JsonString.Utf8IsUnique | src/cjson/cJSON.c:610-650 | whatever the decoder accepts is the encoding of what it returns |
| JsonString.EscapeIsUtf16 | src/cjson/cJSON.c:566-608 | an escape is accepted with a value if and only if it is the UTF-16 text (section 2.2 of RFC 2781) of that scalar value, which is not zero; lone and mismatched surrogates fail |
| JsonString.ScanLiteral | src/cjson/cJSON.c:507-523 | the end of the literal and the space that is reserved for it |
| JsonString.ParseHex4 | src/cjson/cJSON.c:392-483 | the value of four hexadecimal digits, zero if one is invalid |
| Bytes.HexDigits | src/cjson/cJSON.c:392-483 | the value of each hexadecimal digit, small or capital, and of no other byte |
| JsonString.DecodeUnicode | src/cjson/cJSON.c:566-608 | accepted exactly if the escape or pair is valid within the literal, with its scalar value and length |
| JsonString.WriteUtf8 | src/cjson/cJSON.c:610-650 | exactly the UTF-8 form is written, and nothing else in the buffer changes |
| JsonString.DecodeContent | src/cjson/cJSON.c:531-657 | the decoded bytes, all inside a buffer of one byte more than the first scan's count |
| JsonString.ParseLiteral | src/cjson/cJSON.c:490-665 | parse_string accepts exactly the literals of the grammar, decodes them and never writes beyond its allocation |
| JsonMinify.MinifyUnformats | src/cjson/cJSON.c:2254-2316 | the minified formatted text of a tree is byte for byte its unformatted text |
| JsonMinify.LineCommentGoes | src/cjson/cJSON.c:2276-2283 | a double-slash comment goes with its line end, and what stands behind is minified on its own |
| JsonMinify.BlockCommentGoes | src/cjson/cJSON.c:2284-2292 | a block comment goes up to its first end mark, which may use its opening star, and what stands behind is minified on its own |
| JsonMinify.MinifiedSyntax | src/cjson/cJSON.c:2254-2316 | of a value with space and comments between its tokens exactly the tokens stay, byte for byte, and what follows is minified |
| JsonMinify.MinifiedDocumentMeans | src/cjson/cJSON.c:2254-2316 | a document with comments between its tokens is accepted after minifying, with the meaning of its tokens |
| JsonMinify.CommentsChangeNothing | src/cjson/cJSON.c:2254-2316 | putting comments and space between the tokens of an accepted text, or taking them out, does not change what its minified text parses to |
| JsonMinify.AcceptedIsClosed | src/cjson/cJSON.c:839-876 | a document that is accepted and has its literals closed has no open comment either |
| JsonMinify.MinifyKeepsMeaning | src/cjson/cJSON.c:2254-2316 | every accepted document with closed literals is accepted after minifying and means the same tree |
| JsonMinify.Minify | src/cjson/cJSON.c:2254-2316 | the in-place loop leaves exactly the minified text with its NUL, reading ahead of what it writes |
| JsonPrint.Pow2gt | src/cjson/cJSON.c:235-254 | the least power of two that is not below the argument |
| JsonPrint.PrintBuffer.Ensure | src/cjson/cJSON.c:264-301 | room at the offset with the old text kept; a new buffer's size is the least power of two that suffices; a fixed buffer is never replaced; failing means a failed allocation, a need that has no power of two in an int, or a fixed buffer that is too short |
| JsonPrint.PrintBuffer.Update | src/cjson/cJSON.c:304-314 | the end of the text that a nested printer has left |
| JsonPrint.NeedsEscape | src/cjson/cJSON.c:697-707 | an unflagged string is its own escape |
| JsonPrint.EscapedLength | src/cjson/cJSON.c:733-746 | exactly the length of the escaped text |
| JsonPrint.PrintBuffer.PrintStringPtr | src/cjson/cJSON.c:668-811 | the quoted and escaped string behind what was printed before |
| JsonPrint.PrintBuffer.PrintNumber | src/cjson/cJSON.c:317-389 | the decimal text of an integer |
| JsonPrint.PrintBuffer.PrintArray | src/cjson/cJSON.c:1178-1225 | the array's text behind what was printed before, whatever the buffer had to do |
| JsonPrint.PrintBuffer.PrintObject | src/cjson/cJSON.c:1456-1557 | the object's text behind what was printed before, whatever the buffer had to do |
| JsonPrint.PrintBuffer.PrintValue | src/cjson/cJSON.c:969-1036 | the value's text; it fails exactly if an allocation does, or if the largest request made on the way does not fit the fixed buffer |
| JsonPrint.PrintBuffered | src/cjson/cJSON.c:895-908 | for every starting size the text of the simple printer; NULL exactly if an allocation fails |
| JsonPrint.PrintPreallocated | src/cjson/cJSON.c:910-919 | the same text inside the caller's array; accepted if and only if the largest request of the printers fits, so always with 20 spare bytes and never if the text does not fit |
| JsonPrint.NeedIsClose | src/cjson/cJSON.c:910-919 | the largest request exceeds the text by at least one byte and by at most 20 |
| JsonPrint.SimpleArray | src/cjson/cJSON.c:1226-1302 | the sum of the parts is enough room for the array's text; NULL exactly if an allocation fails |
| JsonPrint.SimpleObject | src/cjson/cJSON.c:1558-1680 | the sum of the parts is enough room for the object's text; NULL exactly if an allocation fails |
| JsonPrint.SimpleValue | src/cjson/cJSON.c:1037-1069 | the printer with one allocation for each node gives the text of the tree; NULL exactly if an allocation fails |
| JsonPrint.ItemsHaveRoom | src/cjson/cJSON.c:1236-1256 | an array's elements fit the computed length |
| JsonPrint.MembersHaveRoom | src/cjson/cJSON.c:1576-1600 | an object's members fit the computed length |
| JsonPrint.NoNul | src/cjson/cJSON.c:304-314 | a printed value contains no NUL, so that its end can be found again |
| JsonNode.NoCycle | src/cjson/cJSON.c:1746-1767 | a chain that ends has no node twice |
| JsonNode.OneList | src/cjson/cJSON.c:1696-1706 | a head determines its chain |
| JsonNode.GetArrayItem | src/cjson/cJSON.c:1696-1706 | the element at a position, none past the end, the first for negative positions |
| JsonNode.AddItemToArray | src/cjson/cJSON.c:1746-1767 | appends, keeping the doubly linked list; NULL does nothing |
| JsonNode.DetachItemFromArray | src/cjson/cJSON.c:1815-1845 | removes the element at a position and clears its links; nothing past the end |
| JsonNode.InsertItemInArray | src/cjson/cJSON.c:1875-1898 | inserts at a position; past the end it appends |
| JsonNode.ExchangeItem | src/cjson/cJSON.c:1901-1926 | exchanges the element at a position; nothing past the end |
| JsonNode.InsertDetachReplace | src/cjson/cJSON.c:1815-1929 | detaching undoes inserting, and replacing is detaching and inserting |
| JsonNode.Do | src/cjson/cJSON.c:1724-1929 | one call keeps the list, and whatever is out of the list afterwards has null links, so that it can be put back |
| JsonNode.Run | src/cjson/cJSON.c:1724-1929 | any script of append, insert, detach and replace whose items are out of the list at their turn, also items taken out earlier, keeps the doubly linked list and equals the script on sequences |
| JsonTree.Delete | src/cjson/cJSON.c:141-162 | frees exactly the blocks that a chain of trees owns, each once |
| JsonTree.DeleteOne | src/cjson/cJSON.c:144-160 | a node goes with its own value, key and children, but not with those of a reference or a constant key |
| JsonTree.NodesAreOwned | src/cjson/cJSON.c:141-162 | the nodes that deleting visits are among the blocks it frees |
| JsonTree.AppendApart | src/cjson/cJSON.c:1746-1767 | two forests joined own no block twice if and only if each does not and they share none |
| JsonBuild.ParseStringInto | src/cjson/cJSON.c:490-531 | the block of a string belongs to its node even if decoding fails |
| JsonBuild.ParseMemberInto | src/cjson/cJSON.c:1332-1352 | the key's block moves to the name; success and failure leave a tree that owns all that was allocated |
| JsonBuild.ParseItemsInto | src/cjson/cJSON.c:1089-1136 | the children read so far are a whole list; on success they stand for the elements the grammar reads |
| JsonBuild.ParseMembersInto | src/cjson/cJSON.c:1325-1400 | the same for the members of an object |
| JsonBuild.ParseValueInto | src/cjson/cJSON.c:921-966 | the node becomes the root of a tree that stands for the value read; on failure it still owns everything allocated |
| JsonBuild.ParseWithOpts | src/cjson/cJSON.c:839-876 | for every pattern of failing allocations: a tree that stands for exactly what the grammar reads, with its blocks the only new ones, or nothing allocated; it fails only if the text or an allocation does |
| JsonEdit.Duplicate | src/cjson/cJSON.c:2181-2252 | a detached copy of new blocks only, equal in kind, number, strings and children, with references made ordinary items; or nothing allocated; NULL for NULL |
| JsonEdit.CopyRoot | src/cjson/cJSON.c:2194-2222 | the copied fields; a constant key is shared and not owned |
| JsonEdit.DuplicateKids | src/cjson/cJSON.c:2228-2249 | the copies of the children form a doubly linked list in the same order |
| JsonEdit.SameMeansSame | src/cjson/cJSON.c:2181-2252 | a recursive copy stands for the same JSON value |
| JsonEdit.CreateReference | src/cjson/cJSON.c:1731-1743 | a reference shows the value and children of its item and owns only itself |
| JsonEdit.DeleteItemFromArray | src/cjson/cJSON.c:1847-1850 | the element leaves the list and exactly its blocks are freed |
| JsonEdit.ReplaceItemInArray | src/cjson/cJSON.c:1901-1929 | the new tree takes the place of the old one, of which exactly the blocks are freed; nothing past the end |
| Bootloader.Device.Erase | project/bootloader/main.c:358-365 | nothing outside the area changes in any intermediate state; success leaves it erased |
| Bootloader.Device.Write | project/bootloader/main.c:402-406 | nothing outside the area changes in any intermediate state; success puts the bytes where the flash was erased |
| Bootloader.Device.SetConfig | project/bootloader/main.c:454-457 | afterwards the record is the old or the new one |
| Bootloader.XzDecoder.Run | project/bootloader/main.c:399-400 | the decoder contract: it takes the next part of its stream, makes progress, and keeps the last byte while output is due |
| Bootloader.Device.PackedStays | project/bootloader/main.c:362-433 | changes inside the image area leave the compressed image intact |
| Bootloader.Unpack | project/bootloader/main.c:367-433 | for all short reads and decoder chunks, a loop without failures leaves exactly the decoded stream, and it terminates for every decoder |
| Bootloader.StillSafe | project/bootloader/main.c:362-457 | every intermediate state of the rewriting can start the update again |
| Bootloader.HeldIsUpdated | project/bootloader/main.c:362-433 | the resulting memory is determined by the stream |
| Bootloader.UpdateStartsOver | project/bootloader/main.c:286-467 | updating again from an interrupted state gives what an uninterrupted update gives |
| Bootloader.GoalByBytes | project/bootloader/main.c:286-467 | the memory of an undisturbed update byte for byte: where the stream stands, where it goes, and what is erased |
| Bootloader.XzImage | project/bootloader/main.c:286-467 | every state that a loss of power can leave has the record at 1 with the stream intact, or at 0 with an image that passed the check; without failures it succeeds exactly if the decoded image passes |
| Bootloader.UncompressImage | project/bootloader/main.c:469-525 | the same across the decision by the boot record, with the sequences to load, for compressed and uncompressed update images and every fault |
| Bootloader.LoadBin | project/bootloader/main.c:1022-1048 | boots a sequence whenever either can be loaded, the first one if that can be, and makes the record say so unless that write is lost; otherwise the record is untouched |
| Bootloader.Boot | project/bootloader/main.c:1106-1180 | after a whole boot the device is safe if and only if the boot does not lose the update: sequence 0 booted with an image that fails its check, because the record could not be read or in place of an uncompressed image; unless it has to unpack, it boots a sequence if and only if either can be loaded |
| Bootloader.SafeLoaders | project/bootloader/main.c:469-525 | every boot with every fault is safe if and only if sequence 0 can only be loaded from an image that passes the section check |
| Bootloader.LoseUpdate | project/bootloader/main.c:487-501 | a concrete device on which an unreadable record makes the boot name a half-written image |
| Bootloader.LoseUncompressed | project/bootloader/main.c:487-501 | a concrete device whose update image is not compressed, on which a boot makes the record name a bad image |
| Bootloader.PowerLossAndBoot | project/bootloader/main.c:286-525 | after a loss of power in any recorded state, one undisturbed boot ends with the memory of an undisturbed update |
| Bootloader.SameDevice | project/bootloader/main.c:286-525 | a device restarted from any safe state is sound and has the same goal |
| HeapTrace.CountIsSize | src/debug/heap_trace.c:252-301 | the occupied slots are as many as the entries of the map |
| HeapTrace.ExchangeSlot | src/debug/heap_trace.c:252-410 | how changing a slot changes sum and count of a region |
| HeapTrace.Tracer.FreeSlot | src/debug/heap_trace.c:258-260 | searching from the hint finds no free slot only if the table is full |
| HeapTrace.Tracer.SlotOf | src/debug/heap_trace.c:309-311 | the slot of a pointer is found exactly if the pointer is on record |
| HeapTrace.Tracer.SetSlot | src/debug/heap_trace.c:252-410 | the table stays a map, all slots below the hint stay occupied, count, sums and historical maxima stay right, and the table is appended to the history |
| HeapTrace.Tracer.AddEntry | src/debug/heap_trace.c:252-301 | the entry is added, or the table is reported full exactly if it is; the books of the whole and of both regions |
| HeapTrace.Tracer.DeleteEntry | src/debug/heap_trace.c:304-354 | the entry is removed, or reported missing exactly if it is; the books of the whole and of both regions |
| HeapTrace.Tracer.UpdateEntry | src/debug/heap_trace.c:357-410 | the entry moves in its slot, with the books of the whole and of both regions; a region's entry count shifts against the table exactly by a crossing of its border |
| HeapTrace.RegionCountDrifts | src/debug/heap_trace.c:377-396 | a single move keeps a region's entry count right if and only if both pointers or neither lie in the region |
| HeapTrace.CountDrifts | src/debug/heap_trace.c:357-410 | a concrete run after which the SRAM's entry count is one too high |
| HeapTrace.Tracer.TraceMalloc | src/debug/heap_trace.c:412-423 | the map after a malloc; NULL is not recorded |
| HeapTrace.Tracer.TraceFree | src/debug/heap_trace.c:425-438 | the map after a free; NULL does nothing |
| HeapTrace.Tracer.TraceRealloc | src/debug/heap_trace.c:440-467 | the map after each of the six cases of realloc |
| HeapTrace.Tracer.TraceRun | src/debug/heap_trace.c:412-467 | a run of notifications leaves the recorded map of that run and keeps every invariant; the maxima are those over the table after each notification; a region's entry count is right afterwards if and only if as many moves left the region as entered it |
| HeapTrace.RecordedBlocks | src/debug/heap_trace.c:412-467 | which of the live blocks are on record after a notification |
| HeapTrace.FollowsAt | src/debug/heap_trace.c:412-467 | the table in the history of a run after k + 1 notifications stands for the map recorded then |
| HeapTrace.TableIsPartOfHeap | src/debug/heap_trace.c:412-467 | over every legal run the table lists only live blocks with their sizes, even after it was full |
| HeapTrace.TableIsHeap | src/debug/heap_trace.c:412-467 | while at most 1024 blocks are live the table is exactly the live map |
| AtQueue.Queue.constructor | src/atcmd/at_queue.c:37-53 | an empty queue over the given buffer and callback |
| AtQueue.Init | src/atcmd/at_queue.c:37-53 | a missing buffer or callback gives -1, anything else an empty queue |
| AtQueue.Queue.Store | src/atcmd/at_queue.c:71-75 | a byte is appended, and the write index stays the read index plus the count modulo the size |
| AtQueue.Queue.Fill | src/atcmd/at_queue.c:61-83 | only an empty queue asks for a window, and takes it as a whole |
| AtQueue.Queue.Get | src/atcmd/at_queue.c:55-90 | takes the oldest byte; empty only if the callback has nothing |
| AtQueue.Queue.Peek | src/atcmd/at_queue.c:92-125 | shows the oldest byte and consumes nothing |
| AtQueue.RingGrows | src/atcmd/at_queue.c:71-75 | writing at the write index appends to the ring |
| AtQueue.RingShrinks | src/atcmd/at_queue.c:85-89 | advancing the read index removes the oldest byte |
| AtQueue.NothingIsLost | src/atcmd/at_queue.c:55-125 | over any run of gets and peeks the bytes got and those pending are the windows one after the other |
| AtQueue.PeekForetellsGet | src/atcmd/at_queue.c:55-125 | a peek agrees with the next get and can be repeated; empty means an empty queue and an empty window |
| AtParameter.TakeEnd | src/atcmd/at_parameter.c:507-528 | how separator, CR, CR LF and LF end a parameter, and where reading goes on |
| AtParameter.TakeIpByte | src/atcmd/at_parameter.c:529-564 | one byte of an address continues it or spoils it for good |
| AtParameter.SpoiltStays | src/atcmd/at_parameter.c:506-595 | no continuation of a spoilt text is an address |
| AtParameter.GetIpPara | src/atcmd/at_parameter.c:485-595 | accepts exactly four groups of one to three digits up to 255 between dots, quotes aside, before an allowed end, and gives their values |
| AtParameter.IpBefore | src/atcmd/at_parameter.c:485-595 | in front of a comma, LF, CR LF or lone CR: what is read, when it is refused, and that reading goes on right behind the end |
| AtParameter.AddressIsFour | src/atcmd/at_parameter.c:529-585 | an address is four octets between dots, and its value theirs |
| AtParameter.OctetIs | src/atcmd/at_parameter.c:529-585 | an octet is one to three digits that give at most 255, with or without leading zeros |
| AtParameter.QuotesAreSkipped | src/atcmd/at_parameter.c:524-528 | quotes are left out wherever they stand, and nothing else is |
| AtParameter.IpComesBack | src/atcmd/at_parameter.c:58-66 | any four bytes printed as an address come back, whatever ends them, and reading goes on right behind the end |
| AtParameter.FormatIp | src/atcmd/at_parameter.c:58-66 | the decimal texts of the bytes with dots between them |
| AtParameter.GroupsOfJoined | src/atcmd/at_parameter.c:58-66 | splitting undoes joining |
| AtParameter.TakeHexByte | src/atcmd/at_parameter.c:266-294 | one byte of a hex parameter continues it or makes it unacceptable |
| AtParameter.GetHexPara | src/atcmd/at_parameter.c:220-316 | accepts exactly pairs of hexadecimal digits within the size limit before an allowed end, gives their bytes and says where reading goes on |
| AtParameter.HexBefore | src/atcmd/at_parameter.c:220-316 | in front of each end: what is read, when it is refused, and that one more byte is skipped behind every end but a colon |
| AtParameter.HexWordComesBack | src/atcmd/at_parameter.c:220-316 | bytes written as digits come back whatever ends them, if and only if there is room for them |
| AtParameter.FormatHex | src/atcmd/at_parameter.c:50-57 | two capital digits for each byte with colons between them |
| AtParameter.GetParameters | src/atcmd/at_parameter.c:607-686 | the values of the descriptors in turn up to the end of the line or the first error; without descriptors the line has to end at once |
| AtParameter.LineComesBack | src/atcmd/at_parameter.c:607-686 | a line of typed addresses and hex values, each with its separator, comes back through as many descriptors or more, whatever ends the line |
| AtParameter.LineBreaksOff | src/atcmd/at_parameter.c:607-686 | the values in front are read when the descriptors run out, and also when the next one is an error |
| AtParameter.IpListComesBack | src/atcmd/at_parameter.c:607-686 | any list of addresses printed, joined with commas and ended by CR LF comes back through as many descriptors |
| AtParameter.HexComesBack | src/atcmd/at_parameter.c:50-57 | any bytes printed in hexadecimal and read through as many one-byte descriptors come back |

## Left out

- Console.Console.RxCallback: in a build with echo, bytes 8 and 127 are excluded, because that branch lowers the count but not the buffer pointer and depends on how interrupts cut the stream; without echo they are bytes like others.
- Console.Console.RxOneBuffer: the same two bytes in a build with echo.
- Console.Happen: the same two bytes in a build with echo.
- Console.Session: the same two bytes in a build with echo.
- Console.CompleteSession: the same two bytes in a build with echo.
- Console echo, stopping, and races between start and stop.
- MergeSort.CalcFunc: the benchmark kernels behind operation types 0 and 1 may return anything, so their results are not modelled.
- MergeSort.Mergesort: counters of runs and widths do not wrap at 32 bits.
- core_list_init and core_list_insert_new, which build the list that the benchmark is given.
- CoreState.BenchState: the text has to end inside the memory after the corruption, which the source takes for granted.
- core_init_state, which fills the scanner's input.
- JsonParse: numbers are an exact mantissa and exponent; rounding to double, the cast to int and overflow of the exponent counter are not modelled.
- JsonValue: the text of numbers that are not integers in int range, cJSON_Raw, the allocation hooks, NULL keys and the error pointer.
- JsonMinify.Minify: literals and block comments have to be closed; on other texts the source reads past the terminating NUL.
- JsonPrint.PrintBuffer.PrintValue: the printers walk a tree given as a value, not the linked nodes, and release of their buffers is not tracked.
- JsonPrint.PrintBuffer.Ensure: a need above 2^30 counts as a failed allocation; other integer overflow of sizes is not modelled.
- JsonBuild.ParseStringInto: the bytes are those of the decoding function; the decoding loop itself is JsonString.ParseLiteral.
- JsonBuild.ParseValueInto: valueint of true is not modelled.
- Object operations by name (case-insensitive search, AddItemToObject and its constant-key form, which ignores who owns the old key) and the creators of arrays.
- Bootloader.XzDecoder.Run: the decoder, the section check and the loader are contracts or function parameters; signature checking, TrustZone, PSRAM and flash encryption are not modelled.
- Bootloader.XzImage: the areas are disjoint, the output fits and the boot record changes atomically, as assumptions.
- Bootloader.UncompressImage: modelled with OTA enabled and compressed images in use.
- Bootloader.Boot: the retry on external flash and the upgrade mode after a failure.
- HeapTrace.Tracer.SetSlot: the maxima of the regions' entry counts are those of the fields as the source updates them, not compared with a history.
- HeapTrace: sums do not wrap at 32 bits.
- HeapTrace backtraces, magic words and printing.
- AtQueue.Queue.constructor: no window of the callback is larger than the buffer, which holds for 32 bytes and more, so that the overflow branch cannot be reached.
- AtQueue.Init: the same.
- AtParameter.GetParameters: text, decimal and hexadecimal integer descriptors.
