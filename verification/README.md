# Verified models of avl, httpp and log

A Dafny model of four components of a C library of server utilities, with proofs:

- **The order-statistic AVL tree** (`avl/avl.c`, `avl/avl.h`). Mutable, parent-linked nodes under a
  sentinel head. `AvlShape` has trees and paths as values, `AvlUpdate` what one insertion and one
  deletion do to them, measured against a plain sorted sequence; `AvlHeap` ties values to linked
  nodes; `AvlTrees` has `avl_insert` and `avl_delete` on the linked nodes, `AvlQueries` the queries
  and iterators, `AvlRuns` whole runs, `AvlRanks` the rank arithmetic, `AvlBounds` the height
  bound, `PackedWord` the word in which a node holds rank and balance factor.
- **The chunked transfer coding** (`httpp/encoding.c`; section 3.6.1 of RFC 2616). `ChunkedFormat`
  says what a stream means, with no buffers in it; `ChunkedReader` is the incremental decoder,
  `ChunkedWriter` the encoder and the end-to-end theorems, `ChunkedSession` both at the ends of a
  pipe, `Extensions` the metadata in headers. `ChunkGrammar`, `GrammarReading` and `RfcStream` have
  the grammar of RFC 2616 and what the scanners (`HeaderScan`) make of it; `HeaderExamples` and
  `ChunkedExamples` are headers and runs where they go wrong.
- **The variable stores and the query parser** (`httpp/httpp.c`). `QueryString` is the
  form-encoding, `HttpVars` the trees of variables as finite maps.
- **The log formatter and the kept lines** (`log/log.c`). `LogFormat` is the formatter, `LogMeaning`
  what formats mean, `LogLines` the lines.

`CTypes` has bytes, C strings and optional pointers. `dafny verify dfyconfig.toml` checks everything.

## How to read the invariants

The tree's object invariant, `AvlTree.Valid`, has links, disjointness, order, balance factors and
length. Ranks are apart, in `Ranked`, because the code does not always keep them (see below); the
stores of `HttpVars` rely on `Valid` alone and so hold whatever the ranks hold.

The decoder's invariant speaks about every future: whatever bytes come behind those fetched so far,
if the whole is well formed, then what it means is what was delivered, then what is in the decoded
buffer, then what the raw buffer and the counters leave to say. A run of reads with any
fragmentation keeps it, so it is a statement about every run. The encoder's invariant is
conservation: bytes taken and bytes pending are the encodings of the writes accepted.

## Where the code departs from its intent

- `avl/avl.c:389` raises a rank that the search never lowered, so a deletion of an absent key that
  runs off to the right leaves one rank too high. `AfterMissRight` says which one, `AfterMissRanked`
  says exactly when it happens, `MissSpoilsRank` shows it on a tree of one entry. A deletion that
  misses to the left lowers a rank to 0 for a moment (`DeletionLowers`); a deletion that succeeds does
  not (`FoundLowers`), and otherwise all rank arithmetic stays between 1 and the length (`AvlRanks`).
- `avl/avl.c:813-852`: for an absent key both ends are the index of the closest smaller entry (and
  the largest unsigned long if there is none); `GetSpanByKey` states that case apart.
- `avl/avl.c:780-782` leaves the index unset in an empty tree, and both span functions then report what
  their local variables happened to hold. The model takes those values as arguments (`unset`).
- `avl/avl.c:889-902` returns an inclusive upper end if the larger key is present and an exclusive one
  if it is absent: the range is half-open if and only if the larger key is absent (`GetSpanByTwoKeys`,
  `EndsSpan`). `SpanOfOne` is a tree of one entry in which the span of its key is (0, 0).
- `httpp/encoding.c:420` ends a key only at an equals sign, so a key without a value swallows what
  follows, and a backslash in a printed value is lost; `ParsePrint` is the exact condition under which
  a list survives, `KeySwallows` a list of two that is read as one.
- `httpp/encoding.c:443`, `:462` and `:593` take a backslash as an escape of the next quote, however
  far away. `HeaderEndsExactly` says which headers of RFC 2616 have their end found (as a rule those
  whose last quoted pair is a quoted quote, `HeaderEndsByLastPair`), `QuotedRead` which quoted strings
  are read right; `BackslashHidesEnd`, `BackInStep` and `QuotedBackslashLost` are headers.
- `httpp/encoding.c:475` looks ahead by the rest of the value instead of at the value. `TokenRead` is
  the exact condition under which an unquoted value survives, `TokenCutShort` a header where one does
  not. Past the end of the buffer, where the original reads memory it does not own, the model reads
  zero.
- `httpp/encoding.c:533-540` parses buffered bytes only after another successful read. `HeldBack` is
  a run in which a complete chunk is never delivered, `AllDelivered` says that everything has been
  delivered exactly when the reader holds no unparsed input.
- `httpp/encoding.c:548-557` returns before the end-of-stream check when the last CRLF arrives
  exactly. `Unnoticed` is a run, `EndNoticed` the exact condition, and `FlushNoticed` says that this
  writer's own end is noticed once its header is read; `Read` bounds by `FetchesToEof` how many
  fetches it takes.
- `httpp/encoding.c:603` accepts an LF at the very start of the buffer as the end of a header, with
  its CR in front of the buffer, and then writes there. `ScanHeader` finds such an end if and only if
  the scan starts at the front of the buffer and the first byte is an LF. The model reports failure:
  `Read` fails exactly if nothing was decoded and the callback fails or what it brings is refused
  (`Errs`), and then the input is not well formed. `BareLineEnd` is a run.
- `httpp/encoding.c:815-831` ends a flush with one CRLF more than the coding asks for. `Encoded`
  has it, and decoding still ends at the right place because nothing after an empty chunk is data.
- `httpp/httpp.c:357-383` does not decode names (`NameNotDecoded`), and divides an element at its last
  equals sign (`LastEqualsDivides`).
- `log/log.c:288-296` leaves the tail pointer stale when the list is emptied; `SetLinesKept` states
  exactly when, and the entry operation asks for a good tail pointer if it is to keep a line. `Run`
  asks for no more (`Safe`) and says exactly when the pointer is good afterwards.
- `log/log.c:512-689` needs a size of at least 1: with 0 it would write in front of the buffer.

## Model

| member | source | states |
|---|---|---|
| `AvlTrees.AvlTree.constructor` | avl/avl.c:65-88 | a new tree meets the whole invariant, is empty, and its sentinel is a fresh node with a NULL key |
| `AvlTrees.AvlTree.Insert` | avl/avl.c:123-297 | keeps links, order, balance factors and length; the sorted sequence changes only by the key placed before the first entry not less than it; right ranks stay right; the height field moves with the real height |
| `AvlTrees.AvlTree.InsertNode` | avl/avl.c:123-297 | the same as a change of the tree alone; `grown` is true exactly when a tree that was not empty became a level taller |
| `AvlTrees.AvlTree.Walk` | avl/avl.c:140-182 | the first walk hangs the new node at its place, raises exactly the ranks passed on the left, and stops with `s` the last unbalanced node and `t` its parent |
| `AvlTrees.AvlTree.Lean` | avl/avl.c:186-200 | the second walk leans every balance factor between `s` and the new node towards it |
| `AvlTrees.AvlTree.BalancingAct` | avl/avl.c:204-294 | the linked nodes below `t` afterwards spell the settled subtree, whichever of the four cases applies; true is returned exactly when the balance factor of `s` was 0 |
| `AvlTrees.AvlTree.Turn` | avl/avl.c:217-286 | single and double rotation in place, ranks and balance factors included |
| `AvlUpdate.SettleRepairs` | avl/avl.c:210-294 | the one repair at the last unbalanced node restores that subtree: balanced, in order, ranks right, and as tall as before unless it was balanced |
| `AvlUpdate.SettleBalanced` | avl/avl.c:210-285 | after the repair the subtree is balanced and as tall as before the insertion (one taller if its balance factor was 0) |
| `AvlUpdate.InsertedWhole` | avl/avl.c:204-297 | a repaired pivot makes the whole tree balanced, ordered and ranked, so nothing above it needs adjusting |
| `AvlUpdate.GrowBalanced` | avl/avl.c:186-200 | with all balance factors on the path zero, leaning them towards the new node gives a balanced tree one level taller |
| `AvlUpdate.TrailStep` | avl/avl.c:143-181 | one step of the first walk keeps "everything between `s` and `p` has balance factor 0" |
| `AvlUpdate.SlotIsCountLess` | avl/avl.c:144-181 | the place where the walk falls off the tree is the index of the first entry not less than the key |
| `AvlTrees.AvlTree.Delete` | avl/avl.c:352-625 | fails exactly if no entry compares equal; otherwise exactly one entry, one that compares equal, leaves the sequence and is the one passed to the free function, exactly one node leaves the tree, length drops by one, and order, balance, right ranks and links hold everywhere; a miss changes nothing but what `AfterMiss` says |
| `AvlTrees.AvlTree.DeleteNode` | avl/avl.c:357-625 | the same without assuming order: found exactly if the search path meets an equal entry |
| `AvlTrees.AvlTree.Seek` | avl/avl.c:361-401 | the search lowers exactly the ranks it passes on the left and ends at an equal entry or where the child is missing |
| `AvlTrees.AvlTree.Miss` | avl/avl.c:371-397 | the undo climb, from either side, leaves the tree `AfterMiss` |
| `AvlTrees.AvlTree.RemoveInner` | avl/avl.c:403-425 | with both children present the predecessor takes the place of the key: still exactly that key is gone, and the node that leaves the tree is the predecessor's |
| `AvlTrees.AvlTree.RemoveSimple` | avl/avl.c:426-621 | a node with at most one child is spliced out, that node and no other leaves the tree, and the climb restores the rest |
| `AvlTrees.AvlTree.Unhook` | avl/avl.c:429-446 | the child takes the place of the node, and the side that lost a level is reported |
| `AvlTrees.AvlTree.Climb` | avl/avl.c:465-621 | the climb terminates, and from a tree with one subtree a level shorter than recorded makes a balanced tree with the same keys and right ranks, not taller than before |
| `AvlTrees.AvlTree.ClimbOnce` | avl/avl.c:465-620 | one iteration repairs one node and hands at most one lost level to its parent |
| `AvlTrees.AvlTree.ShrinkTurn` | avl/avl.c:489-600 | the six rotation shapes of deletion, in place |
| `AvlUpdate.ShrinkBalanced` | avl/avl.c:465-600 | in each of the cases 1, 2, 3a, 3b and 3c the subtree is balanced afterwards, and a level lower exactly when the climb goes on |
| `AvlUpdate.ShrinkKeys` | avl/avl.c:494-600 | none of the cases changes the sequence of keys |
| `AvlUpdate.ShrinkRanked` | avl/avl.c:494-600 | all rank additions and subtractions of the rotations give right ranks |
| `AvlUpdate.ClimbStep` | avl/avl.c:465-621 | each iteration leaves only one subtree a level shorter than recorded |
| `AvlUpdate.ClimbEnd` | avl/avl.c:465-625 | when the climb stops the tree is balanced, holds the remaining keys, and its ranks are right |
| `AvlUpdate.SpliceRemoves` | avl/avl.c:426-446 | splicing takes out the key of the node and nothing else |
| `AvlUpdate.PredecessorRemoves` | avl/avl.c:403-446 | swapping with the predecessor and splicing takes out the key found and nothing else |
| `AvlUpdate.FindsIffPresent` | avl/avl.c:322-350 | the search finds an equal entry exactly if the sequence has one |
| `AvlUpdate.AfterMissLeft` | avl/avl.c:371-383 | a deletion that misses at a missing left child leaves the tree exactly as it was |
| `AvlUpdate.AfterMissRight` | avl/avl.c:384-397 | a deletion that misses at a missing right child raises exactly one rank by one: that of the entry before the place of the key |
| `AvlUpdate.AfterMissRanked` | avl/avl.c:361-397 | after a miss the ranks are right if and only if the search ran off to the left |
| `AvlUpdate.AfterMissKeeps` | avl/avl.c:361-397 | size, height and balance survive a miss on either side |
| `AvlRuns.MissSpoilsRank` | avl/avl.c:384-397 | a concrete tree of one entry in which deleting an absent larger key spoils the rank |
| `AvlRuns.Run` | avl/avl.c:123-625 | over any run of insertions and deletions the tree is ordered, balanced and linked and goes through the sequences the reference allows; and a step from right ranks leaves them right if and only if it is not a deletion whose search runs off to the right |
| `AvlRuns.RunRanked` | avl/avl.c:352-625 | if no deletion of a run runs off to the right, ranks are right all along |
| `AvlRuns.RanksInRange` | avl/avl.c:1027-1048 | below 2^30 entries every stored right rank is between 1 and its index plus one |
| `AvlRanks.SingleExact` | avl/avl.c:217-237 | before it is cut to 30 bits, the difference or sum a single rotation stores lies between 1 and the size, and is what is stored |
| `AvlRanks.DoubleExact` | avl/avl.c:240-274 | the same of both values that a double rotation stores, one after the other |
| `AvlRanks.InsertionRotates` | avl/avl.c:217-286 | every sum and difference the rotation of an insertion stores lies between 1 and the new length |
| `AvlRanks.ClimbRotates` | avl/avl.c:494-587 | every sum and difference a rotation of the climb stores lies between 1 and the new length |
| `AvlRanks.InsertionRaises` | avl/avl.c:144-146 | the rank raised on the way down counts the new node and lies between 1 and the new length |
| `AvlRanks.DeletionLowers` | avl/avl.c:363-381 | the rank lowered on the way down never underflows, lies between 1 and the length if and only if there is something on the left, and is restored in range |
| `AvlRanks.FoundLowers` | avl/avl.c:363-421 | every rank that a successful deletion lowers, on its way down or where it takes the predecessor, is then between 1 and the new length |
| `AvlRanks.MissRaises` | avl/avl.c:389-389 | the rank raised at the end of a search to the right is one too high, and beyond the length exactly in a subtree that is the whole tree |
| `AvlRuns.Fill` | avl/test.c:27-32 | a tree filled by insertions alone holds exactly the keys inserted, ranks right, and its height field is the real height less one |
| `AvlRuns.Traverse` | avl/test.c:34-42 | from the first node, the next node again and again visits every entry once and in order, and stops |
| `AvlRuns.NextThenPrev` | avl/avl.c:680-726 | the previous node of the next node is the node |
| `AvlBounds.FibonacciBound` | avl/avl.c:995-1011 | a balanced tree of height h has at least Fib(h + 2) - 1 entries |
| `AvlBounds.HeightIsLogarithmic` | avl/avl.c:995-1011 | a balanced tree of height h has at least 2^floor((h + 1) / 2) - 1 entries |
| `AvlBounds.DescentIsLogarithmic` | avl/avl.c:299-350 | however it chooses its way, a descent in a balanced tree visits at most logarithmically many nodes |
| `AvlShape.RotationRanked` | avl/avl.c:217-237 | both single rotations keep right ranks right, modulo 2^30 |
| `AvlShape.DoubleRightRanked` | avl/avl.c:242-257 | the double rotation to the right keeps right ranks right |
| `AvlShape.DoubleLeftRanked` | avl/avl.c:258-274 | the double rotation to the left keeps right ranks right |
| `AvlShape.DoubleRotationKeys` | avl/avl.c:240-286 | double rotations do not change the sequence of keys |
| `AvlShape.RankExact` | avl/avl.c:1027-1048 | below 2^30 entries a right rank is the size of the left subtree plus one, exactly |
| `PackedWord.BalanceIndependent` | avl/avl.h:43-49 | writing a balance factor reads back as written and leaves the rank alone |
| `PackedWord.RankIndependent` | avl/avl.h:45-53 | writing a rank reads back its low 30 bits and leaves the balance factor alone |
| `PackedWord.RankArithmetic` | avl/avl.h:51-53 | unsigned 32-bit rank arithmetic, stored in the word, is arithmetic modulo 2^30 |
| `PackedWord.WordLayout` | avl/avl.h:43-46 | the balance factor plus one is in the low two bits, the rank in the other thirty |
| `PackedWord.StoreRank` | avl/avl.h:51-53 | the word a node holds after a rank is stored: that rank modulo 2^30, the same balance factor |
| `PackedWord.StoreBalance` | avl/avl.h:47-49 | the word a node holds after a balance factor is stored: that factor, the same rank |
| `AvlHeap.AvlNode.constructor` | avl/avl.c:42-63 | a new node has rank 1 and balance factor 0 in its word |
| `AvlHeap.SetRank` | avl/avl.h:51-53 | storing a rank in the word of a node changes that rank in the tree and nothing else |
| `AvlHeap.SetBalance` | avl/avl.h:47-49 | storing a balance factor in the word of a node changes that factor in the tree and nothing else |
| `AvlQueries.GetByIndex` | avl/avl.c:299-320 | the entry at the index exactly if the index is below the length, failure otherwise |
| `AvlQueries.GetByKey` | avl/avl.c:322-350 | an entry that compares equal, exactly if there is one |
| `AvlQueries.GetFirst` | avl/avl.c:667-678 | the node at index 0, or NULL for the empty tree |
| `AvlQueries.GetPrev` | avl/avl.c:680-701 | the node at the index before, NULL before the first |
| `AvlQueries.GetNext` | avl/avl.c:703-726 | the node at the next index, NULL after the last |
| `AvlQueries.IterateIndexRange` | avl/avl.c:728-765 | calls back on entries high - 1 down to low with indices high - low - 1 down to 0, stopping with -1 at the first objection; -1 and no call if high is beyond the length |
| `AvlQueries.RangeOfThree` | avl/avl.c:728-765 | the calls for a range of two of three entries, spelled out |
| `AvlQueries.GetIndexByKey` | avl/avl.c:772-807 | the node and index of an equal entry, or NULL and the index of the closest smaller one; in an empty tree NULL and an index left as it was |
| `AvlQueries.GetSpanByKey` | avl/avl.c:813-852 | with the key present, the half-open range of exactly the equal entries; otherwise both ends as the index search reports them, unset in an empty tree |
| `AvlQueries.GetSpanByTwoKeys` | avl/avl.c:856-904 | whichever of the two keys comes first: the lower end is the index of the first entry not less than the smaller key; the upper end is an entry equal to the larger key if there is one, and then the closed range is exactly the entries between the keys; else it is how many entries are less, and the half-open range is; half-open is right if and only if the larger key is absent |
| `AvlQueries.EndsSpan` | avl/avl.c:884-902 | for any ends so placed: half-open is right if and only if the larger key is absent, closed is right if it is present |
| `AvlQueries.SpanOfOne` | avl/avl.c:889-902 | a tree of one entry whose span to itself, read as half-open, is empty |
| `AvlQueries.GetItemByKeyMost` | avl/avl.c:907-948 | a greatest entry not above the key, or failure if every entry is above it |
| `AvlQueries.GetItemByKeyLeast` | avl/avl.c:951-991 | a least entry not below the key, or failure if every entry is below it |
| `ChunkedFormat.TakeHeaderStable` | httpp/encoding.c:585-607 | a complete header is the same header whatever bytes follow |
| `ChunkedFormat.DecodeHeader` | httpp/encoding.c:616-657 | what a stream means once its first header is taken off |
| `ChunkedReader.ScanHeader` | httpp/encoding.c:585-617 | the scan finds the end of the header, and the start of its extensions, exactly where the reference finds them; a CRLF inside a quoted string does not count; an end without a CR is found if and only if the scan starts at the front of the buffer and the first byte is an LF |
| `ChunkedReader.CopyBuffer` | httpp/encoding.c:71-101 | bytes moved out and bytes left make up the old buffer; as many move as there are and as there is room for; an emptied buffer is gone |
| `ChunkedReader.Decoder.constructor` | httpp/encoding.c:180-203 | a new decoder has fetched and delivered nothing and meets the invariant |
| `ChunkedReader.Decoder.Read` | httpp/encoding.c:240-282 | for every well-formed continuation the meaning of the stream stays what was delivered, then what is held, then what remains; the callback is asked for exactly the documented count; the new state, the bytes delivered, the headers read and what stood behind each of them in the buffer are those of the reference step `ReadStep`, so that without a fetch exactly the decoded bytes that fit are delivered and nothing else changes; -1 if and only if nothing was decoded and the callback is missing, fails, or brings what is refused, and then the callback failed or the stream is not well formed; past the last chunk nothing is delivered any more |
| `ChunkedReader.Decoder.ReadPlainly` | httpp/encoding.c:503-540 | inside a body a read asks for exactly the smaller of the room left and the body left and hands out all that comes; between chunks it asks for 1024 bytes, past the last one for what the end of the stream still lacks |
| `ChunkedReader.Decoder.ProcessRead` | httpp/encoding.c:485-703 | one step loses, invents and reorders nothing, for every continuation of the input, and is the reference step `Stepped`; without a fetch nothing changes; -1 exactly if the callback fails or what it brings is refused, which malformed input alone is |
| `ChunkedReader.Decoder.ReadBody` | httpp/encoding.c:503-510 | body bytes pass straight through, never beyond the end of the body |
| `ChunkedReader.Decoder.Refill` | httpp/encoding.c:515-542 | the raw buffer grows by exactly what the callback brought |
| `ChunkedReader.Decoder.SkipEnd` | httpp/encoding.c:548-573 | the CRLF behind a chunk is skipped whole, and the end of the stream is noticed, or not, as the source has it |
| `ChunkedReader.Decoder.ReadHeader` | httpp/encoding.c:512-703 | the step between chunks: refill, skip, parse, as one step that loses nothing |
| `ChunkedReader.Decoder.ParseRaw` | httpp/encoding.c:585-703 | a complete header is consumed as the reference consumes it, an incomplete one is left alone; -1 if and only if its length is malformed or the buffer starts with an LF, and on malformed input alone |
| `ChunkedReader.Decoder.TakeOff` | httpp/encoding.c:619-703 | extensions and length of a complete header are read, the metadata kept is exactly what the scanner makes of the buffer, and what there is of the chunk is taken; -1 if and only if the length is malformed |
| `ChunkedReader.Decoder.ConsumeHeader` | httpp/encoding.c:640-702 | buffers and counters after a header, in each of the four cases |
| `ChunkedReader.AfterHeaderAdvances` | httpp/encoding.c:640-702 | each of the four cases keeps the shape invariant (`read_bytes_till_header` is never 1, above 2 there is no raw buffer) and the meaning of the stream |
| `ChunkedReader.Decoder.Eof` | httpp/encoding.c:284-299 | true only if the header of an empty chunk and at least two bytes behind it were fetched and all the stream carries was delivered |
| `ChunkedReader.Decoder.Said` | httpp/encoding.c:515-573 | past the last header, exactly how many bytes follow it among those fetched |
| `ChunkedReader.Decoder.EndNoticed` | httpp/encoding.c:548-573 | with more than the final CRLF fetched behind the last header the end is noticed, with less it is not, and with that alone if and only if two bytes stood behind the header in the buffer when it was parsed |
| `ChunkedExamples.NoticedAtOnce` | httpp/encoding.c:673-692 | a terminator fetched in one piece is noticed |
| `ChunkedExamples.Unnoticed` | httpp/encoding.c:548-557 | the same terminator cut behind its header is complete and not noticed |
| `ChunkedExamples.BareLineEnd` | httpp/encoding.c:603-634 | a run whose first byte is an LF: the read fails |
| `ChunkedExamples.BadLength` | httpp/encoding.c:636-638 | a run whose first header has no number for its length: the read fails |
| `ChunkedExamples.HeldBack` | httpp/encoding.c:533-540 | two chunks that arrive together: the first is delivered, the second, though complete, is not |
| `ChunkedExamples.KeepReading` | httpp/encoding.c:533-540 | once nothing is on the way, no read delivers anything any more |
| `Extensions.ReadExtensions` | httpp/encoding.c:391-483 | the scanner's loops compute the list of metadata that the recursive reading of the text gives, look-ahead, quote counting and absent values included |
| `Extensions.ParseAlike` | httpp/encoding.c:391-483 | what the scanner reads depends on the text and on what stands behind it, not on where in the buffer it stands |
| `Extensions.ParsePrint` | httpp/encoding.c:391-483 | scanning printed extensions gives back the same list if and only if keys are given and have no equals sign, values have no backslash, and every extension but the last has a value that is not empty |
| `Extensions.ValueLength` | httpp/encoding.c:705-719 | the sizing pass for a value is the exact length of the escaped value |
| `Extensions.BufferLength` | httpp/encoding.c:721-750 | the sizing pass reserves more than the printed text takes |
| `Extensions.WriteExtensions` | httpp/encoding.c:721-787 | the writing pass stays inside the buffer the sizing pass asked for and stores exactly the printed text and its terminator |
| `ChunkedWriter.HexRoundTrip` | httpp/encoding.c:808-808 | the printed length reads back as the same number |
| `ChunkedWriter.HexPrintForm` | httpp/encoding.c:808-808 | the printed length is lower-case digits without leading zeros |
| `ChunkedWriter.Chunked` | httpp/encoding.c:794-805 | a write of up to 2^20 bytes goes into its chunk whole, of a longer one the first 2^20 bytes |
| `ChunkedWriter.EncodedHeader` | httpp/encoding.c:808-831 | the header of an encoded chunk is taken off with its length and its extensions if and only if the scan has settled behind the extensions |
| `ChunkedWriter.WalkPrinted` | httpp/encoding.c:589-607 | a printed value is passed over if and only if no backslash stands behind its last quote |
| `ChunkedWriter.SafeSettles` | httpp/encoding.c:589-607 | the scan settles behind any metadata with such values and keys without quote and CR |
| `HeaderScan.HeaderEnds` | httpp/encoding.c:585-617 | the end of a header is found if and only if the scan is outside quotes behind its extensions |
| `HeaderExamples.HeaderInBytes` | httpp/encoding.c:585-638 | a header with an extension is taken off, byte by byte |
| `ChunkGrammar.HeaderEndsExactly` | httpp/encoding.c:585-617 | the end of a header of the grammar of RFC 2616 is found if and only if the scan comes to it in step with the quoted strings |
| `ChunkGrammar.HeaderEndsByLastPair` | httpp/encoding.c:585-617 | without line ends in quoted strings, that is so if and only if the last quoted pair of the header, if there is one, is a quoted quote |
| `GrammarReading.QuotedRead` | httpp/encoding.c:443-483 | a quoted string is read as it is meant if and only if its last quoted pair, if there is one, is a quoted quote and none is a quoted backslash |
| `GrammarReading.TokenRead` | httpp/encoding.c:457-483 | a value without quotes is read whole if and only if there is no semicolon where the scanner looks ahead |
| `GrammarReading.ReadExactly` | httpp/encoding.c:391-483 | the extensions of a header of the grammar are read as they are meant if and only if every one is readable where it stands |
| `RfcStream.StreamDecodes` | httpp/encoding.c:378-389 | a stream of the grammar whose headers come out in step is well formed and carries the data and extensions of its chunks in order |
| `RfcStream.StreamDelivered` | httpp/encoding.c:240-282 | however a stream of the grammar is cut up, the reader has delivered the beginning of its data and read the first of its headers; all of them once the header of the last chunk is read |
| `RfcStream.MetadataRead` | httpp/encoding.c:391-483 | the metadata the reader takes from the i-th header of such a stream is what its extensions mean if and only if every one is readable where it stands |
| `RfcStream.QuotedMetadataRead` | httpp/encoding.c:443-483 | if all values of a header are quoted strings that are read right, so is its metadata, however the stream was cut up |
| `HeaderExamples.BackslashHidesEnd` | httpp/encoding.c:592-596 | a quoted pair other than a quoted quote makes the scan miss the end of the header |
| `HeaderExamples.BackInStep` | httpp/encoding.c:592-596 | a second quoted string can bring the scan back in step, so the condition is not one on each string |
| `HeaderExamples.QuotedBackslashLost` | httpp/encoding.c:462-474 | the end of the header is found, but a quoted backslash is lost from the value |
| `HeaderExamples.TokenCutShort` | httpp/encoding.c:475-476 | a header whose unquoted value is cut short by a semicolon in the body |
| `HeaderExamples.KeySwallows` | httpp/encoding.c:420-420 | a printed key without a value swallows the key behind it |
| `HeaderExamples.PrintedBackslashHidesEnd` | httpp/encoding.c:763-774 | a printed value with a backslash behind which the end of the header is missed |
| `HeaderExamples.PrintedBackslashLost` | httpp/encoding.c:763-774 | a printed value with a backslash that is passed over but not read back |
| `ChunkedWriter.WireDecodes` | httpp/encoding.c:788-837 | any run of encoded chunks whose headers can be found is a well-formed stream that carries exactly the data and the extensions accepted, up to the first empty chunk |
| `ChunkedWriter.EncodeChunk` | httpp/encoding.c:808-831 | length, extensions, CRLF, data, CRLF, and one CRLF more for a flush |
| `HeaderExamples.ChunkInBytes` | httpp/encoding.c:808-831 | a chunk with metadata, and a flush, byte by byte |
| `HeaderExamples.QuoteInBytes` | httpp/encoding.c:763-774 | a printed value with a quote in it, byte by byte |
| `ChunkedWriter.Encoder.constructor` | httpp/encoding.c:180-203 | a new encoder has accepted nothing and holds nothing |
| `ChunkedWriter.Encoder.AppendMeta` | httpp/encoding.c:354-359 | metadata waits behind what was waiting; conservation is kept |
| `ChunkedWriter.Encoder.Pending` | httpp/encoding.c:342-350 | the number of bytes encoded and not yet taken |
| `ChunkedWriter.Encoder.Flush` | httpp/encoding.c:103-119 | exactly the leading bytes the callback accepts are taken and the rest stays pending; taken and pending keep adding up to the encodings of the accepted writes |
| `ChunkedWriter.Encoder.ProcessWrite` | httpp/encoding.c:788-837 | refuses with 0 and touches neither chunks nor metadata while anything is pending; otherwise accepts one chunk with all the waiting metadata |
| `ChunkedWriter.Encoder.Write` | httpp/encoding.c:322-340 | exactly what two flushes around one chunk take and leave pending; accepted exactly if the first flush emptied the buffer; every piece of metadata ends in exactly one chunk |
| `ChunkedWriter.EndToEnd` | httpp/encoding.c:240-837 | for any run of writes, flushes and reads, however fragmented, if every header can be found, the bytes delivered are a prefix of the bytes accepted, and past the last header all bytes before it have been delivered or are held |
| `ChunkedWriter.FlushNoticed` | httpp/encoding.c:515-573 | once all bytes up to a final flush are fetched and its header is read, the reader is at its end with everything delivered |
| `ChunkedWriter.MetadataEndToEnd` | httpp/encoding.c:391-787 | the metadata scanned from the i-th header is the list printed into the i-th chunk if and only if that list can be read back |
| `ChunkedWriter.AllMetadataEndToEnd` | httpp/encoding.c:305-787 | all metadata handed to the caller, then all it can still fetch, is the metadata of the chunks whose headers were read, in order |
| `ChunkedReader.Decoder.GetMeta` | httpp/encoding.c:305-315 | all metadata read since the last call, in order; none is lost or given twice |
| `ChunkedSession.Run` | httpp/encoding.c:240-837 | over any run of metadata, writes, flushes and reads through a pipe that takes and gives what it likes, the bytes read are a prefix of the bytes accepted if every header can be found |
| `ChunkedSession.Session.Write` | httpp/encoding.c:322-340 | a write through the pipe keeps the session invariant: taken = fetched and in the pipe, accepted = data of the chunks |
| `ChunkedSession.Session.Read` | httpp/encoding.c:240-282 | a read from the pipe keeps the session invariant, for every cut of the pipe |
| `ChunkedSession.Session.AllDelivered` | httpp/encoding.c:533-540 | once nothing is pending, in the pipe or decoded, exactly the bytes accepted have been delivered if and only if the reader holds no unparsed input (headers that can be found, no empty write) |
| `QueryString.UrlUnescape` | httpp/httpp.c:307-355 | NULL exactly for invalid text; otherwise the decoded bytes and a terminator, in a buffer of the input length plus one |
| `QueryString.UnescapeEscape` | httpp/httpp.c:307-355 | percent-decoding undoes percent-encoding |
| `QueryString.UnescapeMeans` | httpp/httpp.c:307-355 | what each byte decodes to: a plus sign is a space, a percent sign and two digits the byte they spell, a hash sign the end, a NUL or a bad escape an error, all else itself |
| `CTypes.HexDigitsAre` | httpp/httpp.c:295-305 | the digits of both cases have their values, and nothing else has one |
| `QueryString.QueryRoundTrip` | httpp/httpp.c:357-408 | parsing the percent-encoded join of a list of pairs gives back the list if and only if every name and value is non-empty and no name has an ampersand |
| `QueryString.AmpersandDivides` | httpp/httpp.c:385-408 | a query is divided at its ampersands |
| `QueryString.EqualsDivides` | httpp/httpp.c:357-383 | an element gives the name before its last equals sign, as it is, and the decoded value behind it |
| `QueryString.SaysNothing` | httpp/httpp.c:357-383 | an element without an equals sign, a name or a value gives nothing |
| `QueryString.NameNotDecoded` | httpp/httpp.c:357-383 | a query whose name is encoded and stays so |
| `QueryString.LastEqualsDivides` | httpp/httpp.c:357-383 | a query with two equals signs in one element |
| `HttpVars.CompareVarsOrders` | httpp/httpp.c:901-909 | comparing variables by name is a total preorder |
| `HttpVars.StrCmpSign` | httpp/httpp.c:901-909 | names compare equal exactly if they are the same, and the order is antisymmetric |
| `HttpVars.StrCmpPrecedes` | httpp/httpp.c:901-909 | one name is less than another exactly if it has the smaller byte where they first differ, or ends there |
| `HttpVars.Store.constructor` | httpp/httpp.c:119-131 | a new store is the empty map |
| `HttpVars.Store.GetParamVar` | httpp/httpp.c:673-686 | the variable of that name, exactly if the map has one |
| `HttpVars.Store.GetVar` | httpp/httpp.c:600-618 | the first value of the name, or NULL |
| `HttpVars.Store.DeleteVar` | httpp/httpp.c:557-569 | the name is unbound and all others stay, whatever the ranks in the tree hold |
| `HttpVars.Store.SetVar` | httpp/httpp.c:571-598 | the name has this one value and all others stay |
| `HttpVars.Store.SetParamNoCopy` | httpp/httpp.c:620-663 | a value is appended to the name, or with `replace` becomes its only one; NULL arguments change nothing |
| `HttpVars.Store.SetParam` | httpp/httpp.c:665-671 | the decoded value replaces all others; a value that cannot be decoded changes nothing |
| `HttpVars.Store.ParseQueryElement` | httpp/httpp.c:357-383 | one element adds the pair it spells, if it spells one |
| `HttpVars.Store.ParseQuery` | httpp/httpp.c:385-408 | the map afterwards is the old one with every pair of the query appended in order |
| `HttpVars.AppendAllValues` | httpp/httpp.c:620-663 | appending a list of pairs gives every name its old values, then those of the list in order |
| `HttpVars.QueryValues` | httpp/httpp.c:385-408 | parsing an encoded list of pairs gives every name its values in list order |
| `HttpVars.GetAnyKey` | httpp/httpp.c:763-830 | a NULL-terminated array of names, each once, in ascending order of their bytes: of the names bound those that begin with two underscores for variables, those that do not for headers, all for the query and the body |
| `HttpVars.VarOrHeader` | httpp/httpp.c:799-807 | every name of a store is listed as a variable or as a header, and not as both |
| `LogFormat.StrLen` | log/log.c:485-510 | the length pass predicts the length of the escaped text |
| `LogFormat.UnescapeEscape` | log/log.c:476-483 | undoing the escapes of `%H` recovers the argument |
| `LogFormat.Reversible` | log/log.c:645-672 | two strings that `%H` prints alike are the same |
| `LogFormat.EscapeHarmless` | log/log.c:476-483 | escaped text holds no quote, backquote or control byte, and a space only if allowed |
| `LogFormat.ExactlySized` | log/log.c:625-672 | with no width given `%H` prints exactly as many bytes as predicted, and the dot never stands in for a byte |
| `LogFormat.PercentH` | log/log.c:512-689 | the formats `%H`, `%#H`, `% H` and `%# H` print the escaped argument, in quotes with `#` |
| `LogFormat.PutBody` | log/log.c:652-669 | the escaping loop writes exactly the body that block and room allow, dots for escapes that do not fit |
| `LogFormat.Convert` | log/log.c:624-680 | a conversion prints, in the buffer, exactly what its argument, its length and the room left allow |
| `LogFormat.Format` | log/log.c:512-689 | for every format, every argument list and every size from 1 on: nothing is written beyond the size, the result ends with NUL and has none before it, and it is the text rendered in that room, less its last byte if it fills it; everything the format prints if that fits |
| `LogFormat.ConcatFits` | log/log.c:512-689 | with room for everything the rendered text is everything |
| `LogMeaning.EveryFormat` | log/log.c:512-624 | every format is literal bytes and conversions, and perhaps a conversion without a letter at its end |
| `LogMeaning.FormatMeans` | log/log.c:512-689 | what a format prints is its literal bytes and what each conversion means: the last length given, the flags given, and the argument behind those its stars take, printed as its letter says |
| `LogMeaning.PercentS` | log/log.c:625-672 | %s is the string, and of NULL the six bytes of (null) |
| `LogMeaning.PercentNumber` | log/log.c:568-622 | %d, %i, %u, %p and %R are the number |
| `LogMeaning.PercentSized` | log/log.c:555-566 | %s with a length in the format is so many bytes of the string |
| `LogMeaning.PercentStar` | log/log.c:546-548 | %*s is as many bytes as the argument says, all of them if that is not positive |
| `LogMeaning.LiteralText` | log/log.c:522-532 | text without a percent sign is printed as it is, before whatever follows |
| `LogMeaning.HarmlessIs` | log/log.c:476-483 | which bytes stand for themselves in %H, and how the others are spelled |
| `LogMeaning.BodyIsFitted` | log/log.c:652-669 | the body of %H in a given length: in full as long as the next escape fits, then with dots |
| `LogMeaning.EmissionInIs` | log/log.c:633-680 | with little room left a step prints the beginning of what it would print, %H what it would print in that length |
| `LogLines.Log.CreateLogEntry` | log/log.c:382-408 | prefix, text and newline go to the file, and to the end of the list with the oldest line dropped, if any are kept; counts, total and tail pointer stay right |
| `LogLines.Log.SetLinesKept` | log/log.c:281-298 | the newest `count` lines are left; the tail pointer stays right if and only if this does not empty a list that held something, and over an empty list it stays as it was |
| `LogLines.KeepLastIs` | log/log.c:281-298 | what is left is the end of what there was, and as much of it as may be kept |
| `LogLines.StaleTail` | log/log.c:281-298 | a run that leaves the tail pointer stale |
| `LogLines.LogContents` | log/log.c:411-438 | the lines one after the other always fit the buffer; the reported length is larger than the text by one per line |
| `LogLines.LogContentsArray` | log/log.c:440-474 | the lines without their newlines, then NULL |
| `LogLines.Run` | log/log.c:281-408 | over any run of writes and changes of the count in which no line is kept with a stale tail pointer, the list is the drop-oldest queue, and the tail pointer is good exactly as the reference says |

## Assumptions

- Tree: the compare function is a total preorder; stored keys are not NULL (a NULL key marks the
  sentinel). Ranks are kept modulo 2^30, as the word does; the theorems about indices ask for fewer
  than 2^30 entries. Length and height are unbounded numbers. Locks do nothing.
- Chunked coding: the encoding object is split into a decoder and an encoder, which share no fields.
  A read callback returns -1, 0 or at most as many bytes as it was asked for; a write callback never
  takes more than it was offered. The two calls that one write makes are two arguments.
- Stores: a variable is an address and a name; its value array is found by the address. A string is
  its bytes before the first NUL; `char` is signed.
- Log: numbers, pointers and sockets come as the text they are printed as. An argument that is
  missing or of another kind, undefined in C, reads as NULL, as nothing or as 0.

## Left out

- Allocation failure, reference counts, and freeing as such (which key a deletion frees is modelled).
- `avl_iterate_inorder`, `avl_tree_free`, `avl_print_tree` and `avl_verify`: recursion with easy claims or output; the conditions that `avl_verify` looks at are the invariant here.
- The identity encoding, which only forwards to the callback.
- `httpp_encoding_eof` with a callback, which then answers in its place.
- `sscanf`'s looser grammar for chunk lengths: a length is a non-empty run of hexadecimal digits, anything else fails; `bodylen + 2` does not overflow.
- Metadata with a length but a NULL value.
- `httpp_parse`, `httpp_parse_response`, header parsing and the method and flag tables: long case lists.
- The parser object that holds the three stores: every operation works on one store, and its modifies clause names that store only.
- `net`, `thread` and `timing`: wrappers around the operating system.
- Log files, rotation, time stamps, and the numeric conversions of `snprintf`.
- AvlTrees.AvlTree.Climb: bounds the new height by the old one only; which of the two it is depends on whether the climb reached the top.
