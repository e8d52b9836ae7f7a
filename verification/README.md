# Dafny model of the repository's data structures and codecs

The repository collects independent demonstrations, several of which hold a real data structure or a real codec. This project models
eight of them and proves what each is for:

- **Event timers** (`Msec`, `RedBlack`, `RbTree`, `EventTimer`): a pointer-based red-black tree with a shared sentinel and parent links,
  keyed by deadlines on a wrapping 64-bit millisecond clock, and the timer queue above it, which re-arms lazily and expires what is due.
- **Huffman compressor** (`HuffmanTheory`, `HuffmanCode`, `Huffman`, `HuffmanDecode`, `HuffmanFile`, `HuffmanSize`): the greedy tree over
  a priority queue of nodes, the codes, the packing of bits, the way back, and the size of the result.
- **Lock-free queue** (`CasQueue`, `CasProgress`): push and pop by compare-and-swap, as a state machine in which each step is one access to
  shared memory.
- **UDP pieces** (`RingBuffer`, `UdpPieces`, `UdpTotals`): a ring buffer, the cutting of a message into pieces, and its reassembly from a
  byte stream.
- **PDU framing** (`PduStream`): a growing buffer, the PDU header, and the receive loop that frames a byte stream.
- **XML text** (`XmlText`, `XmlUnknown`, `Utf8Text`): escaping by the printer, and decoding in place through a read and a write pointer.
- **JSON** (`JsonString`, `JsonPieces`, `JsonValue`, `JsonGrammar`, `JsonSpelling`, `JsonParse`, `JsonPrint`, `JsonReadBack`, `JsonText`):
  the two-pass string decoder, the recursive-descent parser, all spellings of a value, the printer over a growing buffer, and the two
  together.
- **JSON child lists** (`JsonList`): the doubly linked lists of children, and the surgery on them.

`Bytes`, `Words` and `Strings` hold what several of these share. Classes follow the fields that the C and C++ code updates in place; their
methods are proved against functions on values, and the lemmas speak of those functions. A red-black tree node carries ghost
fields: the stretch `lo..hi` of the in-order sequence `nodes` that its subtree holds, its position `pos`, and its black height `bh`.
`ValidMeansRedBlack` says what the invariant over these fields means for the pointers alone.

`dafny verify dfyconfig.toml` checks everything.

## Model

| member | source | states |
|---|---|---|
| `Msec.DiffIsOffsetDifference` | heartbeat/ngx_rbtree.c:127-139 | the sign of the wrapping difference of two deadlines is right whenever both lie in one half-circle, wherever that starts |
| `RbTree.InsertAscending` | heartbeat/ngx_rbtree.c:121-153 | the gap that the descent finds, judged by its two neighbours only, keeps the whole key sequence in circular order |
| `RbTree.RbTree.constructor` | heartbeat/ngx_rbtree.h:44-48 | a new tree is valid and empty, with the sentinel as its root |
| `RbTree.RbTree.LeftRotate` | heartbeat/ngx_rbtree.c:323-350 | the links turn as they should, every subtree but the two that turn keeps its stretch of the in-order sequence, and the sequence itself is unchanged |
| `RbTree.RbTree.RightRotate` | heartbeat/ngx_rbtree.c:353-380 | the mirror image of LeftRotate |
| `RbTree.RbTree.FindSlot` | heartbeat/ngx_rbtree.c:96-153 | both descents end at an empty child whose in-order neighbours are not before and before the key, for plain and for circular comparison |
| `RbTree.RbTree.InsertFixup` | heartbeat/ngx_rbtree.c:45-92 | the rebalancing loop ends, and turns a tree with one red-red pair at its start into a valid red-black tree with the same nodes in the same order |
| `RbTree.RbTree.Insert` | heartbeat/ngx_rbtree.c:24-93 | a fresh node is spliced into the in-order sequence at the gap found for its key, the tree is a valid red-black tree again, all keys are unchanged, and circular order is kept for every window that holds the new key |
| `RbTree.RbTree.Choose` | heartbeat/ngx_rbtree.c:167-183 | the node taken out of its place is the deleted one, or its in-order successor when it has two children |
| `RbTree.RbTree.DeleteFixup` | heartbeat/ngx_rbtree.c:257-319 | the loop ends, and turns a tree whose paths through one node lack a black node into a valid red-black tree with the same nodes in the same order |
| `RbTree.RbTree.Delete` | heartbeat/ngx_rbtree.c:156-320 | the tree is a valid red-black tree over exactly the other nodes in their old order, with their keys; the node's links and key are cleared; circular order is kept |
| `RbTree.RbTree.Min` | heartbeat/ngx_rbtree.h:73-81 | the node found is the first one, in order, of the subtree |
| `RbTree.RbTree.Next` | heartbeat/ngx_rbtree.c:383-409 | the result is the in-order successor, and null exactly for the last node |
| `RbTree.RbTree.Walk` | heartbeat/ngx_rbtree.c:383-409 | the smallest node followed by successors until null visits every node exactly once, in ascending order of the keys, circular order included |
| `RbTree.RbTree.InorderBelow` | heartbeat/ngx_rbtree.h:22-29 | following the pointers below any node spells out its stretch of the in-order sequence |
| `RbTree.RbTree.ValidMeansRedBlack` | heartbeat/ngx_rbtree.c:24-320 | in a valid heap the pointers spell out a tree with a black root, no red node with a red child and equal black counts on all paths, whose in-order sequence is the tree's |
| `RbTree.RbTree.HeightIsLogarithmic` | heartbeat/ngx_rbtree.c:24-320 | every valid heap of n nodes, and so every tree that inserts and deletes reach, has height at most 2 log2(n + 1) |
| `RbTree.RbTree.ParentLinks` | heartbeat/ngx_rbtree.c:185-196 | every node but the root is a child of the node that its parent link names |
| `EventTimer.NearMeans` | heartbeat/ngx_event_timer.h:61-63 | the test that keeps an old deadline accepts those less than 300 ms apart, and those exactly 2^63 apart |
| `EventTimer.HalfTurnIsKept` | heartbeat/ngx_event_timer.h:61-63 | for every armed key the request half a turn away passes that test although it is not close |
| `EventTimer.EventTimers.AddTimer` | heartbeat/ngx_event_timer.h:44-80 | the event is armed; the old deadline stays exactly when the test accepts it, else the new one is set, and no other timer changes; the armed key is less than 300 ms from the request if and only if the call is not a half-turn re-arm, and so is that for all timers over runs without one |
| `EventTimer.EventTimers.DelTimer` | heartbeat/ngx_event_timer.h:30-42 | the event is no longer armed, all other timers keep their deadlines, and order and closeness are kept |
| `EventTimer.EventTimers.FindTimer` | heartbeat/ngx_event_timer.c:30-49 | infinite for no timers, else the time left for some timer, and never more than that for any timer when deadlines and clock share a half-circle |
| `EventTimer.Expiry.StepInOrder` | heartbeat/ngx_event_timer.c:57-90 | one firing of the earliest due timer keeps deadline order between what has fired and what is armed, re-armed timers included |
| `EventTimer.EventTimers.FirstDue` | heartbeat/ngx_event_timer.c:61-72 | the earliest timer if it is due; when none is returned nothing armed is due |
| `EventTimer.EventTimers.FireTimer` | heartbeat/ngx_event_timer.c:74-87 | the fired event is marked and taken out, and its handler's re-arming is all that changes among the armed timers |
| `EventTimer.EventTimers.ExpireTimers` | heartbeat/ngx_event_timer.c:52-91 | the call ends; fired events are distinct and were due, the others are untouched; when deadlines and clock share a half-circle exactly the due events fire, earliest first, and nothing due is left |
| `HuffmanTheory.CostIsInternalWeights` | HuffmanDecompression/HuffmanTree.hpp:57-95 | count times depth summed over the leaves equals the sum of all inner weights |
| `HuffmanTheory.MergeLeast` | HuffmanDecompression/HuffmanTree.hpp:80-93 | any tree can be turned, at no extra cost, into one that merges the two least counts first |
| `HuffmanTheory.GreedyIsOptimal` | HuffmanDecompression/HuffmanTree.hpp:80-94 | on values: merging the two least of a forest of leaves until one tree is left gives least cost among all trees with these counts, whichever least one is taken on ties |
| `Huffman.QueueWeights` | HuffmanDecompression/FileCompress.hpp:35-55 | while the counts sum to less than 2^32 the priority queue compares true weights, in spite of its wrapping sums |
| `Huffman.MergeRound` | HuffmanDecompression/HuffmanTree.hpp:80-93 | one round on the heap of pointers is the merge on values, with parent and child links right |
| `Huffman.CreateHuffmanTree` | HuffmanDecompression/HuffmanTree.hpp:57-95 | no tree exactly when no count is used; else, below 2^32 in all, the pointer tree has the used counts as leaves and least cost among all trees over them, and its cost is the sum of its inner weights |
| `HuffmanCode.CodeLeadsToLeaf` | HuffmanDecompression/FileCompress.hpp:77-89 | the code stored for a symbol, followed from the root, ends at a leaf of that symbol |
| `HuffmanCode.PrefixFree` | HuffmanDecompression/FileCompress.hpp:77-89 | no symbol's code is a prefix of another's |
| `HuffmanCode.CodedSymbols` | HuffmanDecompression/FileCompress.hpp:77-89 | the symbols with a code are those of the leaves |
| `HuffmanCode.SyncStep` | HuffmanDecompression/FileCompress.hpp:232-252 | a decoder in step with an encoding stays so over one bit more, and writes the message's next symbol when it meets a leaf |
| `HuffmanDecode.PackedCarries` | HuffmanDecompression/FileCompress.hpp:139-183 | byte q of packed data carries bits 8q on of the encoding, least significant first |
| `HuffmanDecode.ByteIsThere` | HuffmanDecompression/FileCompress.hpp:228-234 | a decoder that is due a symbol always has a byte to read: data bytes 0xFF do not stop it, and padding emits nothing |
| `HuffmanDecode.Decode` | HuffmanDecompression/FileCompress.hpp:228-256 | packed data of a message is decoded to that message, and a root that is a leaf is walked below |
| `HuffmanFile.FileCompress.GenerateHuffmanCode` | HuffmanDecompression/FileCompress.hpp:77-89 | the preorder walk stores each leaf's path as its code, and leaves the other entries alone |
| `HuffmanFile.TwoSymbolsMeansNode` | HuffmanDecompression/HuffmanTree.hpp:57-95 | the root is an inner node if and only if the input holds two different bytes |
| `HuffmanFile.TableReadsBack` | HuffmanDecompression/FileCompress.hpp:204-218 | the records of the table give the reader the input's counts, unless the only count equals the end mark, when it gets none |
| `HuffmanFile.NoCountIsTheMark` | HuffmanDecompression/FileCompress.hpp:127-135 | a count can equal the end mark only when one symbol fills 2^32 - 1 bytes |
| `HuffmanFile.FileCompress.Pack` | HuffmanDecompression/FileCompress.hpp:139-183 | the bytes written hold the codes of the input one after the other, least significant bit first, then fewer than eight zero bits |
| `HuffmanFile.FileCompress.Compress` | HuffmanDecompression/FileCompress.hpp:91-191 | the file is the table of the input's counts with its end mark and the packed codes of its tree; the empty input asks an empty heap for its top |
| `HuffmanFile.FileCompress.Uncompress` | HuffmanDecompression/FileCompress.hpp:192-260 | of a compressed input: the input for two different bytes, a walk through a null child for one, an empty heap for one that fills 2^32 - 1 bytes |
| `HuffmanFile.RoundTrip` | HuffmanDecompression/FileCompress.hpp:91-260 | compressing and then uncompressing gives the input back if and only if it holds two different bytes, and never gives anything else, for all inputs below 2^32 bytes |
| `HuffmanSize.CompressedBits` | HuffmanDecompression/FileCompress.hpp:139-183 | the number of bits packed is the cost of the tree, which is the sum of its inner weights |
| `HuffmanSize.CompressionIsOptimal` | HuffmanDecompression/FileCompress.hpp:139-183 | no tree over the same leaf counts makes the encoding shorter |
| `CasQueue.StepKeeps` | cas_queue/queue_cas.h:45-72 | every step of any thread keeps the invariant: links chain the nodes from the first one, each link is set once, unlinked nodes belong to one thread, and the events so far are those of a queue |
| `CasQueue.LinkExtendsChain` | cas_queue/queue_cas.h:49-56 | the compare-and-swap that links a node succeeds only at the last node, although tail may lag, and adds its element behind all others |
| `CasQueue.HeadAdvances` | cas_queue/queue_cas.h:61-71 | the compare-and-swap on head takes out exactly the first element |
| `CasQueue.NullMeansEmpty` | cas_queue/queue_cas.h:65-66 | at the instant when pop reads a null link the queue is empty, although head may have moved meanwhile |
| `CasQueue.EveryRun` | cas_queue/queue_cas.h:45-72 | for any threads and any interleaving the effects, in order, are legal for an atomic FIFO queue, whose contents are the elements linked behind head |
| `CasQueue.LegalIsFifo` | cas_queue/queue_cas.h:45-72 | in a legal series of effects the elements taken are a prefix of those added, and the contents are the rest |
| `CasQueue.PopsFollowPushes` | cas_queue/queue_cas.h:45-72 | in every run the elements popped are the first of those pushed, in the same order |
| `CasQueue.EmptyMeansAllPopped` | cas_queue/queue_cas.h:65-66 | when a pop finds nothing, all elements pushed before have been popped |
| `CasQueue.LinearizationPoint` | cas_queue/queue_cas.h:45-72 | every operation that returns has exactly one effect, between its call and its return, which fits its request and its result |
| `CasQueue.RealTimeOrder` | cas_queue/queue_cas.h:45-72 | when one operation returns before another is called, its effect comes first |
| `CasQueue.NothingMovesBack` | cas_queue/queue_cas.h:45-72 | between any two instants of a run links that were set stay as they are, elements do not change, and head and tail do not move back along the chain |
| `CasQueue.FailedPushMeansProgress` | cas_queue/queue_cas.h:49-57 | a push whose compare-and-swap fails was overtaken by another push since it read the link |
| `CasQueue.FailedPopMeansProgress` | cas_queue/queue_cas.h:63-69 | a pop whose compare-and-swap fails was overtaken by another pop |
| `CasProgress.OwnStep` | cas_queue/queue_cas.h:45-72 | while nothing takes effect each step inside an operation uses up one of a measure: the distance to the last node, and where the thread stands |
| `CasProgress.LockFree` | cas_queue/queue_cas.h:45-72 | the queue is lock-free: between two instants of any run without a push or a pop taking effect a thread inside one operation takes at most twice as many steps as there were pushes, and six |
| `RingBuffer.WriteTwice` | udp_piece/circular_buffer.c:51-79 | the two stretches stored around the end of the data extend the window by both, in order |
| `RingBuffer.CircularBuffer.Write` | udp_piece/circular_buffer.c:51-79 | as many of the bytes as fit are appended to the queue, and their number is returned |
| `RingBuffer.CircularBuffer.Read` | udp_piece/circular_buffer.c:82-110 | the front of the queue is moved to the destination, as many bytes as there are, and nothing else there changes |
| `RingBuffer.CircularBuffer.Get` | udp_piece/circular_buffer.c:114-125 | the byte at an index from the front; refused exactly when there is none |
| `RingBuffer.CircularBuffer.PopFront` | udp_piece/circular_buffer.c:129-150 | that many bytes, or all, leave the front |
| `UdpPieces.PieceFields` | udp_piece/udp-piece.c:108-155 | the fields of a piece's header, read at their offsets, are the totals, the index, the length and the sync word, and its data is its part of the message |
| `UdpPieces.UdpPiece.Reset` | udp_piece/udp-piece.c:59-76 | the receiver is ready for a message and the ring is empty |
| `UdpPieces.UdpPiece.Get` | udp_piece/udp-piece.c:108-155 | the buffer holds exactly the piece: header, then its part of the message |
| `UdpPieces.UdpPiece.MergeEx` | udp_piece/udp-piece.c:270-424 | the fields, the ring and the result after a chunk are those of the specification function, for every state and every chunk, malformed ones and a full ring included |
| `UdpPieces.WholeMessage` | udp_piece/udp-piece.c:382-413 | once each piece has been stored, in whatever order, the buffer holds the message and the length counted is its length |
| `UdpPieces.TakeStream` | udp_piece/udp-piece.c:309-421 | over any part of the stream the loop stops between two pieces with the rest in the ring, or after the last one with the message complete |
| `UdpPieces.RoomIs` | udp_piece/udp-piece.c:281-289 | whether a chunk finds room beside what the receiver holds can be told from the message, the order and the chunks alone |
| `UdpPieces.Reassembly` | udp_piece/udp-piece.c:270-424 | the pieces of a message, each once, in any order, cut into any chunks: only the last chunk reports a complete message, which is then in the buffer, if and only if each chunk fits the ring beside what has come of an unfinished piece |
| `UdpPieces.RoomSuffices` | udp_piece/udp-piece.c:281-289 | a ring with 547 bytes of space beside each chunk is never too full |
| `UdpPieces.SmallRing` | udp_piece/udp-piece.c:281-289 | three bytes come as fifteen, which a ring of fourteen refuses |
| `UdpPieces.SendAll` | udp_piece/udp-piece.c:86-155 | cutting a message and sending its pieces in some order yields their stream |
| `UdpPieces.ReceiveAll` | udp_piece/udp-piece.c:270-424 | the same as Reassembly for the object with its ring and its buffers: the receive buffer equals the message at the end |
| `UdpTotals.MismatchIsSilent` | udp_piece/udp-piece.c:398-413 | for any group of pieces, of whatever origin, that lie in the buffer: the whole group is reported complete if and only if its bytes add up to the size announced, and otherwise as if pieces were missing; the group is over in both cases |
| `UdpTotals.MismatchedChunk` | udp_piece/udp-piece.c:270-424 | the same for the whole call when the group comes in one chunk |
| `UdpTotals.ThreeOfFive` | udp_piece/udp-piece.c:404-412 | one piece of three bytes that announces five: no piece is missing, and no mismatch is reported |
| `PduStream.HeaderRoundTrip` | protobuf/im/ImPduBase.cc:57-130 | a header in range, written and read back with anything behind it, is the same header |
| `PduStream.SimpleBuffer.Extend` | protobuf/im/UtilPdu.cc:32-38 | the buffer has room for the bytes asked for, and its contents are unchanged |
| `PduStream.SimpleBuffer.Write` | protobuf/im/UtilPdu.cc:40-55 | the bytes are appended, growing the buffer when needed |
| `PduStream.SimpleBuffer.Read` | protobuf/im/UtilPdu.cc:57-70 | the front leaves, at most what there is, and the rest moves up |
| `PduStream.SimpleBuffer.FirstPdu` | protobuf/im/ImPduBase.cc:112-169 | not yet, zero length, or the PDU at the front of the contents, without a change to them |
| `PduStream.ImPdu.SetBody` | protobuf/im/ImPduBase.cc:171-187 | the buffer holds header and body, and if the fields fit is a well-formed PDU that reads back as that header |
| `PduStream.ReadPduMonotone` | protobuf/im/ImPduBase.cc:132-169 | more bytes behind a PDU that is already there do not change it |
| `PduStream.ChunksDoNotMatter` | protobuf/im/server.cc:82-131 | a stream that frames without an exception is served as a whole, whatever the chunks |
| `PduStream.Framing` | protobuf/im/server.cc:82-131 | after any part of a stream of well-formed PDUs, in any chunks, exactly the complete ones have been dispatched, in order, and the buffer holds exactly the start of the next |
| `PduStream.DispatchAll` | protobuf/im/server.cc:103-128 | the inner loop on the mutable buffer dispatches and leaves what the specification says, an exception included |
| `PduStream.RecvMsg` | protobuf/im/server.cc:82-131 | the receive loop with its buffer serves any chunks of 1 to 2048 bytes as the specification says |
| `Utf8Text.Utf8RoundTrip` | tinyxml2/tinyxml2.cpp:417-467 | every code point below 2^21 has UTF-8 bytes from which it comes back |
| `XmlText.RefShrinks` | tinyxml2/tinyxml2.cpp:470-563 | a character reference is never shorter than the bytes it stands for, and reading it advances |
| `XmlText.StepShrinks` | tinyxml2/tinyxml2.cpp:293-371 | in each round of decoding, of any text, the write pointer does not pass the read pointer |
| `XmlText.XmlPrinter.PrintString` | tinyxml2/tinyxml2.cpp:2596-2648 | runs of plain characters and references together append the escaped text, or the text itself without entity processing |
| `XmlText.StrPair.GetStr` | tinyxml2/tinyxml2.cpp:281-379 | the buffer, rewritten in place, holds the decoded text and a NUL; a second call changes nothing |
| `XmlText.ReadsBack` | tinyxml2/tinyxml2.cpp:340-369 | wherever the escape of a character stands, one round reads back that character |
| `XmlText.EntityRoundTrip` | tinyxml2/tinyxml2.cpp:281-379 | decoding undoes escaping for every string without NUL and carriage return, in text and in attributes |
| `XmlText.PrintAndGet` | tinyxml2/tinyxml2.cpp:281-379 | what the printer object writes for such a string is decoded in place, by the string object, to that string |
| `XmlText.NumericReferenceDecodes` | tinyxml2/tinyxml2.cpp:470-563 | hexadecimal digits of any number decode to the UTF-8 bytes of their value modulo 2^32, and decimal ones, leading zeros included, to those of any value below 2^32, although digits are read backwards with wrapping products |
| `XmlUnknown.UnknownKept` | tinyxml2/tinyxml2.cpp:355-359 | a text is decoded with its unknown entities kept as they are if and only if, at each of them, an ampersand happens to stand at the write pointer |
| `XmlUnknown.AllKnown` | tinyxml2/tinyxml2.cpp:281-379 | a text without unknown entities is decoded as intended |
| `XmlUnknown.UnknownAfterKnown` | tinyxml2/tinyxml2.cpp:340-359 | an input: in `&lt;&x;` the unknown ampersand becomes the second character of the text |
| `JsonString.UnitFits` | cJSON/demo1/cJSON.c:780-868 | every unit the second pass decodes, of any text, well-formed or not, leaves room by the count of the first pass |
| `JsonString.FitsAllocation` | cJSON/demo1/cJSON.c:780-868 | whatever fits on the way fits the space allocated |
| `JsonPieces.PieceRead` | cJSON/demo1/cJSON.c:813-868 | each character, short escape or Unicode escape, in either case of its digits, is decoded to what it means |
| `JsonPieces.StringRoundTrip` | cJSON/demo1/cJSON.c:767-893 | both passes over a string in any spelling find its end and give what it means |
| `JsonPieces.UnicodeRead` | cJSON/demo1/cJSON.c:646-764 | the escapes of a code point's UTF-16 units, pairs included, decode to its UTF-8 bytes (sections 2.1 and 2.2 of RFC 2781, section 3 of RFC 3629) |
| `JsonParse.ParseBuffer.SkipWhitespace` | cJSON/demo1/cJSON.c:1032-1055 | the offset ends at the next character that is no blank, or on the NUL, in spite of the step past it and back |
| `JsonParse.ParseBuffer.DecodeInto` | cJSON/demo1/cJSON.c:813-868 | no write leaves the space that the first pass counted, for every body; the output is what the grammar decodes, and a malformed body is refused |
| `JsonParse.ParseBuffer.ParseString` | cJSON/demo1/cJSON.c:767-893 | succeeds exactly where the grammar reads a string, with its text and its end |
| `JsonParse.ParseBuffer.ParseNumber` | cJSON/demo1/cJSON.c:301-375 | succeeds exactly where the grammar reads a number within the 63 characters copied |
| `JsonParse.ParseBuffer.ParseArray` | cJSON/demo1/cJSON.c:1435-1530 | succeeds exactly where the grammar reads an array below the nesting limit, with the same items, depth restored |
| `JsonParse.ParseBuffer.ParseObject` | cJSON/demo1/cJSON.c:1595-1705 | the same for objects and their members |
| `JsonParse.ParseBuffer.ParseValue` | cJSON/demo1/cJSON.c:1306-1358 | for every NUL-terminated text the mutually recursive parser ends, reads no character outside the text, and agrees with the grammar on failure, value, and offset, which advances |
| `JsonGrammar.SkipBlank` | cJSON/demo1/cJSON.c:1032-1055 | exactly the blanks are skipped |
| `JsonGrammar.NestingIsLimited` | cJSON/demo1/cJSON.c:1435-1445 | whatever the text, a value that is read nests no deeper than the limit |
| `JsonSpelling.ListRead` | cJSON/demo1/cJSON.c:1468-1517 | a list whose elements are each understood where they stand is read as those elements, whatever the white space before and behind each |
| `JsonSpelling.FormRead` | cJSON/demo1/cJSON.c:1306-1705 | a value spelled in any way, with any white space between its tokens and any escapes in its strings and names, standing anywhere with no number character behind it, is read as that value and nothing more |
| `JsonReadBack.WrittenRenders` | cJSON/demo1/cJSON.c:1361-1819 | what the printer prints, formatted or not, is one such spelling of the value |
| `JsonReadBack.ReadsBack` | cJSON/demo1/cJSON.c:1306-1819 | the text rendered for a value, standing anywhere with no number character behind it, is read as that value and nothing more |
| `JsonPrint.PrintBuffer.Ensure` | cJSON/demo1/cJSON.c:435-520 | on success there is room for the bytes and one more; what was printed stays, by either way of growing, also of an empty buffer; a fixed buffer stays the same one; it succeeds while the limit allows |
| `JsonPrint.PrintBuffer.UpdateOffset` | cJSON/demo1/cJSON.c:523-533 | the offset moves to the end of the text just written, found by its NUL |
| `JsonPrint.PrintBuffer.PrintString` | cJSON/demo1/cJSON.c:896-1015 | the quoted, escaped string stands behind what was printed, in the space that the first loop counted |
| `JsonPrint.PrintBuffer.PrintValue` | cJSON/demo1/cJSON.c:1361-1432 | every write stays in the buffer, what was printed stays, the rendering of the value stands behind it with a NUL, and it succeeds whenever that fits the limit |
| `JsonPrint.PrintBuffer.PrintArray` | cJSON/demo1/cJSON.c:1533-1592 | the same for arrays, depth restored |
| `JsonPrint.PrintBuffer.PrintObject` | cJSON/demo1/cJSON.c:1708-1819 | the same for objects, with indentation by depth |
| `JsonText.Parse` | cJSON/demo1/cJSON.c:1089-1166 | the result is what the text means by the grammar, a byte order mark skipped, failure included |
| `JsonText.NothingBehind` | cJSON/demo1/cJSON.c:1123-1131 | when termination is required a text has a meaning if and only if a value is read and only white space follows it |
| `JsonText.PrintBuffered` | cJSON/demo1/cJSON.c:1255-1282 | with a first buffer of any size, zero included, the result holds the rendering as a C string; a negative size is refused, and a text that fits an int is not |
| `JsonText.PrintPreallocated` | cJSON/demo1/cJSON.c:1284-1303 | the caller's buffer holds the rendering as a C string on success, which two bytes more than the text guarantee |
| `JsonText.MeaningOfSpelling` | cJSON/demo1/cJSON.c:1089-1166 | every JSON text, with any white space, any escapes and perhaps a byte order mark, means the value it spells, termination required or not |
| `JsonText.NumberUnderstood` | cJSON/demo1/cJSON.c:301-375 | a number on its own that strtod reads to its end is understood if and only if it has no more than 63 characters |
| `JsonText.MeaningOfPrinted` | cJSON/demo1/cJSON.c:1181-1243 | the rendering of a printable value, formatted or not, means that value |
| `JsonText.TextsDiffer` | cJSON/demo1/cJSON.c:1361-1432 | two printable values with the same rendering, formatted or not, are the same value |
| `JsonText.RoundTrip` | cJSON/demo1/cJSON.c:1089-1243 | printing a value, formatted or not, and parsing the text gives it back: always when the text fits an int, and nothing else ever |
| `JsonList.CJson.GetItem` | cJSON/demo1/cJSON.c:1845-1862 | the child at an index, null behind the last one |
| `JsonList.CJson.Add` | cJSON/demo1/cJSON.c:1950-1990 | the item becomes the last child, also when the first one's prev is null, and the links stay mirrored |
| `JsonList.CJson.Detach` | cJSON/demo1/cJSON.c:2190-2224 | exactly that child leaves the list, unlinked, at whichever end it stood |
| `JsonList.CJson.DetachAt` | cJSON/demo1/cJSON.c:2226-2234 | the child at the index leaves; nothing happens for one outside the list |
| `JsonList.CJson.Insert` | cJSON/demo1/cJSON.c:2266-2293 | the item stands at the index, or last when the index is past the end, and a negative index is refused |
| `JsonList.CJson.Replace` | cJSON/demo1/cJSON.c:2295-2342 | the replacement takes the child's place among the others, and replacing a child by itself changes nothing |
| `JsonList.CreateArray` | cJSON/demo1/cJSON.c:2543-2576 | that many children, correctly linked, with a first one whose prev is null |

## Findings

Where the code does not do what one would expect, the model keeps the code, and the exact condition is proved.

- Lazy re-arming (heartbeat/ngx_event_timer.h:61-63, heartbeat/ngx_core.h:33): a request exactly 2^63 ms from the armed deadline keeps the
  old deadline, because the absolute value of the least signed word is itself negative. Negating that word is taken to wrap.
  `EventTimer.HalfTurnIsKept` gives the input for every key. `AddTimer` states that the armed key is less than 300 ms from the request if
  and only if the call is not such a half-turn, and that all armed keys stay so over calls that are not.
- Huffman round trip (HuffmanDecompression/HuffmanTree.hpp:94, HuffmanDecompression/FileCompress.hpp:236-240): a file that repeats one
  byte has a leaf as its tree, and uncompressing it follows a null child; an empty file asks an empty heap for its top; and a file of
  2^32 - 1 equal bytes has a count that reads as the end of the table. `HuffmanFile.RoundTrip` succeeds if and only if the input holds
  two different bytes, and `Compress` and `Uncompress` name the failure in each other case.
- Reassembly (udp_piece/udp-piece.c:283-289): a chunk that meets too full a ring is reported, but its start stays in the ring.
  `UdpPieces.Reassembly` is an equivalence with room for each chunk beside what has come of an unfinished piece, which can be told from
  the message and its chunks; `SmallRing` is an input that fails, and `RoomSuffices` gives a size that is always enough.
- Length mismatch (udp_piece/udp-piece.c:411): the statement that should flag it computes a value and drops it. A whole group of pieces
  whose bytes do not add up to the announced size is reported as if pieces were missing: `UdpTotals.MismatchIsSilent` is an equivalence
  for pieces of any origin, and `ThreeOfFive` an input.
- Unknown entities (tinyxml2/tinyxml2.cpp:355-359): the write pointer moves over a byte that is not written, so the output shows the byte
  of the original text that stands there. `XmlUnknown.UnknownKept` is an equivalence with an ampersand standing there each time, and
  `UnknownAfterKnown` an input.
- Long numbers (cJSON/demo1/cJSON.c:301-375): no more than 63 characters of a number are read. `JsonText.NumberUnderstood` is an
  equivalence for a number on its own.

## Left out

- The repository's other directories: ZeroMQ, server and client, HTTP, Bloom filter, iconv, jsoncpp, muduo, Go, Qt, STL, MySQL, OpenSSL,
  zlib, Docker, protobuf/im_new, and generated protobuf code. They are input and output, wrappers of libraries not shown, or copies.
- All `main` functions, sockets, epoll, threads as operating system objects, file access, logging and allocation failure.
- RbTree: the sentinel's colour and parent are modelled; the parent of the root is not kept, as in the source.
- Event timers: the clock is fixed during a call, and handlers at most re-arm their own event with a delay from 1 to 2^63 - 1
  (as in heartbeat/ngx_server.c:167-174). Overflow of `timedout`, other fields of events, and ngx_event_no_timers_left apart from its walk are not modelled.
- Huffman: the priority queue is any function from the counts in it to the index of a least one, which covers every heap. Inputs of 2^32 bytes and more,
  whose counts wrap, the layout of table records in bytes, and reading a file without the end mark, which does not end, are not modelled.
- CasQueue: memory is sequentially consistent, and nodes are never reused, so `delete p`, the destructor and show() are not modelled. Elements are integers.
- UDP pieces: duplicated pieces and two messages in flight have no theorem, although MergeEx covers them. A piece whose place is outside the buffer, which the source does not
  check, ends the call with Overrun. Negative sizes and udp_piece_merge for whole datagrams are not modelled. PIECE_FIX_SIZE is 536; udp_piece/udp-piece.h:20 does not compile as written.
- PDU framing: the 32-bit wrap of buffer sizes, the protobuf messages in the bodies, and what handlers do with them.
- XML text: tinyxml2.h is not part of this model, so the range of flagged characters is taken to cover the entity table; whitespace collapsing, failed assertions and the document parser are left out.
- JSON: numbers are texts; how much of a text strtod reads is a parameter, and the decimal point is a point. cJSON.h is not part of this model, so the nesting limit is a parameter.
  Raw items, null strings, cJSON_Minify, cJSON_Duplicate, parsing by length without a terminator, the position of errors, and the linked lists that the parser builds are left out.
  The escape of U+0000, which ends the C string, is no spelling here; the parser's methods cover it. When an empty buffer grows by hand the source copies one byte from behind it, which the model does not.
- JSON child lists: names and types of items, the numbers in a created array, and freeing.
- JsonText.Print: it does not say for which texts longer than an int printing fails, only that a text is never wrong.
