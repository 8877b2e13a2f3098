# A verified model of sftt

sftt moves files between a client and a server. This project models the parts of it that carry
the most logic and proves what they promise:

- **Huffman compression** (`Sums`, `Bytes`, `HuffmanOptimal`, `HuffmanTree`, `HuffmanCode`, `HuffmanNodes`,
  `Stacks`, `HuffmanSearch`, `HuffmanCodec`, `HuffmanOrder`, `HuffmanLayout`, `HuffmanBounds`, `Compression`). The imperative code - counting,
  pulling the two lightest nodes from a linked list, the search with its two stacks and its visited map on
  linked lists, the `(pos, index)` bit cursor - is proved against functions on sequences. On those functions:
  the code is optimal among all prefix-free codes, prefix-free, exactly full (Kraft), the lighter of two siblings
  is the left one, every number and bit of the output stands where the format has it, and
  `huffman_compress` comes back exactly when the number of bits fits an `int`, in particular for every
  input below 2^28 bytes, and `huffman_decompress` then undoes it - also for a single distinct byte,
  where the root has one child and the code is "1".
- **Packets** (`Framing`, `NetTrans`, `RawPackets`). The positional shift, the buffer encoding and the eight-byte
  headers on a byte stream: packets sent with whole calls are received in order with their contents if and
  only if every receive that finds anything reads a whole header and a whole content. With the generated
  encoders as serializers, structs so arrive between hosts of one byte order, and between hosts of different
  byte order they do not.
- **The memory pool** (`PoolSpec`, `PoolEffects`, `MemPool`). Its invariant over every run of malloc, free, realloc
  and stores, what each call changes, best fit, growth, and exactly when realloc returns a usable block.
- **MD5** (`Md5`). The buffered, chunk-by-chunk context refines the one-shot digest of sections 3.1 to 3.5
  of RFC 1321, the transform of section 3.4 being a parameter.
- **The thread pool and the lock** (`ThreadPool`, `ThreadCalls`, `RwLock`). State machines whose steps are the single
  loads, stores, compare-and-swaps and pipe operations of the threads; safety over every interleaving, and the
  answer to every call.
- **The doubly linked list** (`StableSort`, `DList`). Heap nodes with `prev` and `next` against the
  sequence of nodes; `dlist_sort` computes the one stable sort.
- **Numbers and arguments** (`StrToX`, `Tokenizer`). The overflow test of the integer parser, and the
  quote-aware splitting of a command line, with the exact outcome for every line.
- **Generated encoders** (`RawCodec`). An interpreter for the statements the generator emits, for every
  acyclic set of struct descriptions, on the bytes of a struct: padding, offsets and array strides included.

Bytes are `int` values from 0 to 255, `short` and `int` in memory are laid out in the byte order of the host,
which is a parameter wherever it shows, and 32- and 64-bit arithmetic is written out modulo 2^32 and 2^64 wherever the code wraps.

Check it with `dafny verify dfyconfig.toml`.

## Where the code does not do what it seems to promise

- `rwlock_write_trylock` is documented to refuse only a lock that is held; its weak compare-and-swap may
  also fail spuriously, so it can refuse a free one (`RwLock.WriteTrylockOnAFreeLock`).
- `handle_client_session` unlocks after a failed trylock; a writer can then run beside a reader
  (`RwLock.UnlockAfterRefusal`). A release keeps the count exactly when its caller holds the lock
  (`RwLock.ReleaseExactly`).
- `mp_realloc` of a block that was already freed can return a block that is not in use
  (`PoolSpec.ReallocOfFreed`, exact condition in `PoolSpec.ReallocUsable`).
- `get_compress_output_len` adds up the code lengths in an `int`. Its result is the true size exactly while
  the bits and 7 more fit (`Compression.GetCompressOutputLen`), which is so below 2^28 bytes of input
  (`HuffmanBounds.SmallInputs`) and fails at 2^28 bytes with all 256 values equally frequent
  (`HuffmanBounds.CycleOverflows`): the buffer is then too small. `sftt_buffer_encode` fails with it.
- `MD5Update` reads past inputs within 64 bytes of 4 GiB (`Md5.Context.Update` has the exact length for any
  context, `Md5.OverRead` the boundary for an empty one).
- `_parse_integer` documents 16 as the largest base. In any base the flag is exact for all strings if and only if
  a number that `StrToX.Largest` computes leaves room for one more digit (`StrToX.ExactUnlessBlind`): not so in
  base 17 (`StrToX.UnflaggedOverflow`), so in base 2^30 (`StrToX.Base30Sees`). A run of 2^31 digits makes the
  count itself look like the flag (`StrToX.WordAtLimit`).
- `parse_args` writes past its buffer exactly when all words but the last are below 1024 characters, the last
  means exactly 1024, its last non-empty piece is bare and nothing follows it. Any other long word refuses the
  line, and so do quotes of one kind inside the other (`Tokenizer.LengthLimit`, `Tokenizer.MixedQuotes`). An
  argument is silently dropped exactly when a quote is open at the end of the line and the pieces up to there
  mean anything (`Tokenizer.UnclosedQuote`, `Tokenizer.DroppedExactly`). `Tokenizer.EveryLine` shows that these
  lemmas cover every line.
- `launch_one_thread` accepts a NULL function, and the worker then waits for ever (`ThreadPool.NullLaunch`); a
  launch can be completed if and only if its function is not NULL (`ThreadPool.LaunchDecides`).
- `recv_sftt_packet` reads the header with one `recv` and the content with another, and the session loops call it
  on sockets that do not block. A packet is received exactly when both reads are whole (`Framing.ReadsDecide`); after
  any other receive a retry recovers it exactly when the header read returned -1 (`Framing.RetryRecovers`).
  Otherwise the next receive starts inside the header or inside the content (`Framing.AfterShortHeader`,
  `Framing.AfterShortContent`). In the ordinary case of a header whose content is not there yet, it gives
  no packet either (`NetTrans.LateContent`). The loops decide whether to go on by an error number that only the
  header read sets.
- `send_sftt_packet` insists on whole sends and otherwise dies. The receive that meets what it sent until then makes
  no packet of that (`Framing.TornPacket`), nor does a loop that stops at a failed receive (`Framing.TornStream`);
  a receive after that one starts inside the packet and takes whatever stands there for a header.
- The generated encoders convert every field to network order, as if for hosts of different byte order
  (`RawCodec.FieldsTravel`), but packet headers, the frequency table and the input length are copied as they stand
  in memory. A host of the other byte order takes type and length with their bytes swapped (`Framing.OtherOrder`):
  it receives no packet of a type from 1 to 2^16 - 1 (`Framing.NoneAcrossOrders`), and none of any type before 2^16
  bytes have been sent behind its header (`Framing.NoneShortAcrossOrders`) - of type 0, the request that opens a
  session, too.
- `dlist_merge` of a list with itself ties it into a ring and doubles its size (`DList.Merge`).
- `X_raw_decode` copies as many bytes as the buffer has, whatever the size of the struct (`RawCodec.Decode`).

## Model

| member | source | states |
|---|---|---|
| Bytes.GetAfterPut | src/bits.c:22-43 | setting a bit changes that bit and no other, as get_bit sees it |
| Bytes.TestAfterSet | src/bits.c:22-43 | the same for the mask expressions of set_bit and get_bit on eight bits |
| Bytes.MaskArithmetic | src/bits.c:22-43 | the mask expressions and the arithmetic description agree on every byte, position and bit |
| Bytes.WriteBit | src/compress.c:395-426 | a cursor step writes one bit: the number of bits written grows by one, whatever the position |
| Bytes.WriteBitsConcat | src/compress.c:395-426 | writing words one after the other is writing their concatenation |
| Bytes.ReadBack | src/compress.c:395-426 | bits written through the cursor are found again by the reading cursor that starts where writing started |
| Bytes.LeWraps | src/compress.c:369-393 | the bytes of a number, lowest first, stand for it modulo 256^k |
| Bytes.Int16RoundTrip | src/compress.c:560-581 | a short written to the table is read back on a host of the same byte order, sign included |
| Bytes.Int32RoundTrip | src/compress.c:560-581 | an int written to the table is read back on a host of the same byte order, sign included |
| Bytes.ReadInOrder | src/compress.c:369-393 | the bytes of a number laid out in the order of a host are that number to it |
| Bytes.SwappedBoth | src/net_trans.c:81-82 | an int read on a host of the other byte order is the same, whichever of the two wrote it |
| Bytes.SwappedSmall | src/net_trans.c:316-317 | read there, a number from 1 to 2^16 - 1 becomes negative, or 2^16 or more |
| HuffmanOptimal.MinIndex | src/compress.c:132-161 | the entry pulled is the first lightest one |
| HuffmanOptimal.MergeCostIsOptimal | src/compress.c:132-255 | repeatedly merging the two lightest costs no more than any assignment of lengths that satisfies Kraft's inequality |
| HuffmanTree.CodeHead | src/compress.c:292-352 | a code begins with the child its symbol is under: 1 left, 0 right |
| HuffmanTree.BuildForestLaws | src/compress.c:163-255 | the tree has exactly the listed symbols with their frequencies, and its bits are the cost of the merges |
| HuffmanTree.BuildFits | src/compress.c:200-244 | if every sum in the finished tree is an int, no sum overflows on the way |
| HuffmanTree.LeavesProper | src/compress.c:163-198 | one leaf for each byte of non-zero frequency, and none other |
| HuffmanTree.ProperIsDistinct | src/compress.c:200-255 | no symbol stands twice in the tree, also under the one-child root |
| HuffmanOrder.OneRound | src/compress.c:200-244 | one round in full: the first of the lightest becomes the left child, the first of the lightest others the right one, and their parent goes behind the rest |
| HuffmanOrder.LeavesInOrder | src/compress.c:163-198 | the initial list holds its leaves in byte order |
| HuffmanOrder.BuildSiblings | src/compress.c:163-255 | in the tree of every table a left child is no heavier than its sibling; of equally heavy ones a leaf is left of an inner node, and the smaller byte left of the larger |
| HuffmanOrder.TwoCodes | src/compress.c:292-352 | of two symbols a < b, b gets the code 1 if and only if it is the rarer one |
| HuffmanCode.CodesPrefixFree | src/compress.c:292-352 | no code is a prefix of another |
| HuffmanCode.CodeLengthBound | src/compress.c:200-255 | with k symbols no code is longer than k-1 bits |
| HuffmanCode.KraftEquality | src/compress.c:200-255 | with two or more symbols the sum of 2^-length is exactly 1 |
| HuffmanCode.KraftInequality | src/compress.c:200-255 | for any prefix-free list of words that sum is at most 1 |
| HuffmanCode.WeightedLengthIsBits | src/compress.c:200-255 | the weighted length of the codes is the sum of the inner frequencies of the tree |
| HuffmanCode.BuildSymbols | src/compress.c:163-255 | exactly the bytes of non-zero frequency get a code |
| HuffmanCode.CodeIsOptimal | src/compress.c:132-255 | for every table with two or more symbols the code is no longer, weighted, than any prefix-free code for them |
| HuffmanCode.TreeIsOptimal | src/compress.c:132-255 | the same against every binary tree with the same weighted leaves |
| HuffmanNodes.BTreeNode.MakeLeaf | src/btree.c:26-40 | a leaf node stands for its leaf |
| HuffmanNodes.BTreeNode.GenParent | src/btree.c:230-243 | a parent node stands for the tree over its children, or over its one child |
| HuffmanNodes.BTreeNode.Count | src/btree.c:285-294 | the recursive count is the number of distinct nodes |
| HuffmanNodes.NodeList.ScanMin | src/compress.c:132-161 | the scan over the linked list keeps the first of the lightest entries |
| HuffmanNodes.NodeList.FetchMin | src/compress.c:132-161 | the lightest node leaves the linked list and the others stay in order |
| HuffmanNodes.NodeList.Append | src/compress.c:186-191 | a node goes to the end of the linked list |
| HuffmanNodes.FetchTwo | src/compress.c:202-213 | the two fetches of one round, the second from what the first leaves |
| HuffmanNodes.MakeLeaves | src/compress.c:163-198 | the linked list holds the leaves in byte order at first |
| HuffmanNodes.AppendParent | src/compress.c:200-244 | the parent of the two nodes goes to the end of the linked list, unless the sum of their frequencies is no int |
| HuffmanNodes.MergeTwo | src/compress.c:200-244 | one round of the loop, the last node, or an overflow, and exactly when |
| HuffmanNodes.RootOf | src/compress.c:213-224 | a last node that is a leaf gets a one-child root |
| HuffmanNodes.GenerateHuffmanTree | src/compress.c:163-255 | the heap tree stands for the tree of the specification; none for an empty table; an overflow exactly when some sum in that tree is no int |
| Stacks.Stack.constructor | src/stack.c:26-43 | an empty stack |
| Stacks.Stack.Push | src/stack.c:67-74 | on top, the others below it |
| Stacks.Stack.Pop | src/stack.c:76-83 | the top leaves and is handed out; an empty stack stays as it is |
| Stacks.Stack.Peek | src/stack.c:85-93 | the top, if there is one |
| Stacks.Stack.PeekAll | src/stack.c:124-136 | everything on the stack, top first |
| Stacks.Map.constructor | src/map.c:46-62 | an empty map |
| Stacks.BoundFrom | src/map.c:97-118 | a key is bound where its first pair says |
| Stacks.BoundAppend | src/map.c:64-95 | a pair with a new key at the end binds that key and changes no other |
| Stacks.BoundUpdate | src/map.c:64-95 | so does replacing the value of the first pair of a key |
| Stacks.Map.Find | src/map.c:97-118 | the value a key is bound to, or none |
| Stacks.Map.Add | src/map.c:64-95 | the map with that key bound to that value and all others as before |
| HuffmanSearch.GetCharCode | src/compress.c:257-281 | the code is the stack read from the bottom, by way of an array |
| HuffmanSearch.PathIsCode | src/compress.c:292-352 | with the search at a leaf, the code stack is that leaf's code |
| HuffmanSearch.PushStep | src/compress.c:292-352 | going down keeps code stack, node stack and visited map in step |
| HuffmanSearch.PopStep | src/compress.c:292-352 | so does going back up, after recording the code of a leaf |
| HuffmanSearch.PopLast | src/compress.c:292-352 | when the root is popped every code has been recorded |
| HuffmanSearch.Search.NextChild | src/compress.c:331-346 | the first child that is there and has not been visited |
| HuffmanSearch.Search.Step | src/compress.c:315-347 | the body of the loop on the linked stacks and map: down to that child, or the code recorded and back up |
| HuffmanSearch.Turn | src/compress.c:315-347 | each turn keeps the search on its path and gets further, so that it ends |
| HuffmanSearch.GetCharCodes | src/compress.c:292-352 | the search over two linked stacks and a linked map ends with exactly the recursive root-to-leaf codes |
| HuffmanCodec.Freq | src/compress.c:81-100 | the table holds the number of occurrences of each byte |
| HuffmanCodec.ReadTable | src/compress.c:560-581 | the table reader recovers the table from its bytes and stops behind them |
| HuffmanCodec.WalkCode | src/compress.c:583-621 | walking from the root along a code ends at its symbol with the cursor behind it |
| HuffmanCodec.DecodeEncoded | src/compress.c:583-621 | the walk over the concatenated codes gives back the input |
| HuffmanCodec.RoundTrip | src/compress.c:482-673 | on a host of either byte order, for every non-empty input of int length, compressing comes back exactly when the bits and 7 more are an int; decompressing the output, whatever follows it, then returns the input and its length |
| HuffmanLayout.Layout | src/compress.c:369-426 | where the output holds the number of symbols, each byte with its count, the input length and each bit of the codewords |
| HuffmanLayout.Aab | src/compress.c:395-426 | the codes and the one body byte of "aab" |
| HuffmanLayout.WalkReads | src/compress.c:583-621 | a walk that comes back has read exactly the code of the symbol it gives |
| HuffmanLayout.ReadsOn | src/compress.c:560-581 | on any bytes, the last entry of a byte counts, and entries that are not all there are missed |
| HuffmanLayout.NoEntries | src/compress.c:623-673 | a count that is not positive gives -1 |
| HuffmanLayout.MissingEntries | src/compress.c:560-581 | missing entries are read past |
| HuffmanLayout.BehindEntries | src/compress.c:623-673 | what any bytes behind complete entries give: -1, a fault, the length handed back, or that many bytes |
| HuffmanCodec.InputSumsFit | src/compress.c:163-255 | for such an input no sum of frequencies overflows |
| HuffmanCodec.DecompressWritten | src/compress.c:369-426 | decompression recovers the input from what the two writers write, for every non-empty input of int length |
| HuffmanCodec.CompressedSize | src/compress.c:446-480 | what is written is 2 + 5 per symbol + 4 + the bits in whole bytes, an int if the bit count is |
| HuffmanBounds.BitsAreWeightedLength | src/compress.c:395-426 | the bits written are the code lengths weighted by the counts |
| HuffmanBounds.InputIsOptimal | src/compress.c:395-426 | no prefix-free code encodes the input in fewer bits |
| HuffmanBounds.NeverExpands | src/compress.c:395-426 | the body is never longer than eight bits a byte |
| HuffmanBounds.OutputBound | src/compress.c:446-558 | whenever compression comes back, the output is 12 to input + 1286 bytes long and that is an int |
| HuffmanBounds.SmallInputs | src/compress.c:446-558 | below 2^28 bytes the bit count is an int and compression comes back |
| HuffmanBounds.FullCodeLength | src/compress.c:132-255 | the 256 code lengths of a full table add up to at least 2048, for all frequencies |
| HuffmanBounds.CycleOverflows | src/compress.c:446-480 | 2^28 bytes with all values equally frequent need 2^31 bits or more, and compressing them fails |
| HuffmanBounds.SingleShape | src/compress.c:213-224 | with one distinct byte the tree is a one-child root and the code is "1" |
| HuffmanBounds.BuiltPrefixFree | src/compress.c:163-352 | prefix-freeness of the codes derived from any table |
| HuffmanBounds.BuiltLengths | src/compress.c:163-352 | the length bound for the codes derived from any table |
| HuffmanBounds.BuiltKraft | src/compress.c:163-352 | Kraft equality for the codes derived from any table |
| Compression.CalcCharFreq | src/compress.c:81-100 | counts every byte; the result is the number of distinct bytes, -1 and nothing written for no input |
| Compression.PutNumber | src/compress.c:373-387 | the bytes of a number are copied in the order of the host, nothing else touched |
| Compression.PutEntry | src/compress.c:369-393 | one table entry: a byte and an int, nothing else touched |
| Compression.CopyCharFreq | src/compress.c:369-393 | the table bytes are written and their length returned; a fault exactly when the buffer is shorter |
| Compression.PutBitAt | src/compress.c:395-426 | one bit set in the buffer at the cursor is one step of the specified writer; a fault exactly when its byte is behind the buffer |
| Compression.PutWord | src/compress.c:395-426 | the loop over one code string, or the fault of a bit that leaves the buffer |
| Compression.PutWords | src/compress.c:395-426 | the loop over the input writes exactly the concatenated codes, or leaves the buffer, and exactly when |
| Compression.HuffmanEncode | src/compress.c:395-426 | length and bit stream follow the table; a fault exactly when the buffer ends before them |
| Compression.GetCompressOutputLen | src/compress.c:446-480 | the result of the int arithmetic for any codes; it is the true size if and only if the bits and 7 more are an int |
| Compression.SizeMatches | src/compress.c:446-558 | the closed form of the size equals what the two writers produce |
| Compression.SizeDecides | src/compress.c:446-558 | the precomputed length is never too large, and right exactly when compression comes back |
| Compression.WriteBoth | src/compress.c:482-558 | on a buffer of any size the two writers write the whole output or leave the buffer |
| Compression.WriteOutput | src/compress.c:482-558 | both writers on a buffer of the precomputed length; a fault exactly when the specification has one, and the assertion behind them always holds |
| Compression.HuffmanCompress | src/compress.c:482-558 | the whole of huffman_compress is the specified output, -1 for no input, a fault exactly when the bit count is no int |
| Compression.GetCharFreq | src/compress.c:560-581 | reading the table back, on any bytes |
| Compression.WalkNodes | src/compress.c:583-621 | the walk over heap nodes is the walk over the tree they stand for |
| Compression.HuffmanDecode | src/compress.c:583-621 | the decoding loop, including running off the end |
| Compression.HuffmanDecompress | src/compress.c:623-673 | the whole of huffman_decompress on any bytes, including frequencies whose sum is no int |
| NetTrans.UnshiftShift | src/encrypt.c:38-62 | the two positional shifts undo each other, both ways |
| NetTrans.Encrypt | src/encrypt.c:38-50 | the loop rewrites each byte of the array by its position |
| NetTrans.Decrypt | src/encrypt.c:51-62 | the inverse loop |
| NetTrans.UnsealSeal | src/encode.c:30-120 | encoding a buffer works exactly while the bit count is an int, always below 2^28 bytes, and decoding then gives the content back |
| NetTrans.SealedBytes | src/encode.c:30-74 | every byte of an encoded buffer is that of the compressed content, shifted by its position |
| NetTrans.UnsealedBytes | src/encode.c:75-120 | the outcome of decoding any bytes |
| NetTrans.LeadingShort | src/compress.c:482-558 | the first short of a compressed buffer is never zero |
| NetTrans.BufferEncode | src/encode.c:30-74 | compress, then shift in place; nothing for an empty buffer, no result where compression fails |
| NetTrans.BufferDecode | src/encode.c:75-120 | shift back, then decompress |
| NetTrans.SfttWorks | src/encode.c:30-120 | sealing as sftt does it can be undone for all content it succeeds on |
| NetTrans.SearchHandler | src/net_trans.c:122-198 | the handler of a type, in the table up to its end mark |
| NetTrans.PreparePacket | src/net_trans.c:212-265 | header and content of a packet, nothing to send, or no result where compression fails |
| NetTrans.SendPacket | src/net_trans.c:212-265 | header then content go to the stream; -1 and nothing sent if there is nothing to send; no result where compression fails or a send takes less than it is given |
| NetTrans.SmallPacketsSend | src/net_trans.c:212-265 | packets with a handler and content of 1 to 2^28 - 1 bytes do not crash before they are sent |
| NetTrans.RecvPacket | src/net_trans.c:284-412 | one receive, on any bytes and for anything its two reads return: result and what is left of the stream |
| NetTrans.PacketsArrive | src/net_trans.c:212-412 | packets sent with whole calls to any stream come out in the same order with the same contents, each receive consuming its own bytes, if and only if every receive that finds anything reads a whole packet |
| NetTrans.SealedStart | src/compress.c:369-393 | sealed content does not begin with a number from 0 to 1535, in the order of the host that sealed it |
| NetTrans.LateContent | src/net_trans.c:328-412 | when the header has arrived and the content has not, the packet is lost, and the next receive gives none, all registered types being below 1536 |
| Framing.ReceiveSent | src/net_trans.c:362-412 | one packet is recovered and exactly its header and body are consumed by whole reads |
| Framing.ReceiveAllSent | src/net_trans.c:212-412 | any sequence of packets is received in order, under any sealing that can be undone, if and only if every receive that finds anything reads a whole packet |
| Framing.SendOutcome | src/net_trans.c:212-265 | each send: -1 and an untouched stream without content, no result on a failure, with exactly what was taken on the stream, otherwise 0 with header and content on it |
| Framing.SentStream | src/net_trans.c:212-265 | sending any sequence succeeds exactly with whole calls, and adds the packets behind what was there |
| Framing.SentArrive | src/net_trans.c:212-412 | what was so sent is received in order, under any sealing that can be undone, if and only if every receive that finds anything reads a whole packet |
| Framing.ReceiveOutcome | src/net_trans.c:284-412 | the result of every receive, on any bytes and for anything its reads return |
| Framing.ReceiveLeaves | src/net_trans.c:284-412 | what every receive leaves on the stream |
| Framing.ReceiveConsumes | src/net_trans.c:284-412 | on any bytes, a receive takes a front part of the stream, and what it returns is its length |
| Framing.ReadsDecide | src/net_trans.c:284-412 | a sent packet is received if and only if the header read delivers all eight bytes and the content read all of the content; -1 in every other case |
| Framing.RetryRecovers | src/net_trans.c:284-412 | after a receive that failed, another recovers the packet if and only if the first header read returned -1 and the second reads are whole |
| Framing.AfterShortHeader | src/net_trans.c:284-412 | what the next receive takes for type and length after a short header read, and how many of the bytes behind it are lost |
| Framing.AfterShortContent | src/net_trans.c:328-412 | after a short content read the next header is taken from the rest of the content and the packets behind it, and how many of the bytes behind it are lost |
| Framing.TornPacket | src/net_trans.c:70-118 | when a send falls short the receive that meets what was sent makes no packet of it |
| Framing.TornStream | src/net_trans.c:70-118 | nor does any run of receives that stops at the first one that fails |
| Framing.OtherOrder | src/net_trans.c:81-82 | a host of the other byte order receives something only if the swapped type is registered and the swapped length is positive and comes |
| Framing.NoneAcrossOrders | src/net_trans.c:316-317 | so no packet of a type from 1 to 2^16 - 1 is received there, all registered types being below 2^16 |
| Framing.NoneShortAcrossOrders | src/net_trans.c:284-412 | nor any packet while less than 2^16 bytes follow its header |
| Framing.FindsFirst | src/net_trans.c:137-155 | the handler found is the first of its type, if the end mark does not stand before it |
| Framing.FindsNone | src/net_trans.c:137-155 | none is found for a type that no entry before the end mark has |
| PoolSpec.BestFit | src/mem_pool.c:325-384 | the smallest free node that fits, the first of equals; none only if none fits |
| PoolSpec.MallocKeeps | src/mem_pool.c:325-384 | mp_malloc keeps the invariant: counts, sizes and purposes are those of the nodes |
| PoolSpec.FreeKeeps | src/mem_pool.c:437-482 | mp_free keeps it, for any address |
| PoolSpec.ReallocKeeps | src/mem_pool.c:394-430 | mp_realloc keeps it, for any address |
| PoolSpec.AddPurposeCount | src/mem_pool.c:284-297 | one more for that purpose, none other changed |
| PoolSpec.SubPurposeCount | src/mem_pool.c:299-320 | one less for that purpose, which disappears at zero |
| PoolSpec.MallocHandsOut | src/mem_pool.c:325-384 | the block handed out was not in use, now is, is large enough, and no other block changes |
| PoolSpec.MallocBestFit | src/mem_pool.c:325-384 | a node is created only when no free node fits, otherwise the smallest is reused |
| PoolSpec.FreeOnce | src/mem_pool.c:437-482 | freeing a block that is not live changes nothing; a double free is a single one |
| PoolSpec.FreeUndoesMalloc | src/mem_pool.c:325-482 | freeing what was just handed out leaves every other block, its contents included, the live blocks and the purpose counts as they were; the totals grow by the node made for it, if one was |
| PoolSpec.ReallocMoves | src/mem_pool.c:394-430 | reallocating a live block keeps the first min(n, old size) bytes and frees the old block |
| PoolSpec.ReallocUsable | src/mem_pool.c:394-430 | the block returned is in use if and only if the old one was live or is not itself the best fit |
| PoolSpec.ReallocOfFreed | src/mem_pool.c:394-430 | a pool where the returned block is not in use |
| PoolSpec.StepKeeps | src/mem_pool.c:325-482 | every operation keeps the invariant |
| PoolSpec.After | src/mem_pool.c:325-482 | the invariant holds after every run |
| PoolSpec.GrowthFrom | src/mem_pool.c:325-384 | with equal-sized requests the pool grows only to the peak of live blocks |
| PoolSpec.GrowthIsPeak | src/mem_pool.c:325-384 | from an empty pool, the number of nodes is that peak |
| PoolEffects.MallocExactly | src/mem_pool.c:325-384 | everything about the block handed out, and the statistics; nothing for no bytes |
| PoolEffects.NewestFirst | src/mem_pool.c:361-370 | a new node stands before all others, a reused one stays |
| PoolEffects.LatestOfEquals | src/mem_pool.c:338-347 | so of equally small blocks that fit the latest made is reused |
| PoolEffects.FreeExactly | src/mem_pool.c:437-482 | a freed block is no longer in use and otherwise unchanged; statistics and purpose counts follow |
| PoolEffects.ReallocRefuses | src/mem_pool.c:394-430 | an unknown block, or no bytes, changes nothing |
| PoolEffects.ReallocStatistics | src/mem_pool.c:394-430 | one block more for mp_realloc, one less for the purpose of the old block |
| PoolEffects.NewPurposeFirst | src/mem_pool.c:284-297 | a new purpose is listed first |
| MemPool.MemoryPool.constructor | src/mem_pool.c:176-207 | a new pool is empty |
| MemPool.MemoryPool.CountUp | src/mem_pool.c:284-297 | add_purpose in place |
| MemPool.MemoryPool.CountDown | src/mem_pool.c:299-320 | sub_purpose in place |
| MemPool.MemoryPool.ScanBestFit | src/mem_pool.c:325-360 | the loop over the node list finds the best fit |
| MemPool.MemoryPool.MpMalloc | src/mem_pool.c:325-384 | node list, flags and statistics as specified |
| MemPool.MemoryPool.MpFree | src/mem_pool.c:437-482 | node list, flags and statistics as specified |
| MemPool.MemoryPool.MpRealloc | src/mem_pool.c:394-430 | allocate, copy, free, as specified |
| Md5.PadLength | src/md5.c:65-75 | at least one byte of padding and as few as reach 56 modulo 64 (section 3.1 of RFC 1321) |
| Md5.PadLengthByIndex | src/md5.c:65-75 | MD5Final's way of choosing it is the same |
| Md5.Le64 | src/md5.c:65-75 | the length in bits modulo 2^64, lowest byte first (section 3.2 of RFC 1321) |
| Md5.PadIsInjective | src/md5.c:65-75 | messages with equal padding are equal, whatever their lengths |
| Md5.PadBytes | src/md5.c:65-75 | behind the message 0x80, then zeros, then the eight length bytes (sections 3.1 and 3.2 of RFC 1321) |
| Md5.MessageEnd | src/md5.c:65-75 | the message ends before the last byte that is not zero, of those before the length |
| Md5.EmptyBlock | src/md5.c:27-30 | the one block of the empty message, byte by byte |
| Md5.InitBytes | src/md5.c:32-40 | the bytes of the initial words as section 3.3 of RFC 1321 lists them |
| Md5.FoldCompletes | src/md5.c:41-64 | completing the open block adds one transform to the fold |
| Md5.CountAdvances | src/md5.c:41-50 | the two count words with their carry add the length modulo 2^64, for any 32-bit length |
| Md5.CountEncodes | src/md5.c:65-88 | the two words, encoded, are the 64-bit length |
| Md5.MD5Encode | src/md5.c:76-88 | the loop writes every word lowest byte first and nothing behind them |
| Md5.MD5Decode | src/md5.c:89-101 | the words read are the ones MD5Encode would write there |
| Md5.WrapPoint | src/md5.c:55-56 | the 32-bit comparison of the block loop wraps exactly from a stated length on |
| Md5.Context.constructor | src/md5.c:32-40 | a new context stands for the empty message |
| Md5.Context.Count | src/md5.c:41-50 | the count after an update |
| Md5.Context.Blocks | src/md5.c:55-57 | the block loop folds every whole block, or reads past the input |
| Md5.Context.Through | src/md5.c:51-64 | an update that completes the open block |
| Md5.Context.Update | src/md5.c:41-64 | the context then stands for the message extended by the input; the over-read happens exactly from the stated length on |
| Md5.OverRead | src/md5.c:55-56 | on a fresh context 2^32 - 65 bytes are read safely and 2^32 - 64 are not |
| Md5.Context.Final | src/md5.c:65-75 | the digest is the one-shot digest of everything taken in |
| Md5.DigestChunks | src/md5.c:32-75 | however the message is cut into updates, the digest is the same, or some chunk is read past, and exactly when |
| Md5.Md5Str | src/md5.c:238-264 | the digest of a string is that of its bytes |
| Md5.Md5File | src/md5.c:186-236 | the digest of a file is that of its bytes, so the two agree |
| ThreadPool.CreatedIsOk | src/thread_pool.c:148-222 | the invariant holds of a new pool, whatever f, arg and ret start as |
| ThreadPool.LaunchKeeps | src/thread_pool.c:244-267 | each step of a launch keeps the worker's part of the invariant |
| ThreadPool.WorkerStepKeeps | src/thread_pool.c:103-146 | each step of the worker loop keeps it |
| ThreadPool.StepKeeps | src/thread_pool.c:61-302 | every step of every thread keeps the invariant |
| ThreadPool.LaunchedRunOnce | src/thread_pool.c:61-302 | in every interleaving each successful launch is run once, in order, with its own f and arg, never with NULL; all of them once the worker waits |
| ThreadPool.NeverCallsNull | src/thread_pool.c:127-135 | the function called is the one launched last and never NULL |
| ThreadPool.BusyExactly | src/thread_pool.c:244-267 | -EBUSY exactly while the worker is out on an earlier job; never for a thread get_one_idle_thread picked |
| ThreadPool.WaitReturnsResult | src/thread_pool.c:86-95 | wait_worker_thread returns the result of the last job launched on that worker |
| ThreadCalls.RunAnswers | src/thread_pool.c:244-302 | in every run the events answer the calls one by one, each for the thread and the job its call named |
| ThreadCalls.AnyPicks | src/thread_pool.c:270-302 | in every run, a launch on any thread: who waited still waits unless launched on, no idle thread is reported only if none waited, and no smaller thread than the one picked did |
| ThreadCalls.AnyAnswered | src/thread_pool.c:270-302 | such a call can be answered: by the first thread that waits, or by none |
| ThreadCalls.OnAnswered | src/thread_pool.c:244-267 | a launch on a named thread can be answered: with the launch if it waits, with -EBUSY if not |
| ThreadCalls.WaitAnswered | src/thread_pool.c:86-95 | a wait for a thread that waits comes back with its last result |
| ThreadCalls.NothingLeft | src/thread_pool.c:127-146 | between launches f, arg and the pipes of a waiting thread are clear, and ret is the last result |
| ThreadPool.JobCompletes | src/thread_pool.c:103-146 | a woken worker with a function is never blocked and is done after ten steps of its own |
| ThreadPool.NullHangs | src/thread_pool.c:103-146 | from a launch with a NULL function on, in every run, the worker calls nothing again and, once it waits for a function, stays there in RUNNING |
| ThreadPool.LaunchDecides | src/thread_pool.c:103-267 | when a launch has woken its worker, some continuation runs the job if and only if its function is not NULL |
| ThreadPool.NullLaunch | src/thread_pool.c:127-267 | a run from a new pool in which launching NULL succeeds; after it the worker waits for ever |
| RwLock.GoKeeps | include/rwlock.h:60-171 | every load and compare-and-swap keeps cnt the number of readers, or -1 for one writer |
| RwLock.ReleaseExactly | include/rwlock.h:115-181 | a release of either kind by any thread keeps it if and only if that thread holds what it releases, or zeroes a free lock |
| RwLock.StepKeeps | include/rwlock.h:60-181 | every step of a thread that releases only what it holds keeps it |
| RwLock.Safety | include/rwlock.h:60-181 | in every interleaving cnt is right and a writer is alone |
| RwLock.ReadAcquires | include/rwlock.h:60-76 | a reader gets the lock in two undisturbed steps if nobody writes, and otherwise tries again or refuses |
| RwLock.WriteAcquires | include/rwlock.h:134-175 | a writer gets it if nobody holds it |
| RwLock.NeverGivesUp | include/rwlock.h:60-171 | a lock that is no trylock goes on until it is had |
| RwLock.ReadAndUnlock | include/rwlock.h:60-119 | taking a read lock and giving it back changes nothing |
| RwLock.WriteAndUnlock | include/rwlock.h:134-181 | nor does taking a free write lock and giving it back |
| RwLock.TryAnswers | include/rwlock.h:91-144 | exactly when each trylock refuses |
| RwLock.WriteTrylockOnAFreeLock | include/rwlock.h:134-144 | a free lock can be refused |
| RwLock.StrayUnlock | include/rwlock.h:115-119 | an unlock by a thread that holds nothing lets a writer in beside a reader |
| RwLock.UnlockAfterRefusal | src/server.c:1560-1569 | unlocking after a refused trylock does that |
| DList.Node.constructor | src/dlist.c:31-45 | a node with no neighbours |
| DList.DList.constructor | src/dlist.c:58-73 | an empty list |
| DList.DList.InsNext | src/dlist.c:106-134 | the new node stands behind the given one; links, ends and size agree |
| DList.DList.InsPrev | src/dlist.c:136-164 | the new node stands before the given one |
| DList.DList.Prepend | src/dlist.c:166-186 | the new node stands first, also in an empty list |
| DList.DList.Append | src/dlist.c:188-208 | the new node stands last, also in an empty list |
| DList.DList.Remove | src/dlist.c:210-247 | that node leaves, the others stay in order; kept nodes are unlinked |
| DList.DList.PopFront | src/dlist.c:249-263 | the first node leaves with its data |
| DList.DList.PopBack | src/dlist.c:265-279 | the last node leaves with its data |
| DList.DList.Forward | include/dlist.h:82-83 | following next from the head visits the nodes in order |
| DList.DList.Backward | src/dlist.c:342-347 | following prev from the tail visits them in reverse |
| DList.DList.GetMin | src/dlist.c:452-472 | the first of the smallest |
| DList.DList.GetMax | src/dlist.c:430-450 | the first of the largest |
| DList.DList.Sort | src/dlist.c:397-428 | the same nodes, relinked in the order of repeated selection |
| DList.SortStably | src/dlist.c:397-428 | for every comparison the nodes are rearranged, read in order, and equal data keep their order |
| DList.Merge | src/dlist.c:474-495 | b's nodes behind a's; b is a valid list no more; an empty or missing list gives the other; a list with itself becomes a ring of twice its size |
| StableSort.ScanIsFirstBest | src/dlist.c:430-472 | the candidate beats all before it and is beaten by none |
| StableSort.SortPermutes | src/dlist.c:397-428 | the result is a permutation of the entries |
| StableSort.SortKeepsTags | src/dlist.c:397-428 | so are the nodes behind the entries |
| StableSort.SortIsOrdered | src/dlist.c:397-428 | it is ascending, or descending, for every comparison |
| StableSort.SortIsStable | src/dlist.c:397-428 | entries with equal data keep their order, in both directions |
| StableSort.StableSortIsUnique | src/dlist.c:397-428 | any ordered list with the same classes is this one |
| StrToX.DigitRun | src/strtox.c:157-192 | the longest prefix of digits of the base |
| StrToX.LowerDigit | src/strtox.c:163-173 | the c \| 0x20 classification finds the value of every digit and of nothing else |
| StrToX.DivisionTest | src/strtox.c:181-184 | the division test is exact on the 64-bit result |
| StrToX.TestIsExact | src/strtox.c:177-184 | so is its guarded form where one more digit below 2^60 cannot pass 2^64, as up to base 16 |
| StrToX.ParseInteger | src/strtox.c:157-192 | in any base and on any string, the positional value modulo 2^64 and the word of count and flag |
| StrToX.WordAtLimit | src/strtox.c:157-192 | 2^31 digits without overflow give the word of a flagged empty run |
| StrToX.FlagIsExact | src/strtox.c:157-192 | up to base 16 the flag is set if and only if the value is at least 2^64 |
| StrToX.ExactUnlessBlind | src/strtox.c:177-184 | in any base, the flag is exact for every string if and only if the largest writable number below 2^60 leaves room for one more digit |
| StrToX.LargestBounds | src/strtox.c:157-192 | no digit string up to m stands for more than the number computed |
| StrToX.LargestWritten | src/strtox.c:157-192 | and a digit string stands for it |
| StrToX.BlindIsSpot | src/strtox.c:177-184 | so the condition is that of all digit strings |
| StrToX.UnflaggedOverflow | src/strtox.c:177-184 | in base 17 an overflow goes unnoticed |
| StrToX.Base30Sees | src/strtox.c:177-184 | in base 2^30 none goes unnoticed |
| StrToX.FixupRadix | src/strtox.c:116-130 | base detection and the skipped prefix |
| StrToX.ReadNumber | src/strtox.c:96-114 | digits and at most one newline, a range error before a format error; never a success on 2^31 digits or more |
| StrToX.Kstrtoull | src/strtox.c:89-114 | sign, radix and number together, on every string |
| StrToX.Kstrtouint | src/strtox.c:59-71 | the same with the range of 32 bits, on every string |
| StrToX.RoundTrip | src/strtox.c:89-114 | any number written in any base, with or without sign and newline, reads back as itself or as out of range |
| StrToX.DetectedRoundTrip | src/strtox.c:116-130 | so do plain decimal, 0x hexadecimal and 0 octal with base 0 |
| StrToX.NumberOutcome | src/strtox.c:96-114 | digits and anything behind them: range, value or no number, and exactly when |
| StrToX.Accepted | src/strtox.c:89-130 | every accepted string is a sign or none, a prefix or none, digits, and a newline or none |
| StrToX.RadixForms | src/strtox.c:116-130 | the base and the prefix for every beginning |
| Tokenizer.ParseArgs | src/client.c:277-393 | the loop with its states and buffer is the specified scan, for any line |
| Tokenizer.ScanPiece | src/client.c:295-366 | a bare or quoted piece joins the argument without its quotes |
| Tokenizer.ScanGap | src/client.c:295-306 | white space closes an argument if there is one |
| Tokenizer.RoundTrip | src/client.c:277-393 | any line of words written bare, quoted or in pieces of both, none of 1024 characters, is read back as it was meant |
| Tokenizer.LengthLimit | src/client.c:277-393 | the outcome for every line of words and gaps whose quotes are closed: the arguments, a write past the buffer, or a refusal, and exactly when |
| Tokenizer.UnclosedQuote | src/client.c:277-393 | the outcome for every line that ends inside a quote: the pending argument is dropped, or the line is refused, and exactly when |
| Tokenizer.DroppedExactly | src/client.c:368-371 | among accepted lines, an argument is lost if and only if a quote is open at the end and the pieces up to there mean anything |
| Tokenizer.MixedQuotes | src/client.c:310-366 | one kind of quote inside the other refuses the line, wherever it stands |
| Tokenizer.EveryLine | src/client.c:277-393 | every line is covered: words and gaps, closed, open or with mixed quotes |
| RawCodec.ConvertTwice | xdr/gen_serialize_raw.c:434-601 | encoding twice on one host leaves every byte as it was |
| RawCodec.SwapReads | xdr/gen_serialize_raw.c:434-922 | swapped bytes read highest first are the number read lowest first |
| RawCodec.ConvertReads | xdr/gen_serialize_raw.c:434-922 | encoding puts every field in network order, decoding takes it out |
| RawCodec.FieldsTravel | xdr/gen_serialize_raw.c:434-922 | between hosts of any byte order every field is restored |
| RawCodec.PlanKindSound | xdr/gen_serialize_raw.c:165-234 | every number in every description is 1, 2 or 4 bytes wide |
| RawCodec.KindPlanned | xdr/gen_serialize_raw.c:165-234 | size and numbers of a plan are those of the description: 1, 2 and 4 bytes, every array entry, every nested struct, padding counted |
| RawCodec.ConvertCrosses | xdr/gen_serialize_raw.c:434-922 | conversion takes every number of the description from host to network order and back, at its own address, and changes no other byte |
| RawCodec.FieldsAreScalars | xdr/gen_serialize_raw.c:165-234 | the fields are the numbers of the description, one by one |
| RawCodec.ManyWidth | xdr/gen_serialize_raw.c:470-485 | entry n of an array starts n strides behind its beginning |
| RawCodec.ManyStep | xdr/gen_serialize_raw.c:470-485 | one more turn of a loop over a dimension: the entry at its address, in a stretch that grows by one stride |
| RawCodec.SwapAt | xdr/gen_serialize_raw.c:569-575 | the bytes of one short or int are reversed on a little-endian host, and no other byte changes |
| RawCodec.RunKind | xdr/gen_serialize_raw.c:569-584 | the statement for one value at an address, or the call for a nested struct |
| RawCodec.RunDims | xdr/gen_serialize_raw.c:469-584 | the loop nest over any number of dimensions converts every entry once |
| RawCodec.RunMany | xdr/gen_serialize_raw.c:470-485 | one loop converts every entry of its array, each at base + index * stride |
| RawCodec.RunElem | xdr/gen_serialize_raw.c:462-590 | the statement for one element works behind the padding before it |
| RawCodec.RunElems | xdr/gen_serialize_raw.c:462-590 | the statements for a struct convert exactly its numbers and leave the padding |
| RawCodec.Encode | xdr/gen_serialize_raw.c:434-601 | in place first, every number of the description put in network order and nothing else changed; then the copy |
| RawCodec.Decode | xdr/gen_serialize_raw.c:603-767 | copy first, then in place, every number of the description taken out of network order; a longer buffer runs past the struct, behind a shorter one the block is zero |
| RawCodec.Transfer | xdr/gen_serialize_raw.c:434-767 | encode and decode together: every field arrives, the sender's copy stays encoded |
| RawPackets.SerializeRaw | xdr/gen_serialize_raw.c:434-601 | the generated encoder does what the handler of its struct says |
| RawPackets.DeserializeRaw | xdr/gen_serialize_raw.c:603-767 | so does the generated decoder, on buffers of any length |
| RawPackets.RawFaithful | src/serialize_handler.c:58-92 | every handler of a table of raw encoders and decoders reads back what it writes |
| RawPackets.TranslatedTravels | xdr/gen_serialize_raw.c:434-767 | the encoders put the same bytes on the wire for the same fields on hosts of either byte order |
| RawPackets.StructsArrive | src/net_trans.c:212-412 | between hosts of one byte order, structs sent with whole calls arrive in order and unchanged if and only if every receive that finds anything reads a whole packet |
| RawPackets.NoStructsAcrossOrders | src/net_trans.c:284-412 | between hosts of different byte order no struct is received under a type from 1 to 2^16 - 1 |
| RawPackets.NoShortStructsAcrossOrders | src/net_trans.c:284-412 | nor under any type before 2^16 bytes have been sent behind its header |

## Left out

- NetTrans.SendPacket: the leak of the sent packet and the printing of failures.
- NetTrans.RecvPacket: error numbers; lengths that are not positive and buffers that cannot be allocated are simply refused.
- NetTrans.BufferEncode: the crypt-without-zip branch, which no caller uses, and the trivial header mode (false, false) are not modelled.
- Framing.OtherOrder: what a host of the other byte order makes of a packet whose swapped type is registered and whose swapped length comes is not followed further.
- RawPackets.RawFaithful: the sender's copy of the object is left encoded, which packets do not show; the XDR serializers are parameters.
- Stacks.Map.Add: `map_remove`, which the search does not use, and allocation failure.
- PoolSpec.MallocKeeps: the mutex, allocation failure and a NULL purpose; statistics are unbounded integers.
- PoolSpec.ReallocMoves: `mp_realloc` drops the lock between its steps; the model has no other thread there.
- Md5.Context.Update: the rounds of MD5Transform are a parameter, so nothing is said about the values of digests.
- Md5.Md5File: `fopen` and allocation failures, and the printing of the digest in hexadecimal.
- RwLock.Safety: fewer than 2^31 threads, sequentially consistent steps, no fairness.
- ThreadPool.StepKeeps: one launching thread, sequentially consistent steps; cancelling threads and pipe errors.
- DList.Merge: two distinct lists share no node.
- DList.DList.Remove: `mp_free` of the node is not modelled; the node just leaves the list.
- Tokenizer.ParseArgs: the argument list is a sequence; `isspace` is that of the C locale.
- RawCodec.RunElems: descriptions may have any number of dimensions where the generator allows five; alignment is given with the description, not computed.
- `src/file_send.c`, `src/file_recv.c`: file transfer depends on the state of the disk, and the two sides do not agree on block counts.
- `src/server.c`, `src/client.c` apart from `parse_args`: sessions, port updates, commands and the user interface.
- `src/serialize.c`, `src/req_resp.c`: thin calls into an XDR library that is not part of this model.
- The text of the generated C files and the reader of struct descriptions: only the meaning of the emitted statements is modelled.
- Configuration, logging, database, message queues, shared memory, progress display and option parsing: input and output, or easy facts.
