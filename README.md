# Symatem VirtualMachine: storage and indexing core in Dafny

This project models, and proves properties of, the storage and indexing
engine of the Symatem VirtualMachine, an associative store of
(entity, attribute, value) triples. It is written in Dafny 4.11, and every
file belongs to one verified whole. The model follows the layers of the C++
source.

- **Bits** (`Bits.dfy`, Storage/Basics.hpp). Bit-granular segment reads,
  masked writes, comparison and copying over arrays of 64-bit words.
  - A word is its 64 bits, least significant first.
  - `Flat` is the bit view of a word buffer.
  - `Copied` states what a copy means. The word-level `BitwiseCopy`
    methods, forward and backward, meet it, with memmove behaviour when
    source and destination alias.
- **Blob** (`Blob.dfy`, Storage/Blob.hpp). The blob store: identifiers
  naming bit strings, and the counter that hands identifiers out. It
  supports resize, compare, partial overwrite, clone, and bit-exact insert
  and erase.
- **Pages** (`Pages.dfy`, VM/Page.hpp). The page store behind a high-water
  mark, and the LIFO pool of free pages threaded through pool pages that
  each hold a count, a chain and referenced pages.
- **Containers** (`Containers.dfy`, Ontology/Containers.hpp).
  - `BlobVector`: fixed-width elements in one blob.
  - `BlobSet`: kept sorted by key, searched by binary search.
  - `BlobIndex`: symbols ordered by blob content, interning equal contents.
- **DataStructures** (`DataStructures.dfy`,
  DataStructures/DataStructures.hpp). The generic helpers written against a
  container interface, and `BitVectorContainer`.
- **Triples** (`Triple.dfy`, Ontology/Triple.hpp). Triples and their six
  orientations (`reordered`/`normalized`). The index as a table from alpha
  to six sub-indices, each mapping beta to its set of gammas. The eight
  search routines, and the query dispatcher with its 27-entry shape table
  and its fallbacks for TriIndex and MonoIndex.
- **Ontology** (`Ontology.dfy`, Ontology/Triple.hpp). The class `Index`
  holds the global `symbols` table, the index mode and the set of symbols
  whose storage has been freed. It provides:
  - link and unlink of a triple;
  - unlink of a symbol;
  - tryToReleaseSymbol, setSolitary, getUncertain and scrutinizeExistence.
- **Contexts** (`Context.dfy`, Ontology/Context.hpp). The newer `Context`:
  `topIndex`, `blobIndex` and `nextSymbol`.
  - Its operations report exceptions as an `Outcome`, with the source's
    messages.
  - Operations: query; link; unlink of a set of triples, a pair and a
    triple; destroy; setSolitary; getUncertain and getGuaranteed; create
    and SymbolFactory; unindexBlob; scrutinizeExistence.
- **Huffman** / **HuffmanEncoder** (`Huffman.dfy`, `HuffmanEncoder.dfy`,
  External/Huffman.hpp). The static Huffman codec.
  - The encoder counts symbols, builds the code tree by merging the two
    lightest nodes, assigns root-to-leaf codes and writes the tree
    post-order.
  - The decoder rebuilds the tree with an explicit stack and walks it bit
    by bit.
  - The round trip is proved for any tree the merges can build.
- **Serialize** (`Serialize.dfy`, Interpreter/Serialize.hpp). The growable
  output buffer and the human readable forms of a blob: decimal integers,
  text (quoted when it holds white space), `raw:` hexadecimal nibbles, and
  `#id` for an empty blob. Each form is proved to read back.

Collaborators the source calls but does not define are parameters or
abstract values here:
- The BVL natural coder is a stream of naturals, `tokens`.
- `Storage::releaseSymbol` of a symbol is an entry in the `released` set.
- The `Thread` the serialiser asks for a blob's type and its numeric value
  gives them as arguments.
- The B+ tree of blobs is a map.
- The search predicate of `binarySearch` is a function from positions to
  booleans.

The C++ asserts that do work (the reverse-index link and unlink, and the
container mutations inside `assert`) are modelled as executed, as in a
debug build. In the Huffman codec, inputs that would fail one of the
source's assertions give an error value instead.

## Model

| member | source | states |
|---|---|---|
| Bits.ReadSegmentFrom | Storage/Basics.hpp:5-19 | returns the `length` bits at the segment start (moved back by `length` first for dir = +1) in the low bits of the word with zeros above them, and the offset advanced by `length` for dir = -1, moved back for dir = +1, untouched for dir = 0 |
| Bits.WriteSegment | Storage/Basics.hpp:21-24 | every bit set in `keepMask` keeps the old word's value, every other bit takes the source's |
| Bits.Copied | Storage/Basics.hpp:57-60 | the meaning of a copy: the `length` bits of the source from `srcOffset` replace those of the destination from `dstOffset`, every other bit and the length are unchanged |
| Bits.MaskedStep | Storage/Basics.hpp:75-77 | one masked write: bits [a, b) of the word become the next source bits, the rest keep their value, and the read offset advances as readSegmentFrom moves it |
| Bits.FullStep | Storage/Basics.hpp:84-85 | one full-word write: the whole word becomes the next 64 source bits and the copied range grows by one word |
| Bits.CopyWithinWord | Storage/Basics.hpp:72-79 | a destination range inside one word is written through the mask fillLSBs(lowSkip) \| fillMSBs(highSkip), which makes the buffer the Copied one |
| Bits.CopyForward | Storage/Basics.hpp:80-88 | the dir = -1 run over several words (low masked word, full words upwards, high masked word) makes the buffer the Copied one, also within one buffer when the destination lies below the source |
| Bits.CopyBackward | Storage/Basics.hpp:89-99 | the dir = +1 run (high masked word, full words downwards, low masked word) makes the buffer the Copied one, also within one buffer when the destination lies above the source |
| Bits.BitwiseCopy | Storage/Basics.hpp:57-100 | bitwiseCopy<dir> with length > 0 leaves the destination buffer equal to Copied of the old destination and old source |
| Bits.BitwiseCopyAny | Storage/Basics.hpp:102-116 | the aliasing-aware dispatch has memmove meaning: the result is Copied of the old contents whatever the overlap, equal offsets in one buffer included |
| Bits.CopiedSame | Storage/Basics.hpp:106-108 | copying a range of a buffer onto itself, the early return, changes nothing |
| Bits.BitwiseCopySwap | Storage/Basics.hpp:118-133 | swap = false copies from b into a, swap = true from a into b; only that buffer changes, to the Copied one |
| Bits.Signed | Storage/Basics.hpp:33 | the difference of two words read as a NativeIntegerType lies in the 64-bit two's complement range |
| Bits.SignedWraps | Storage/Basics.hpp:33 | that reading keeps the difference modulo 2^64, and it is zero exactly for multiples of 2^64 |
| Bits.SignedZero | Storage/Basics.hpp:33-35 | a wrapped difference of two values below 2^64 is zero exactly when they are equal |
| Bits.SegmentDiffZero | Storage/Basics.hpp:32-35 | two segments of at most 64 bits give a difference of zero exactly when their bits are equal |
| Bits.CompareBelowZero | Storage/Basics.hpp:26-39 | the segment-by-segment comparison from the high ends is 0 exactly when the two ranges hold the same bits |
| Bits.ReadBelow | Storage/Basics.hpp:33 | readSegmentFrom<+1> at the end of a range yields the value of the `segment` bits just below it and moves the end down by `segment` |
| Bits.BitwiseCompare | Storage/Basics.hpp:26-39 | the loop returns the first non-zero segment difference, taken from the high ends, or 0 (the CompareBelow result) |
| Bits.BytesBits | Storage/Basics.hpp:52-53 | a C string in memory has eight bits per character |
| Bits.BytesBitsInjective | Storage/Basics.hpp:52-54 | two strings of one length with the same memory bits are the same string |
| Bits.Pack | Storage/Basics.hpp:52-53 | a string's bits laid out in words hold all its bits in fewer than 64 extra |
| Bits.SubstrBits | Storage/Basics.hpp:47-54 | the memory bits of b equal those of the last \|b\| characters of a exactly when b is that end of a |
| Bits.SubstrCompare | Storage/Basics.hpp:47-54 | bitwiseCompare of those two ranges is 0 exactly when b is the end of a |
| Bits.SubstrEqual | Storage/Basics.hpp:41-55 | substrEqual<atEnd> holds exactly when b is a suffix of a (atEnd), or otherwise when b equals a |
| Blob.EraseInserted | Storage/Blob.hpp:114-140 | erasing the range insertIntoBlob just filled gives back the blob |
| Blob.EraseCopies | Storage/Blob.hpp:119-122 | eraseFromBlob's copy of the bits from `end` down to `begin` leaves the erased contents in the first size − (end − begin) bits |
| Blob.InsertCopies | Storage/Blob.hpp:130-137 | insertIntoBlob's copy of the tail up by `length`, then of the source into the gap, yields the contents with the source inserted at `begin` |
| Blob.ToBytes | Storage/Blob.hpp:81 | a blob of `size` bits is compared as (size + 7) / 8 bytes |
| Blob.ToBytesInjective | Storage/Blob.hpp:81 | blobs of one size with the same bytes hold the same bits |
| Blob.MemCompare | Storage/Blob.hpp:81 | memcmp's sign lies in {-1, 0, 1} and is 0 exactly for equal byte strings |
| Blob.MemCompareAntisymmetric | Storage/Blob.hpp:81 | swapping the operands of memcmp negates its sign |
| Blob.CompareContentsZero | Storage/Blob.hpp:70-82 | compareBlobs' order (size first, then bytes) is 0 exactly for equal contents |
| Blob.CompareContentsAntisymmetric | Storage/Blob.hpp:70-82 | swapping two blobs negates compareBlobs' result |
| Blob.BlobStore.constructor | Storage/Blob.hpp:10-11 | the store starts with no blobs and maxIdentifier = 0 |
| Blob.BlobStore.BlobSize | Storage/Blob.hpp:59-62 | getBlobSize is the length of the blob's data, which is 0 exactly when it has no storage |
| Blob.BlobStore.CreateIdentifier | Storage/Blob.hpp:13-16 | returns the incremented counter, a fresh identifier with no storage, and changes no blob |
| Blob.BlobStore.SetBlobSize | Storage/Blob.hpp:23-53 | size 0 frees the blob; otherwise it gets exactly `size` bits whose first min(old size, size, preserve) bits are kept; no other blob changes and every stored blob stays non-empty |
| Blob.BlobStore.SetBlobSizePreservingData | Storage/Blob.hpp:55-57 | resizes to `size` keeping the first min(old size, size) bits |
| Blob.BlobStore.CompareBlobs | Storage/Blob.hpp:70-82 | the result is CompareContents of the two blobs, also for a == b and for empty blobs |
| Blob.BlobStore.OverwriteBlobPartial | Storage/Blob.hpp:84-96 | succeeds exactly when length > 0 and both ranges lie inside their blobs, then the destination is the Copied one; on failure nothing changes |
| Blob.BlobStore.CloneBlob | Storage/Blob.hpp:98-105 | the destination's contents become the old contents of the source; no other blob changes |
| Blob.BlobStore.OverwriteBlob | Storage/Blob.hpp:107-112 | the destination becomes exactly the bytes of the value |
| Blob.BlobStore.EraseFromBlob | Storage/Blob.hpp:114-125 | succeeds exactly when begin < end <= size, then the bits [begin, end) are gone; on failure nothing changes |
| Blob.BlobStore.InsertIntoBlob | Storage/Blob.hpp:127-140 | succeeds exactly when begin <= size, then the `length` source bits stand at `begin`; on failure nothing changes |
| Blob.BlobStore.ReleaseIdentifier | Storage/Blob.hpp:142-145 | the blob is freed and no other blob changes |
| Pages.BytesForPagesBound | VM/Page.hpp:26-28 | bytesForPages is a whole number of mmap buckets in bytes and at least the pages' own bytes |
| Pages.BucketPages | VM/Page.hpp:26-28 | a file truncated to bytesForPages(pageCount) holds exactly the pages below pageCount rounded up to a whole bucket of 512 pages |
| Pages.PageInit | VM/Page.hpp:107-110 | Page::init leaves an empty, well-formed page linked to the given chain |
| Pages.PagePush | VM/Page.hpp:129-132 | Page::push on a page with room appends the reference to the stored ones and keeps the chain |
| Pages.PagePop | VM/Page.hpp:134-137 | Page::pop on a non-empty page returns the last stored reference and leaves the rest, chain kept |
| Pages.PagePushPop | VM/Page.hpp:129-137 | pop after push returns the pushed reference and restores the stored references and the chain |
| Pages.PageContains | VM/Page.hpp:112-117 | Page::contains is true exactly when the item is among the stored references |
| Pages.ReversedMember | VM/Page.hpp:134-137 | a page hands out its references last-in first-out, and the reversed order has the same members |
| Pages.ChainInElements | VM/Page.hpp:189-192 | every pool page is itself a free reference: pop hands out the emptied root page |
| Pages.WriteOutside | VM/Page.hpp:169-195 | writing a page that is not a pool page leaves the pool's contents as they are |
| Pages.RootOnce | VM/Page.hpp:177-183 | in a pool without repeated references the root page does not occur further down the chain |
| Pages.PoolCons | VM/Page.hpp:169-184 | a pool with one new reference on top is again a pool without repeats |
| Pages.PoolUncons | VM/Page.hpp:186-195 | a pool with its top taken off is a pool that no longer holds the top |
| Pages.NotFreeNotChain | VM/Page.hpp:169-184 | a reference that is not free is not one of the pool pages |
| Pages.PushNewRoot | VM/Page.hpp:170-181 | push on an empty pool or a full root page: the pushed page becomes the new root, initialised with the old root as chain, and the contents gain it on top |
| Pages.PushIntoRoot | VM/Page.hpp:182-183 | push into a root page with room: the contents gain the reference on top |
| Pages.PopRoot | VM/Page.hpp:189-192 | pop on an empty root page hands out the root itself and the chain becomes the root |
| Pages.PopFromRoot | VM/Page.hpp:193-194 | pop on a root page holding references hands out its last one, which is then no longer free |
| Pages.PoolEmpty | VM/Page.hpp:144-146 | a pool is empty exactly when its root reference is 0 |
| Pages.Unmapped | VM/Page.hpp:214-216 | unmapping pages beyond every free reference leaves the pool as it is |
| Pages.PagePool.Init | VM/Page.hpp:140-142 | init makes the pool empty |
| Pages.PagePool.IsEmpty | VM/Page.hpp:144-146 | isEmpty is true exactly when the pool holds no reference |
| Pages.PagePool.Contains | VM/Page.hpp:148-157 | contains walks the pool pages and is true exactly when the item is a free reference, pool pages included |
| Pages.PagePool.Push | VM/Page.hpp:169-184 | push puts a reference that was not free on top of the pool; the storage size does not change, and only one page is written: the pushed page or the old root page of the pool |
| Pages.PagePool.Pop | VM/Page.hpp:186-195 | pop on a non-empty pool returns the top reference, which is then no longer free, and leaves the rest; every page but the old root page of the pool reads as before |
| Pages.Storage.constructor | VM/Page.hpp:30-44 | the page count is the number of whole pages in the file, at least the root page; the file's pages and the free pool held in its root page are kept as they were, so a new file has no free page |
| Pages.Storage.MapPages | VM/Page.hpp:59-77 | the mapping becomes pageCount pages and the file bytesForPages(pageCount) bytes: pages below pageCount keep their memory, pages cut off keep it while they lie inside the file and lose it beyond; the page limit is a precondition |
| Pages.Storage.DereferencePage | VM/Page.hpp:79-83 | only references below maxReference can be dereferenced, and they read as that page's memory |
| Pages.Storage.WritePage | VM/Page.hpp:82 | writing through a dereferenced page changes that page only |
| Pages.Storage.AquirePage | VM/Page.hpp:203-212 | an empty pool maps one page more and returns the old maxReference; otherwise returns the pool's top and takes it out; the result is a mapped page in use, and every page that was mapped and not free reads as before |
| Pages.Storage.ReleasePage | VM/Page.hpp:214-219 | releasing the last page unmaps it and leaves the pool; any other page goes on top of the pool; every other mapped page that was not free reads as before |
| Containers.DecodeEncode | Ontology/Containers.hpp:26-34 | reading back the elements of a blob written element by element gives the elements |
| Containers.EncodeDecode | Ontology/Containers.hpp:22-24 | a blob of k whole elements holds exactly k elements and is their encoding |
| Containers.DecodeFits | Ontology/Containers.hpp:26-29 | every element read from a blob fits in the element width |
| Containers.EncodeInserted | Ontology/Containers.hpp:61-65 | bits inserted at an element boundary insert one element into the element list |
| Containers.EncodeErased | Ontology/Containers.hpp:67-70 | bits erased on element boundaries erase those elements from the list |
| Containers.EncodeWritten | Ontology/Containers.hpp:31-34 | bits written over element `at` replace that element only |
| Containers.EncodeAt | Ontology/Containers.hpp:26-29 | element `at` lies in the bits [at * width, at * width + width) |
| Containers.InsertSteps | Ontology/Containers.hpp:61-65 | insert's two steps (increaseBlobSize by one element, then writeBlobAt) put the element at `at` and move the later ones up |
| Containers.ReadBlobAt | Ontology/Containers.hpp:28 | readBlobAt returns a value that fits in the element width |
| Containers.WriteBlobAt | Ontology/Containers.hpp:33 | writeBlobAt rewrites the element's bits of that blob only |
| Containers.BlobVector.constructor | Ontology/Containers.hpp:11 | a vector starts without a symbol and with no elements |
| Containers.BlobVector.Empty | Ontology/Containers.hpp:18-20 | empty is true exactly when the vector has no elements |
| Containers.BlobVector.Size | Ontology/Containers.hpp:22-24 | size is the number of elements, 0 without a symbol |
| Containers.BlobVector.ReadElementAt | Ontology/Containers.hpp:26-29 | readElementAt returns element `at`; a symbol and at < size are required, as the source asserts |
| Containers.BlobVector.WriteElementAt | Ontology/Containers.hpp:31-34 | writeElementAt replaces element `at` and changes no other blob |
| Containers.BlobVector.Front | Ontology/Containers.hpp:36-38 | front is the first element |
| Containers.BlobVector.Back | Ontology/Containers.hpp:40-42 | back is the last element |
| Containers.BlobVector.Iterate | Ontology/Containers.hpp:44-47 | the callback sees exactly the elements, in order |
| Containers.BlobVector.Activate | Ontology/Containers.hpp:49-54 | a vector without a symbol gets a fresh one and keeps its (no) elements; one with a symbol is untouched |
| Containers.BlobVector.Clear | Ontology/Containers.hpp:56-59 | clear leaves no elements and frees only this blob |
| Containers.BlobVector.Insert | Ontology/Containers.hpp:61-65 | the element is placed at `at` and the later elements move up; no other blob changes |
| Containers.BlobVector.Erase | Ontology/Containers.hpp:67-70 | the `length` elements from `begin` are removed and the later ones move down |
| Containers.BlobVector.EraseAt | Ontology/Containers.hpp:72-74 | element `at` is removed |
| Containers.BlobVector.PushBack | Ontology/Containers.hpp:76-78 | the element is appended |
| Containers.BlobVector.PopBack | Ontology/Containers.hpp:80-85 | the last element is returned and removed |
| Containers.PushThenPop | Ontology/Containers.hpp:76-85 | push_back then pop_back returns the element and restores the vector |
| Containers.BinarySearch | Ontology/Containers.hpp:108-110 | for a predicate holding on a prefix of 0 .. n - 1, the result is where the prefix ends |
| Containers.IncreasingInsert | Ontology/Containers.hpp:118-124 | inserting an element between the smaller and the larger keys keeps the keys strictly increasing |
| Containers.IncreasingErase | Ontology/Containers.hpp:126-132 | erasing an element keeps the keys strictly increasing |
| Containers.IncreasingBelow | Ontology/Containers.hpp:108-110 | in a set with increasing keys, "key > element's key" holds exactly on the elements with smaller keys, a prefix |
| Containers.BlobSet.constructor | Ontology/Containers.hpp:105 | a set starts empty |
| Containers.BlobSet.Lower | Ontology/Containers.hpp:107-111 | find(key) is the first position whose key is not below `key` |
| Containers.BlobSet.Find | Ontology/Containers.hpp:113-116 | true exactly when some element has the key, which then sits at `at`; `at` is also the insertion point |
| Containers.BlobSet.InsertElement | Ontology/Containers.hpp:118-124 | false, with nothing changed, exactly when the key is present; otherwise the element is inserted and the keys stay increasing |
| Containers.BlobSet.EraseElement | Ontology/Containers.hpp:126-132 | true exactly when an element has the key, which is then removed; otherwise nothing changes |
| Containers.BlobIndex.constructor | Ontology/Containers.hpp:139 | an index starts empty |
| Containers.BlobIndex.Lower | Ontology/Containers.hpp:141-145 | when "compareBlobs(key, element) < 0" holds on a prefix of the index, the result is where that prefix ends |
| Containers.BlobIndex.Find | Ontology/Containers.hpp:147-152 | true only when the element at `at` has the same content, and false at a position holding different content |
| Containers.BlobIndex.InsertElement | Ontology/Containers.hpp:154-161 | a stored symbol of equal content is returned with nothing changed, or else the element is inserted where find put it |
| Containers.BlobIndex.EraseElement | Ontology/Containers.hpp:163-169 | true only when an element of equal content was found and removed; otherwise nothing changes |
| DataStructures.SwapTwice | DataStructures/DataStructures.hpp:69-74 | swapping the same two positions twice gives the container back |
| DataStructures.SwapPermutes | DataStructures/DataStructures.hpp:69-74 | a swap keeps the multiset of elements |
| DataStructures.SortedInsert | DataStructures/DataStructures.hpp:125-132 | inserting at findKey's position, between the smaller and the larger keys, keeps the keys strictly increasing |
| DataStructures.SortedErase | DataStructures/DataStructures.hpp:134-141 | erasing an element keeps the keys strictly increasing |
| DataStructures.SetElementCount | DataStructures/DataStructures.hpp:60-67 | the container gets exactly n elements; the first min(old count, n) stay, and growing appends new elements |
| DataStructures.SwapElementsAt | DataStructures/DataStructures.hpp:69-74 | the elements at a and b are exchanged (a == b included) and the multiset is kept |
| DataStructures.IterateElements | DataStructures/DataStructures.hpp:76-80 | the callback sees exactly the elements, in order |
| DataStructures.Iterate | DataStructures/DataStructures.hpp:82-86 | the callback sees the indices 0 .. count - 1, in order |
| DataStructures.GetFirstElement | DataStructures/DataStructures.hpp:88-91 | the first element of a non-empty container |
| DataStructures.GetLastElement | DataStructures/DataStructures.hpp:93-96 | the last element of a non-empty container |
| DataStructures.InsertAsFirstElement | DataStructures/DataStructures.hpp:98-101 | the element goes in front |
| DataStructures.InsertAsLastElement | DataStructures/DataStructures.hpp:103-106 | the element is appended |
| DataStructures.GetAndEraseElementAt | DataStructures/DataStructures.hpp:108-113 | returns the element that was at `at` and removes it |
| DataStructures.EraseFirstElement | DataStructures/DataStructures.hpp:115-118 | the returned element followed by the rest is the old container |
| DataStructures.EraseLastElement | DataStructures/DataStructures.hpp:120-123 | the rest followed by the returned element is the old container |
| DataStructures.InsertElement | DataStructures/DataStructures.hpp:125-132 | false, with nothing changed, exactly when the key is present; otherwise the element is inserted and the keys stay sorted |
| DataStructures.EraseElementByKey | DataStructures/DataStructures.hpp:134-141 | true exactly when an element has the key, which is then removed; otherwise nothing changes |
| DataStructures.BitVectorContainer.constructor | DataStructures/DataStructures.hpp:6 | the bit vector starts empty |
| DataStructures.BitVectorContainer.IncreaseChildLength | DataStructures/DataStructures.hpp:9-12 | `length` zero bits are inserted at `offset` of the only child |
| DataStructures.BitVectorContainer.DecreaseChildLength | DataStructures/DataStructures.hpp:14-17 | the bits [offset, offset + length) of the only child are removed |
| DataStructures.BitVectorContainer.GetChildOffset | DataStructures/DataStructures.hpp:19-22 | the only child starts at bit 0 |
| DataStructures.BitVectorContainer.GetChildLength | DataStructures/DataStructures.hpp:24-26 | the child's length is the bit vector's size, whatever `at` is |
| DataStructures.GrowShrink | DataStructures/DataStructures.hpp:9-17 | increasing and then decreasing the child by the same range restores it |
| Triples.With | Ontology/Triple.hpp:132 | setting one position of a triple, as the search callbacks do, changes that position only |
| Triples.NormalizedReordered | Ontology/Triple.hpp:37-49 | normalized(o) undoes reordered(o) and the other way round, and EAV is the identity |
| Triples.IndexReordered | Ontology/Triple.hpp:29-42 | forwardIndex(s) stores what reordered(s) gives and reverseIndex(s) what reordered(s + 3) gives |
| Triples.InverseSwaps | Ontology/Triple.hpp:38-40 | an inverse orientation has its forward partner's alpha with beta and gamma swapped |
| Triples.EmptySubIndices | Ontology/Triple.hpp:85-90 | a new alpha entry has six sub-indices, all empty |
| Triples.HasLinked | Ontology/Triple.hpp:67-80 | linkInSubIndex adds exactly one (alpha, beta, gamma) to one orientation and keeps the alphas and their sub-index counts |
| Triples.LinkedWellFormed | Ontology/Triple.hpp:67-80 | linking keeps six sub-indices per alpha and no empty gamma set |
| Triples.LinkedPresent | Ontology/Triple.hpp:78-79 | linking a triple already present changes nothing (gamma.insertElement reports false) |
| Triples.HasUnlinked | Ontology/Triple.hpp:314-330 | unlinkInSubIndex removes exactly that one (alpha, beta, gamma) from one orientation |
| Triples.UnlinkedWellFormed | Ontology/Triple.hpp:314-330 | unlinking keeps six sub-indices per alpha and no empty gamma set |
| Triples.UnlinkedErasesBeta | Ontology/Triple.hpp:325-328 | removing the last gamma of a beta removes that beta and no other |
| Triples.NormalizedForward | Ontology/Triple.hpp:390 | the triple unlink(Symbol) rebuilds with normalized(k) from (symbol, beta, gamma) has the symbol at position k and is stored by sub-index k as that (alpha, beta, gamma) |
| Triples.AlphaPos | Ontology/Triple.hpp:38 | the position an orientation uses as alpha is o for a forward orientation and o − 3 for an inverse one |
| Triples.AlphaOf | Ontology/Triple.hpp:37-42 | the alpha of a reordered triple is the triple at that position |
| Triples.AppendDistinct | Ontology/Triple.hpp:159-179 | joining two repeat-free result lists with nothing in common gives a repeat-free list |
| Triples.EmitEach | Ontology/Triple.hpp:131-134 | the callback loop over a gamma set reports once each the query triple with that position set to each member |
| Triples.SearchGGG | Ontology/Triple.hpp:103-118 | reports the triple once exactly when the orientation holds it, else nothing; the count is the number reported |
| Triples.SearchGGV | Ontology/Triple.hpp:120-136 | reports every stored triple with the given alpha and beta, once each; the count is gamma.size() |
| Triples.SearchGVV | Ontology/Triple.hpp:138-157 | reports every stored triple with the given alpha, once each; the count is the sum of the gamma sizes |
| Triples.SearchGIV | Ontology/Triple.hpp:159-179 | reports every distinct gamma of the alpha over all its betas, once each, in position 2 |
| Triples.SearchGVI | Ontology/Triple.hpp:181-193 | reports every beta of the alpha, once each, in position 1 |
| Triples.SearchVII | Ontology/Triple.hpp:195-202 | reports every alpha of the index, once each, in position 0; the count is symbols.size() |
| Triples.SearchVVI | Ontology/Triple.hpp:204-219 | reports every (alpha, beta) pair of the orientation, once each |
| Triples.SearchVVV | Ontology/Triple.hpp:221-241 | reports every triple of the orientation, once each |
| Triples.RowsRightAt | Ontology/Triple.hpp:248-276 | a fact shown for a block of rows of the lookup table holds for each row in it |
| Triples.LookupValueMatch | Ontology/Triple.hpp:249-257 | rows 0-8 of the table (value matched) each run the routine whose pattern fits the mode, or none |
| Triples.LookupValueVary | Ontology/Triple.hpp:258-266 | rows 9-17 (value varied) are right in the same sense |
| Triples.LookupValueIgnoreAttributeMatch | Ontology/Triple.hpp:267-269 | rows 18-20 are right |
| Triples.LookupValueIgnoreAttributeVary | Ontology/Triple.hpp:270-272 | rows 21-23 are right |
| Triples.LookupValueIgnoreAttributeIgnore | Ontology/Triple.hpp:273-275 | rows 24-26 are right |
| Triples.LookupShape | Ontology/Triple.hpp:248-280 | a mode has no routine exactly when it ignores a position and varies none; otherwise its routine matches, varies and ignores the positions of its orientation as the mode says, and handleNext copies out exactly the varying positions, which follow the matched ones |
| Triples.Dispatch | Ontology/Triple.hpp:277-307 | a query has a search exactly when the table row has one; the sub-index it uses is one the index mode maintains (MonoIndex falls back to searchVVV on EAV, TriIndex answers an inverse orientation with searchGIV) |
| Triples.Search | Ontology/Triple.hpp:311 | the dispatched routine reports exactly its Answer triples, once each, and counts them |
| Triples.Project | Ontology/Triple.hpp:281-286 | handleNext passes the positions pos .. pos + size − 1 of the result |
| Triples.VaryingPositions | Ontology/Triple.hpp:291-301 | the positions a mode varies, each one varied |
| Triples.CompactedVarying | Ontology/Triple.hpp:291-301 | the corrected MonoIndex callback puts the mode's varying positions first, in order |
| Triples.DeliverAsWritten | Ontology/Triple.hpp:291-301 | the MonoIndex callback as written compacts searchVVV's working triple in place, one result per triple seen |
| Triples.MonoCompactionStale | Ontology/Triple.hpp:291-301 | for mode 14 on MonoIndex, the second of two triples with one entity and attribute is reported with the first triple's value where its attribute belongs |
| Triples.Deliver | Ontology/Triple.hpp:281-286 | one callback result per triple seen, each that triple's delivered positions; on the MonoIndex fallback that is the corrected compaction (Compacted), not the in-place one of DeliverAsWritten (see Findings) |
| Triples.Query | Ontology/Triple.hpp:243-312 | a mode without a routine returns 0 and calls nothing; otherwise the callback sees, once each, exactly the triples the dispatched search answers on the reordered query, projected, and the count is their number; on the MonoIndex fallback the callback receives the corrected compaction (see Findings) |
| Triples.NewEntry | Ontology/Triple.hpp:86-91 | a new alpha entry with empty sub-indices adds no triple to any orientation |
| Triples.MirrorsAdded | Ontology/Triple.hpp:84-97 | adding a triple to EAV and its rotation to orientation o keeps o the mirror of EAV |
| Triples.MirrorsRemoved | Ontology/Triple.hpp:334-344 | removing a triple from EAV and its rotation from o keeps o the mirror of EAV |
| Triples.PresentEverywhere | Ontology/Triple.hpp:84-97 | in a consistent index a triple is in every maintained orientation or in none |
| Ontology.AddedInStep | Ontology/Triple.hpp:93 | linking the rotation into one more maintained orientation records it there, and it was new exactly when the start index lacked it and no earlier round wrote it |
| Ontology.AddedInEntry | Ontology/Triple.hpp:86-91 | creating an empty entry for a new symbol changes no orientation |
| Ontology.LinkFinished | Ontology/Triple.hpp:82-101 | after every maintained orientation is written the index is consistent again and holds t besides what it held |
| Ontology.DroppedHas | Ontology/Triple.hpp:314-330 | unlinkInSubIndex removes exactly r from one orientation of r's alpha and changes no other entry |
| Ontology.ForwardHalf | Ontology/Triple.hpp:340 | the forward half of a round removes t's rotation from its forward orientation |
| Ontology.InverseHalf | Ontology/Triple.hpp:342-343 | the HexaIndex inverse half of a round removes t's rotation from orientation k + 3 |
| Ontology.RoundStep | Ontology/Triple.hpp:335-343 | a whole round extends "t's rotations removed" by the orientations of that round |
| Ontology.UnlinkedBelowHas | Ontology/Triple.hpp:334-344 | the rounds below k remove exactly t's rotations from the orientations they touch and nothing else |
| Ontology.RoundReady | Ontology/Triple.hpp:337-343 | before each round the index is well formed, and on HexaIndex the inverse holds t whenever the forward one does, so the asserted second unlinkInSubIndex succeeds |
| Ontology.TargetsAll | Ontology/Triple.hpp:334-344 | after all rounds the touched orientations are the maintained ones whose alpha is not skipped |
| Ontology.ConsistentUniform | Ontology/Triple.hpp:332-348 | in a consistent index every maintained orientation holds t or none does, and they hold it exactly when EAV does |
| Ontology.UnlinkFinished | Ontology/Triple.hpp:332-348 | unlinkWithoutReleasing on a consistent index leaves it consistent, with the same entries and without t |
| Ontology.DropStep | Ontology/Triple.hpp:390 | one unlinkWithoutReleasing of unlink(Symbol)'s loops, skipping s, removes the triple from every orientation not rooted at s, or finds it already removed |
| Ontology.NeighbourAtMeans | Ontology/Triple.hpp:384-391 | the betas and gammas of sub-index k of s are exactly the other symbols of the triples with s at position k |
| Ontology.BetaStep | Ontology/Triple.hpp:384-391 | one beta of the loop: its triples are done and it and its gammas are marked dirty |
| Ontology.BetasDoneAll | Ontology/Triple.hpp:381-393 | after the beta loop every triple with s at position k is done |
| Ontology.CoveredAt | Ontology/Triple.hpp:381-393 | once every beta and gamma of sub-index k of s is handled, every triple with s at position k is done |
| Ontology.NoEntryUninvolved | Ontology/Triple.hpp:375-378 | a symbol without an entry is in no triple and has no neighbours, so the early return of unlink(Symbol) misses nothing |
| Ontology.ClearedEntry | Ontology/Triple.hpp:397-399 | emptying all of s's sub-indices after the loops leaves a consistent index lacking exactly the triples involving s |
| Ontology.ReleasedNeighbours | Ontology/Triple.hpp:394-399 | the symbols released are s and exactly those neighbours of s that are then unused |
| Ontology.Releasable | Ontology/Triple.hpp:354-359 | the candidates that pass tryToReleaseSymbol's test |
| Ontology.MentionedUsed | Ontology/Triple.hpp:354-359 | a symbol a triple has in an indexed position fails the test and is not released |
| Ontology.UsedMentioned | Ontology/Triple.hpp:354-359 | a symbol failing the test has a triple with it in an indexed position |
| Ontology.UnusedMeans | Ontology/Triple.hpp:350-363 | a symbol is released exactly when no triple has it as entity (MonoIndex) or mentions it at all (Tri- and HexaIndex) |
| Ontology.ReleasableNext | Ontology/Triple.hpp:368-369 | the release loop of unlink(Triple) over one more position |
| Ontology.MonoUnlinkUnindexed | Ontology/Triple.hpp:350-353 | on MonoIndex after link((1, 2, 3)) symbol 2 has no entry, yet unlink(Triple) passes it to tryToReleaseSymbol, whose assertion fails |
| Ontology.MonoSetSolitaryUnindexed | Ontology/Triple.hpp:403-423 | on MonoIndex holding (1, 2, 3), setSolitary((1, 2, 4)) displaces 3 and passes the attribute 2 and the value 3 to tryToReleaseSymbol though neither has an entry |
| Ontology.ClearedAsWritten | Ontology/Triple.hpp:397-398 | the end of unlink(Symbol) as written empties only the sub-indices below indexCount of s |
| Ontology.HexaUnlinkLeaves | Ontology/Triple.hpp:397-398 | on HexaIndex that leaves s's inverse sub-indices holding triples EAV no longer has, so the index is inconsistent |
| Ontology.ValuesOf | Ontology/Triple.hpp:406 | the values query(9, (e, a, Void)) reports are exactly those of the triples (e, a, g) |
| Ontology.DistinctCount | Ontology/Triple.hpp:426-428 | a repeat-free list of the values has as many entries as there are values, so the count is the number of values |
| Ontology.Displaced | Ontology/Triple.hpp:406-411 | the values setSolitary unlinks: every value of t's attribute except t's value when that one may stay |
| Ontology.Stored | Ontology/Triple.hpp:434-442 | the triples of the index, which decrease while scrutinizeExistence runs |
| Ontology.LargestExists | Ontology/Triple.hpp:435 | a non-empty worklist has a largest symbol, which pop_back takes |
| Ontology.ScrutinySkip | Ontology/Triple.hpp:436-437 | a symbol something holds leaves the worklist and nothing else changes |
| Ontology.ScrutinyUnlink | Ontology/Triple.hpp:438-441 | an unheld symbol is unlinked and the symbols it held join the worklist, keeping the invariant of scrutinizeExistence, including that no unlinked symbol has a holder left |
| Ontology.StoredShrinks | Ontology/Triple.hpp:441 | unlinking a symbol never adds a stored triple, and removes one whenever the symbol held anything, so the loop terminates |
| Ontology.HoldersUnlinked | Ontology/Triple.hpp:436-441 | on Tri- and HexaIndex, a symbol unlinked because nothing holds it any more had only holders that were themselves unlinked (unless Holds itself was); on MonoIndex a symbol is unlinked only when no triple was stored |
| Ontology.QueuedHeld | Ontology/Triple.hpp:438-440 | every queued symbol is s or was held by an unlinked symbol |
| Ontology.HeldClosed | Ontology/Triple.hpp:434-442 | on Tri- and HexaIndex every symbol an unlinked symbol held is unlinked, queued or still held |
| Ontology.SolitaryHas | Ontology/Triple.hpp:412-416 | after the link and the unlinks, t's entity has under t's attribute only t's value, or nothing when it may not stay |
| Ontology.Index.constructor | Ontology/Triple.hpp:53-65 | an empty index of the given mode that has released nothing |
| Ontology.Index.LinkInSubIndex | Ontology/Triple.hpp:67-80 | adds r to one orientation of its alpha, creating the beta when needed, and answers whether r was new; otherwise nothing changes |
| Ontology.Index.LinkRotation | Ontology/Triple.hpp:93 | linking t's rotation into orientation o answers whether it was new and records o as written |
| Ontology.Index.LinkInverse | Ontology/Triple.hpp:95-96 | the HexaIndex inverse link always succeeds once the forward one did, as the assertion claims |
| Ontology.Index.LinkStep | Ontology/Triple.hpp:84-97 | one round of link: only round 0 can find t already there; otherwise the round's orientations gain t and its symbol's entry exists |
| Ontology.Index.Link | Ontology/Triple.hpp:82-101 | answers whether t was new; the index then holds exactly the old triples and t, stays consistent, and gains entries only for t's indexed symbols; a present t changes nothing |
| Ontology.Index.UnlinkInSubIndex | Ontology/Triple.hpp:314-330 | removes r from one orientation, dropping a beta left without gammas, and answers whether r was there; otherwise nothing changes |
| Ontology.Index.UnlinkRound | Ontology/Triple.hpp:335-343 | one round of unlinkWithoutReleasing succeeds exactly when its forward orientation holds t, and then removes t there and in the inverse |
| Ontology.Index.UnlinkWithoutReleasing | Ontology/Triple.hpp:332-348 | succeeds exactly when every touched orientation holds t, and then removes it from those; on failure nothing changes |
| Ontology.Index.TryToReleaseSymbol | Ontology/Triple.hpp:350-363 | releases s exactly when its forward sub-indices are all empty, changing no triple |
| Ontology.Index.Unlink | Ontology/Triple.hpp:365-371 | answers whether t was stored; then the index lacks exactly t and those of t's symbols left unused are released; otherwise nothing changes |
| Ontology.Index.UnlinkTriple | Ontology/Triple.hpp:366 | unlinkWithoutReleasing on a consistent index succeeds exactly when t is stored and leaves the index consistent without t |
| Ontology.Index.TryToReleasePositions | Ontology/Triple.hpp:368-369 | releases exactly those of t's three symbols that are unused |
| Ontology.Index.UnlinkGammas | Ontology/Triple.hpp:388-391 | every gamma of beta b in sub-index k of s: each of those triples is unlinked everywhere but in s's entry |
| Ontology.Index.UnlinkBetas | Ontology/Triple.hpp:381-393 | every beta of sub-index k of s: all triples with s at position k are unlinked, and the dirty symbols are exactly their betas and gammas |
| Ontology.Index.TryToReleaseEach | Ontology/Triple.hpp:394-396 | releases exactly the dirty symbols that are unused, in any order |
| Ontology.Index.UnlinkSymbol | Ontology/Triple.hpp:373-401 | answers whether s had an entry; afterwards the index lacks exactly the triples involving s, and the symbols released are s and its neighbours that became unused |
| Ontology.Index.TryToReleaseSymbolAsWritten | Ontology/Triple.hpp:350-363 | the source's version needs s to have an entry (its assertion), and then releases s exactly when unused |
| Ontology.Index.QueryValues | Ontology/Triple.hpp:406 | query(9, (e, a, Void)) reports each value of e's attribute a exactly once and counts them |
| Ontology.Index.HolderCount | Ontology/Triple.hpp:436 | query(1, (Void, Holds, s)) is positive exactly when s is held (every stored triple counts on MonoIndex) |
| Ontology.Index.GetUncertain | Ontology/Triple.hpp:425-429 | true exactly when e's attribute a has exactly one value, which is then the out-value; the out-value is untouched when there is none, and one of the values when there are several |
| Ontology.Index.SortValues | Ontology/Triple.hpp:405-411 | toLink holds exactly when t's value may stay and is not yet there; the dirty values are all others |
| Ontology.Index.ReplaceValues | Ontology/Triple.hpp:412-416 | the link (when needed) and the unlinks of the dirty values leave exactly t under t's entity and attribute, or nothing |
| Ontology.Index.UnlinkValues | Ontology/Triple.hpp:414-416 | removes (e, a, g) for every dirty g and nothing else |
| Ontology.Index.SetSolitary | Ontology/Triple.hpp:403-423 | afterwards t's entity has t's value as its only value of t's attribute (none for Void without linkVoid), every other triple is kept, and the displaced values, the attribute and (without linkVoid) the entity are released when unused |
| Ontology.Index.ScrutinizeExistence | Ontology/Triple.hpp:431-443 | a held symbol changes nothing; otherwise s is unlinked, and so is, transitively, every symbol an unlinked one held that nothing else holds; only triples involving unlinked symbols go; on Tri- and HexaIndex every holder of an unlinked symbol is unlinked too, so no symbol with a surviving incoming Holds edge goes (unless Holds itself is unlinked); on MonoIndex, where any stored triple counts as a holder, nothing is unlinked unless no triple was stored |
| Ontology.Index.ScrutinizeRound | Ontology/Triple.hpp:435-441 | the largest symbol of the worklist is popped; it is passed over, changing nothing, exactly when something holds it, and unlinked and released otherwise, keeping the invariant of scrutinizeExistence; the loop measure never grows and drops whenever the worklist does not shrink |
| Ontology.Index.HeldBy | Ontology/Triple.hpp:438-440 | the symbols s holds, as the query collects them, are exactly the values of its Holds triples |
| Ontology.Index.ScrutinizeStep | Ontology/Triple.hpp:438-441 | one symbol nothing holds: its held symbols are queued, it is unlinked and the invariant is kept; the asserted result of unlink is true exactly when the symbol had an entry |
| Ontology.UnindexedUnheld | Ontology/Triple.hpp:431-441 | on TriIndex and HexaIndex nothing holds a symbol without an entry, so scrutinizeExistence of it reaches the asserted unlink, which fails |
| Contexts.UnanchoredFindsNothing | Ontology/Context.hpp:19-96 | where a search of the Context raises "Symbol is Nonexistent" for want of the alpha's entry, the same search on the Triple.hpp index finds no triple, so both answer alike elsewhere |
| Contexts.BlobIn | Ontology/Context.hpp:366-375 | the blob of a symbol's SymbolObject, empty for one SymbolFactory has just made |
| Contexts.Unindexed | Ontology/Context.hpp:419-425 | the blob index after unindexBlob of each of a set of symbols: exactly the entries leading a symbol of the set to its own blob are gone, the rest keep their symbol |
| Contexts.UnindexedStep | Ontology/Context.hpp:419-425 | one more unindexBlob removes the entry of the symbol's blob when it leads to that symbol and otherwise changes nothing |
| Contexts.UnindexedTwice | Ontology/Context.hpp:266-267 | unindexing one more symbol after a set is unindexing the larger set, so the unindexBlob calls of unlink may run in any order |
| Contexts.LinksOf | Ontology/Context.hpp:377-383 | the triples create links: the new symbol as entity with each given attribute/value pair |
| Contexts.LinksOfStep | Ontology/Context.hpp:380-381 | create's loop over one more pair adds one triple not linked before |
| Contexts.NewEntryConsistent | Ontology/Context.hpp:373-375 | a new empty SymbolObject changes no orientation and keeps the index consistent |
| Contexts.BlobEntities | Ontology/Context.hpp:266-267 | the symbols unlink calls unindexBlob for: the entities of the unlinked BlobType triples |
| Contexts.BlobEntitiesStep | Ontology/Context.hpp:266-267 | one more unlinked triple adds its entity exactly when its attribute is BlobType |
| Contexts.TouchedStep | Ontology/Context.hpp:251 | one more unlinked triple makes dirty exactly its indexed positions |
| Contexts.ClearedFinds | Ontology/Context.hpp:254-256 | round k of a triple finds its forward pair exactly when the index held the triple, and the entry is then there |
| Contexts.ClearedForward | Ontology/Context.hpp:256 | the forward half of a round removes the triple's rotation from its forward orientation |
| Contexts.ClearedInverse | Ontology/Context.hpp:256 | on HexaIndex the other half removes the rotation from the inverse orientation |
| Contexts.ClearedRoundEnd | Ontology/Context.hpp:250-265 | outside HexaIndex a round ends after its forward half |
| Contexts.ClearedSkipped | Ontology/Context.hpp:252-253 | a round whose symbol is skipped changes nothing |
| Contexts.ClearedCommit | Ontology/Context.hpp:249-268 | after a triple's last round that triple counts as done |
| Contexts.ClearedConsistent | Ontology/Context.hpp:249-268 | without skipped symbols the index stays consistent while unlink clears triples |
| Contexts.ClearedUnused | Ontology/Context.hpp:269-279 | after the first loop the entry of a symbol not skipped is empty exactly when every triple involving it was unlinked |
| Contexts.ErasedKeys | Ontology/Context.hpp:269-281 | after unlink the entries left are those of symbols not skipped and not emptied by the unlinked triples, each unchanged |
| Contexts.ErasedHas | Ontology/Context.hpp:245-283 | after unlink the index holds exactly the old triples minus the unlinked ones and those rooted at a skipped symbol |
| Contexts.ErasedConsistent | Ontology/Context.hpp:245-283 | when every triple involving a skipped symbol is among those unlinked, the erased index is consistent |
| Contexts.ClearedAny | Ontology/Context.hpp:249 | between triples the loop's state does not depend on which triple comes next |
| Contexts.FoundIndexed | Ontology/Context.hpp:254-256 | every symbol of a triple unlink has passed has an entry, so the second loop finds each dirty symbol |
| Contexts.IsUnused | Ontology/Context.hpp:271-276 | true exactly when every maintained forward sub-index of alpha is empty |
| Contexts.Unreferenced | Ontology/Context.hpp:269-279 | the second loop erases exactly the dirty symbols whose entries are empty, their blobs with them |
| Contexts.Involving | Ontology/Context.hpp:309-312 | the triples destroy unlinks: those of the index that involve alpha in an indexed position |
| Contexts.PairTriples | Ontology/Context.hpp:286-289 | the triples unlink(alpha, beta) collects: those with entity alpha and attribute beta |
| Contexts.CollectStep | Ontology/Context.hpp:310-312 | normalizing what sub-index i of alpha holds gives exactly the stored triples with alpha at position i |
| Contexts.CollectAdvance | Ontology/Context.hpp:309-312 | one more sub-index searched adds the triples with alpha at that position |
| Contexts.CollectInvolving | Ontology/Context.hpp:309-312 | destroy's loops collect exactly the triples involving alpha |
| Contexts.SplitValues | Ontology/Context.hpp:334-341 | setSolitary's callback: toLink exactly when t's value is not among the values, and the others are (entity, attribute, g) for every other value g |
| Contexts.NothingSkipped | Ontology/Context.hpp:252-253 | without skipped symbols every triple is checked |
| Contexts.SmallestExists | Ontology/Context.hpp:321 | a non-empty worklist has a smallest symbol, which begin() yields |
| Contexts.Smallest | Ontology/Context.hpp:321-322 | the symbol taken from the worklist is in it and below every other |
| Contexts.Context.SymbolFactory | Ontology/Context.hpp:373-375 | gives s an empty entry when it has none, and otherwise changes nothing; consistency is kept |
| Contexts.Context.Query | Ontology/Context.hpp:141-215 | an invalid mode or one without a routine fails with "Invalid Mode Value"; a search whose alpha has no entry fails with "Symbol is Nonexistent"; otherwise the callback sees once each exactly the triples the dispatched search answers, projected, and the count is their number; on the MonoIndex fallback the callback receives the corrected compaction (see Findings) |
| Contexts.Context.QueryValues | Ontology/Context.hpp:287-289 | query(9, (e, a, Void)) fails exactly when e has no entry, and otherwise reports each value of e's attribute a once |
| Contexts.Context.HolderCount | Ontology/Context.hpp:323-324 | query(1, (Void, Holds, s)) fails exactly when Holds has no entry (outside MonoIndex), and otherwise is positive exactly when s is held |
| Contexts.Context.GetUncertain | Ontology/Context.hpp:348-354 | fails without alpha's entry; otherwise true exactly when (alpha, beta) has one value, which is then the out-value; without values gamma is untouched, with several it is one of them |
| Contexts.Context.GetGuaranteed | Ontology/Context.hpp:356-364 | the single value of (entity, attribute), failing with "Nonexistent or Ambiguous" when there are none or several |
| Contexts.Context.UnindexBlob | Ontology/Context.hpp:419-425 | fails without s's entry; otherwise removes the blob index entry of s's blob exactly when it leads to s, and answers whether it did |
| Contexts.Context.LinkPairs | Ontology/Context.hpp:232 | SymbolObject::link on the entry of t's k-th symbol succeeds exactly when t was absent, and then adds the round's orientations |
| Contexts.Context.LinkStep | Ontology/Context.hpp:229-240 | one round of link: the entry is created when missing; only round 0 can find t present, and then nothing changes |
| Contexts.Context.Link | Ontology/Context.hpp:225-243 | a present t fails with "Already linked" (false with allowFailure) and changes nothing; otherwise the index holds exactly the old triples and t, and gains entries only for t's indexed symbols |
| Contexts.Context.Create | Ontology/Context.hpp:377-383 | hands out nextSymbol, gives it an entry and links one triple per pair, so the index holds exactly the old triples and the links |
| Contexts.Context.LinkEach | Ontology/Context.hpp:380-381 | create's loop links each pair with the new symbol, succeeding whenever none was linked before |
| Contexts.Context.UnlinkPairs | Ontology/Context.hpp:256 | SymbolObject::unlink on the entry of y's k-th symbol succeeds exactly when the index held y |
| Contexts.Context.UnlinkRounds | Ontology/Context.hpp:250-265 | the rounds of one triple succeed exactly when the index held it or all its positions are skipped, and then it is taken out everywhere but at skipped symbols |
| Contexts.Context.Unlink | Ontology/Context.hpp:245-283 | fails ("Already unlinked", or false with allowFailure) exactly when some checked triple is missing; otherwise the index lacks exactly the unlinked triples and those of skipped symbols, entries left empty and skipped entries are erased, and the BlobType entities are unindexed |
| Contexts.Context.UnlinkAll | Ontology/Context.hpp:249-268 | the first loop either passes every triple or stops at a missing one; dirty holds exactly the indexed symbols of the triples done |
| Contexts.Context.UnlinkNext | Ontology/Context.hpp:250-267 | one triple of the first loop: found exactly when held or skipped on all positions, then cleared, its symbols made dirty and its entity unindexed when BlobType |
| Contexts.Context.UnindexEntity | Ontology/Context.hpp:266-267 | the unindexBlob call of unlink for a BlobType triple's entity |
| Contexts.Context.EraseSkipped | Ontology/Context.hpp:280-281 | the entries of the skipped symbols are erased, and nothing else |
| Contexts.Context.UnlinkPair | Ontology/Context.hpp:285-293 | fails without alpha's entry; otherwise every triple with entity alpha and attribute beta goes, entries left empty are erased and BlobType entities unindexed |
| Contexts.Context.UnlinkTriple | Ontology/Context.hpp:295-297 | an absent t fails ("Already unlinked", or false) with no entry lost; otherwise exactly t goes and those of its symbols left empty lose their entries |
| Contexts.Context.Destroy | Ontology/Context.hpp:299-315 | an absent alpha fails with "Already destroyed" (false with allowFailure); otherwise every triple involving alpha goes, alpha's entry and those left empty are erased, and the index stays consistent |
| Contexts.Context.SetSolitary | Ontology/Context.hpp:333-346 | fails without t's entity's entry; otherwise t becomes the only triple with its entity and attribute, every other triple is kept and the displaced BlobType entities are unindexed |
| Contexts.Context.ScrutinizeExistence | Ontology/Context.hpp:317-331 | a symbol without an entry, or one held by another, changes nothing; otherwise it is destroyed and so is, transitively, every symbol a destroyed one held that nothing else holds; on Tri- and HexaIndex every holder of a destroyed symbol is destroyed too, whatever the outcome, so no symbol with a surviving incoming Holds edge goes (unless Holds itself is destroyed), and on MonoIndex nothing is destroyed unless no triple was stored; the holder query raises "Symbol is Nonexistent" only when Holds itself has no entry |
| Contexts.Context.ScrutinizeNext | Ontology/Context.hpp:320-330 | the smallest symbol of the worklist is popped: passed over without an entry or when held, destroyed otherwise; the loop measure never grows and drops whenever the worklist does not shrink |
| Contexts.Context.ScrutinizeStep | Ontology/Context.hpp:326-329 | a symbol nothing holds: the symbols it holds join the worklist and it is destroyed, keeping the invariant of scrutinizeExistence |
| Huffman.PostOrderCounts | External/Huffman.hpp:96-122 | the post-order stream of a tree of n leaves holds n - 1 zero tokens and 2n - 1 tokens, and an internal node's ends with its zero |
| Huffman.ParseStep | External/Huffman.hpp:176-188 | reading one more token of decodeTree is one more stack step |
| Huffman.ParsePostOrder | External/Huffman.hpp:176-188 | reading a tree's post-order stream on any stack pushes exactly that tree |
| Huffman.ParseNode | External/Huffman.hpp:182-187 | a zero token after two trees joins them, the earlier one as zero-child |
| Huffman.ParseFlat | External/Huffman.hpp:176-188 | whatever decodeTree reads is the concatenated streams of the trees on its stack, so the stream determines the stack |
| Huffman.ParsePrefix | External/Huffman.hpp:176-188 | no prefix of a tree's stream makes decodeTree's stack underflow |
| Huffman.ParseTree | External/Huffman.hpp:96-122 | decoding what encodeTree writes for a tree leaves exactly that tree |
| Huffman.StreamUnique | External/Huffman.hpp:165-190 | two trees of the same leaf count whose streams both start the same tokens are equal |
| Huffman.DescendAppend | External/Huffman.hpp:153-158 | following a path and then more bits is following the joined path |
| Huffman.WalkCode | External/Huffman.hpp:139-163 | decodeSymbol over a symbol's code followed by any bits yields that symbol after exactly the code's bits |
| Huffman.RoundTrip | External/Huffman.hpp:23-33 | decoding the concatenated codes of a run of symbols gives the symbols back, whatever follows |
| Huffman.TreeAtExtend | External/Huffman.hpp:184-186 | writing more nodes leaves the trees the arrays already hold unchanged |
| Huffman.InternalAt | External/Huffman.hpp:153 | an internal node's two children lie in huffmanChildren below it and are its subtrees |
| Huffman.PrefixCounts | External/Huffman.hpp:176 | within a tree's stream the loop's count of internal nodes stays below symbolCount - 1 until the stream ends |
| Huffman.NodeLeaves | External/Huffman.hpp:38-42 | a tree has a leaf, and an internal node at least two |
| Huffman.LeafStreams | External/Huffman.hpp:168-171 | a stream whose count is below 2 is a single leaf's: count 1 and then the symbol |
| Huffman.NodeStream | External/Huffman.hpp:173-189 | a stream whose count is 2 or more is an internal node's, with that many leaves, and its post-order tokens follow |
| Huffman.GoalTokens | External/Huffman.hpp:177 | the token decodeTree reads at each position of a stream is the tree's post-order token |
| Huffman.GoalPrefix | External/Huffman.hpp:176-188 | reading a tree's next token keeps a parsable prefix and keeps the loop running until the last internal node |
| Huffman.LeafStacked | External/Huffman.hpp:178-181 | the leaf step pushes the new leaf's slot, and the stack still names the trees read |
| Huffman.NodeStacked | External/Huffman.hpp:182-187 | the node step replaces the two top trees by their join under node symbolCount + k |
| Huffman.NodesDone | External/Huffman.hpp:176-190 | when the loop has built symbolCount - 1 nodes a single tree is left, at the root 2n - 2, with n leaves and the stream read |
| Huffman.OnlyTree | External/Huffman.hpp:165-190 | at most one tree's stream lies at a position with a count of 2 or more |
| Huffman.StartNodes | External/Huffman.hpp:173-175 | the loop's invariant holds after the count |
| Huffman.InsideStream | External/Huffman.hpp:176 | tokens read from a stream's start while fewer internal nodes than it holds have been read are a proper prefix of it |
| Huffman.ShortOfStream | External/Huffman.hpp:176 | before the last internal node the tokens read are a proper prefix of the tree's post-order stream |
| Huffman.OnStream | External/Huffman.hpp:177-183 | on a tree's stream the next token exists, a leaf token finds a free symbol slot and a zero finds two trees on the stack |
| Huffman.Ahead | External/Huffman.hpp:176-188 | the loop can get stuck only where no tree's stream lies |
| Huffman.ReadNext | External/Huffman.hpp:177 | reading the next token extends the tokens read by one stack step |
| Huffman.LeafStep | External/Huffman.hpp:178-181 | a positive token keeps decodeTree's loop invariant with the leaf of symbol token - 1 on top |
| Huffman.NodeStep | External/Huffman.hpp:182-187 | a zero token keeps decodeTree's loop invariant with the two top trees joined |
| Huffman.FinishNodes | External/Huffman.hpp:176-190 | at the loop's end the root holds a tree whose stream is exactly the tokens read |
| Huffman.NodesFound | External/Huffman.hpp:165-190 | at the loop's end the tree at the root is the one whose stream lies there, if any |
| Huffman.StreamRead | External/Huffman.hpp:166-189 | the count and the post-order tokens after it are the stream of the tree |
| Huffman.NodeToken | External/Huffman.hpp:177-188 | one token of decodeTree's loop keeps the invariant, and a failure (no token left, too many leaves, an empty stack) means no tree's stream lies there |
| Huffman.DecodeNodes | External/Huffman.hpp:173-189 | decodeTree's loop succeeds on every tree stream and then holds that tree at the root; whatever it accepts is a tree's stream |
| Huffman.ReadTree | External/Huffman.hpp:165-190 | reads the symbol count and then one symbol or a post-order stream; it succeeds on every stream encodeTree writes and then holds that tree |
| Huffman.WalkStep | External/Huffman.hpp:153-158 | one bit of decodeSymbol moves to the zero- or one-child of the current node |
| Huffman.StartWalk | External/Huffman.hpp:144-145 | the walk starts at the root, node symbolCount - 2 of huffmanChildren, with an empty mask |
| Huffman.WalkExhausted | External/Huffman.hpp:147-149 | with the mask used up and no bits left the walk has run out of code, where the source asserts |
| Huffman.WalkBit | External/Huffman.hpp:153-158 | one bit of the mask either ends the walk at a leaf after that bit or moves to an internal child |
| Huffman.WalkNodes | External/Huffman.hpp:143-161 | for two or more symbols yields the symbol whose code starts at offset and leaves the offset just after the code, giving back the unread bits of the mask |
| Huffman.Decoder.constructor | External/Huffman.hpp:192 | a decoder over the given blob and offset that holds no tree yet |
| Huffman.Decoder.DecodeTree | External/Huffman.hpp:165-190 | succeeds exactly on a tree's stream (or a count of 0) and then holds that tree, the cursor after its stream |
| Huffman.Decoder.DecodeSymbol | External/Huffman.hpp:139-163 | a single symbol takes no bits; otherwise the walk from the root yields the symbol whose code is next and advances the offset by that code's length; running out of bits fails |
| HuffmanEncoder.CountAt | External/Huffman.hpp:15-21 | in a map ordered by symbol the count of a pair's symbol is that pair's value |
| HuffmanEncoder.CountAbsent | External/Huffman.hpp:15-21 | a symbol without a pair counts 0 |
| HuffmanEncoder.IncreasingBelow | External/Huffman.hpp:17 | the search predicate of symbolMap.find holds on a prefix, so the binary search applies |
| HuffmanEncoder.Locate | External/Huffman.hpp:17 | symbolMap.find: the pairs before the position have smaller symbols, those from it on not smaller, and found exactly when a pair holds the symbol, which it then does at that position |
| HuffmanEncoder.Bumped | External/Huffman.hpp:18 | incrementing a pair's value adds one occurrence of its symbol and changes no other count or the order |
| HuffmanEncoder.Inserted | External/Huffman.hpp:20 | inserting (symbol, 1) at its place keeps the map ordered and counts one occurrence of the new symbol |
| HuffmanEncoder.InsertedOrder | External/Huffman.hpp:20 | the inserted pair keeps the symbols strictly increasing |
| HuffmanEncoder.InsertedCount | External/Huffman.hpp:20 | after the insertion every symbol's count is the old one, plus one for the inserted symbol |
| HuffmanEncoder.Tally | External/Huffman.hpp:15-21 | countSymbol on the pairs: the symbol's count goes up by one, every other count stays, and the map stays ordered |
| HuffmanEncoder.FormedTree | External/Huffman.hpp:63-72 | children arrays in which each node's children lie below it describe a tree at every node |
| HuffmanEncoder.SpanLeaves | External/Huffman.hpp:71 | the accumulated leaf counts of the nodes are the leaf counts of their trees |
| HuffmanEncoder.UnitSum | External/Huffman.hpp:49-53 | the heap of leaves counts one leaf per element |
| HuffmanEncoder.Popped | External/Huffman.hpp:64-65 | popping an element leaves the other nodes, still distinct |
| HuffmanEncoder.PoppedSum | External/Huffman.hpp:64-65 | popping an element takes its leaves away from the heap's total |
| HuffmanEncoder.StartMerging | External/Huffman.hpp:44-62 | the merge loop starts with one heap element per symbol, weighted by its count, and no links |
| HuffmanEncoder.Merge | External/Huffman.hpp:64-71 | one merge links the two popped nodes as zero- and one-child of node symbolCount + index and pushes it with their summed weight, keeping the loop invariant |
| HuffmanEncoder.TwoPops | External/Huffman.hpp:64-65 | the two pops take two distinct nodes of the heap |
| HuffmanEncoder.MergeLinks | External/Huffman.hpp:66-71 | after a merge each node is in the heap or linked to its parent |
| HuffmanEncoder.MergedSpans | External/Huffman.hpp:69-71 | the new node counts the leaves of its two children |
| HuffmanEncoder.MergedSum | External/Huffman.hpp:71 | a merge keeps the number of leaves under the heap |
| HuffmanEncoder.FinishMerge | External/Huffman.hpp:63-73 | when one node is left it is the root 2n - 2 of a tree over all n leaves, and every other node is linked to its parent |
| HuffmanEncoder.LightestExists | External/Huffman.hpp:64 | a non-empty heap has an element of least weight |
| HuffmanEncoder.PopLightest | External/Huffman.hpp:64-65 | symbolHeap.pop_front takes an element of least weight and leaves the others |
| HuffmanEncoder.MergeLightest | External/Huffman.hpp:63-72 | one round of the merge loop joins the two lightest nodes, keeps every leaf under the heap and shrinks it by one |
| HuffmanEncoder.BuildTree | External/Huffman.hpp:44-73 | the merge loop ends with one tree at node 2n - 2 whose leaves are the n symbols |
| HuffmanEncoder.BuiltAscending | External/Huffman.hpp:66-68 | every parent link leads to a larger node, so the code loops end at the root |
| HuffmanEncoder.UpDescends | External/Huffman.hpp:87-92 | the bits of the parent links, read from the root down, lead from the root to the node |
| HuffmanEncoder.CodesPrefix | External/Huffman.hpp:77-93 | the codes of the first i leaves start the codes of the first j |
| HuffmanEncoder.CodesSlice | External/Huffman.hpp:83-92 | leaf i's code lies in huffmanCodes between its offset and the next leaf's |
| HuffmanEncoder.Depth | External/Huffman.hpp:78-82 | the length loop counts the parent links from leaf i to the root, the length of its code |
| HuffmanEncoder.WriteCode | External/Huffman.hpp:84-92 | huffmanCodes grows by leaf i's code, written from its end backwards |
| HuffmanEncoder.AssignCode | External/Huffman.hpp:83-92 | one round of the code loop: pair i's value becomes its code's offset and the code is appended |
| HuffmanEncoder.AssignCodes | External/Huffman.hpp:75-93 | the code loop leaves each pair's value at its code's offset and huffmanCodes holding all codes in symbol order |
| HuffmanEncoder.CodeMapCodes | External/Huffman.hpp:23-33 | the code of every counted symbol, and of none other, leads from the root to that symbol's leaf |
| HuffmanEncoder.CodeMapAt | External/Huffman.hpp:28-29 | a pair's code runs from its value to the next pair's value, or to the end of huffmanCodes for the last pair; none with fewer than two symbols |
| HuffmanEncoder.CodedLeaves | External/Huffman.hpp:75-93 | after the code loop every pair's code slice leads to its own leaf |
| HuffmanEncoder.RestLength | External/Huffman.hpp:102 | every element of the stack still has a token to write, so the stack loop ends |
| HuffmanEncoder.Visit | External/Huffman.hpp:105-111 | states 0 and 1 advance the top and push the child they name: a leaf in state 3, an internal node in state 0 |
| HuffmanEncoder.VisitStep | External/Huffman.hpp:105-111 | a visit writes no token and keeps the tokens the stack has still to write |
| HuffmanEncoder.LeaveStep | External/Huffman.hpp:112-120 | states 2 and 3 pop the top and write 0 for an internal node or symbol + 1 for a leaf |
| HuffmanEncoder.EmitStep | External/Huffman.hpp:103-121 | one round of the stack loop writes what the stack owed first, keeping the rest owed |
| HuffmanEncoder.StartEmit | External/Huffman.hpp:101 | the stack starts with the root in state 0, owing the tree's post-order stream |
| HuffmanEncoder.EmitTree | External/Huffman.hpp:100-123 | the stack loop writes exactly the post-order stream of the tree at node 2n - 2 |
| HuffmanEncoder.KeysKept | External/Huffman.hpp:83 | writing code offsets into the values keeps the symbols, their order and the counted symbols |
| HuffmanEncoder.EncodeNodes | External/Huffman.hpp:44-123 | for two symbols or more: builds a tree over exactly the map's symbols, writes its post-order stream and a code for each pair leading to its leaf |
| HuffmanEncoder.InsertCode | External/Huffman.hpp:28-32 | inserts pair index's code into the blob at the offset and moves the offset past it |
| HuffmanEncoder.WalkInserted | External/Huffman.hpp:30-31 | decoding from where a code was inserted reads that code's symbol, after exactly its bits |
| HuffmanEncoder.Encoder.constructor | External/Huffman.hpp:126-128 | an encoder over the given blob and offset with no symbols counted and no codes |
| HuffmanEncoder.Encoder.CountSymbol | External/Huffman.hpp:15-21 | the symbol's count goes up by one, every other count stays, and the map stays ordered |
| HuffmanEncoder.Encoder.EncodeTree | External/Huffman.hpp:35-124 | writes the symbol count, then the single symbol or the post-order stream of a tree over exactly the counted symbols, and prepares a code for each leading to its leaf |
| HuffmanEncoder.Encoder.EncodeSymbol | External/Huffman.hpp:23-33 | an uncounted symbol fails (the source asserts); otherwise the symbol's code is inserted at the offset, the offset moves past it, and decoding from the old offset reads the symbol back |
| HuffmanEncoder.Encoder.Decodes | External/Huffman.hpp:23-33 | the codes of a run of counted symbols, one after another, decode to that run whatever bits follow |
| Serialize.WidthFrom | Interpreter/Serialize.hpp:41-43 | the mask loop of serializeNumber stops at the first power of ten above the number |
| Serialize.Digit | Interpreter/Serialize.hpp:53 | '0' + digit is an ASCII digit |
| Serialize.Digits | Interpreter/Serialize.hpp:44-54 | the digit loop writes k ASCII digits |
| Serialize.Parse | Interpreter/Serialize.hpp:28-55 | reading back a decimal form: an optional '-' and a numeral without leading zeros |
| Serialize.DigitsValue | Interpreter/Serialize.hpp:44-54 | the k digits written for a number below 10^k read back as that number |
| Serialize.DigitsLeading | Interpreter/Serialize.hpp:41-43 | starting from the first power of ten above the number leaves no leading zero |
| Serialize.DigitsSplit | Interpreter/Serialize.hpp:47-53 | each round of the digit loop writes number / mask and keeps number % mask |
| Serialize.DecimalNumeral | Interpreter/Serialize.hpp:41-54 | a positive number is written as a numeral whose value is that number |
| Serialize.NumberForm | Interpreter/Serialize.hpp:28-55 | zero is written "0", a negative number as '-' and the numeral of its magnitude, and a positive one as its numeral |
| Serialize.NumberNoDot | Interpreter/Serialize.hpp:45-46 | an integer never gets the '.' of a fraction |
| Serialize.NumberParses | Interpreter/Serialize.hpp:28-55 | reading back what serializeNumber writes gives the integer |
| Serialize.ReadText | Interpreter/Serialize.hpp:71-85 | reading a text form back: quotes around text holding white space are dropped |
| Serialize.TextReads | Interpreter/Serialize.hpp:71-85 | the text form of any text reads back as that text |
| Serialize.TextQuoted | Interpreter/Serialize.hpp:79-84 | the text is wrapped in double quotes exactly when it holds a space, tab or newline |
| Serialize.ScanSpaces | Interpreter/Serialize.hpp:73-78 | the scan finds a space exactly when the text holds a space, tab or newline |
| Serialize.Nibbles | Interpreter/Serialize.hpp:100 | a byte is its low nibble plus 16 times its high nibble |
| Serialize.Nibble | Interpreter/Serialize.hpp:100 | nibble i of the bytes, the low nibble of a byte first, is below 16 |
| Serialize.HexDigit | Interpreter/Serialize.hpp:101-104 | every nibble is written as an upper case hexadecimal digit that reads back as it |
| Serialize.RawHex | Interpreter/Serialize.hpp:98-105 | the raw loop writes one digit per nibble |
| Serialize.RawHexAt | Interpreter/Serialize.hpp:99-105 | digit i of the raw form is the digit of nibble i |
| Serialize.RawReads | Interpreter/Serialize.hpp:98-105 | the digits of whole bytes read back, two at a time, as those bytes |
| Serialize.UnpairHex | Interpreter/Serialize.hpp:100-104 | the two digits of a byte, low nibble first, read back as the byte |
| Serialize.NibbleCount | Interpreter/Serialize.hpp:72-98 | the nibbles of a blob's bits and its whole bytes lie inside its data |
| Serialize.EmptyForm | Interpreter/Serialize.hpp:108-111 | an empty blob is written as '#' and a numeral that reads back as its symbol |
| Serialize.RawHexDigits | Interpreter/Serialize.hpp:99-105 | every raw digit is upper case hexadecimal |
| Serialize.RawForm | Interpreter/Serialize.hpp:95-106 | a non-empty blob of no known type is written as "raw:" and one hexadecimal digit per started nibble |
| Serialize.Serializer.constructor | Interpreter/Serialize.hpp:57-60 | a serialiser into the blob of a symbol that has written nothing |
| Serialize.Serializer.IsEmpty | Interpreter/Serialize.hpp:11-13 | true exactly when nothing has been written |
| Serialize.Serializer.Reallocate | Interpreter/Serialize.hpp:16 | the blob takes the given size, keeping the bytes both sizes hold |
| Serialize.Serializer.Put | Interpreter/Serialize.hpp:20-26 | appends the byte; a full blob grows to the larger of the needed size and twice its size |
| Serialize.Serializer.Finalize | Interpreter/Serialize.hpp:15-18 | the blob shrinks to exactly the bytes written, and the symbol is returned |
| Serialize.Serializer.SerializeNumber | Interpreter/Serialize.hpp:28-55 | appends the decimal form of the integer |
| Serialize.Serializer.PutMagnitude | Interpreter/Serialize.hpp:41-54 | after the sign, appends the numeral of the magnitude |
| Serialize.Serializer.PutDigit | Interpreter/Serialize.hpp:47-53 | one round of the digit loop writes the leading digit and keeps the rest below the next mask |
| Serialize.Serializer.SerializeBlob | Interpreter/Serialize.hpp:64-112 | appends the form of the blob: the text for Text, the number for Natural and Integer, "raw:" and nibbles otherwise, '#' and the symbol for an empty blob |
| Serialize.Serializer.PutText | Interpreter/Serialize.hpp:71-85 | appends the text, quoted when it holds white space |
| Serialize.Serializer.PutAll | Interpreter/Serialize.hpp:81-82 | appends the bytes one after another |
| Serialize.Serializer.PutRaw | Interpreter/Serialize.hpp:95-106 | appends "raw:" and then the given number of hexadecimal nibbles |

## Left out

- File and mmap plumbing (VM/Page.hpp:30-77) is left out. `MapPages` sets the page count and keeps the pages that lie inside the truncated file; running out of address space is its precondition. A page missing from the page table reads as a zero page.
- The `debugPrint` output (VM/Page.hpp:119-127, 159-167) and the `Stats` struct are left out: they are diagnostics.
- Raw memory is modelled as bit sequences: `malloc`/`free`, the flexible `data[0]` arrays and `reinterpret_cast`. As in the source, `SetBlobSize` promises nothing about the bits a resize adds beyond the kept prefix.
- Integers are unbounded. The overflow guards in overwriteBlobPartial and insertIntoBlob (Storage/Blob.hpp:87-92, 130-132) therefore reduce to their length checks.
- Blob.MemCompare: memcmp is modelled as returning only -1, 0 or 1. Only its sign is ever used.
- Blob.BlobStore.CloneBlob: requires a non-empty source unless source and destination are the same. The source asserts on an empty blob's data, which is its only handling of that case.
- Containers.BlobIndex.Lower: locates the partition point only when "key sorts before the element" holds on a prefix of the index. On a content-ascending index that predicate, compareBlobs(key, element) < 0, holds on a suffix, so the model claims no ordering of the index.
- Containers.BlobIndex.Find: claims only that a find result has equal content, and that a miss at a valid position has different content. It does not claim that a miss means no equal content is stored.
- Containers.BlobIndex.InsertElement: releasing the duplicate symbol (Ontology::unlink of the argument, Ontology/Containers.hpp:157) is not modelled. The returned symbol and the unchanged index are.
- binarySearch is modelled as a generic method over a predicate that holds on a prefix. Its source is not part of this model.
- `Pages.PagePool` reads pool pages as values (`PoolPage`) in the page table. A pool operation writes a page by replacing its entry, which models the in-place update of `count`, `chain` and `references`.
- The templates' direction parameter is an argument, `dir` of type `Direction` (Forward, Fixed, Backward). The bitwiseCopy dispatch takes the aliasing test `dstBelowSrc` as an argument, because pointer comparison has no meaning on values.
- Ontology: `Storage::releaseSymbol` is recorded in `released`, not modelled as freeing. Sub-indices are their contents, not the identifiers of the blobs that hold them.
- Ontology: entries of `symbols` are never erased, as in the source. No claim of full reclamation is made.
- MonoIndex answers are not claimed equal to those of the other modes. Its fallback, searchVVV (Ontology/Triple.hpp:287-302), neither filters bound positions nor removes duplicates. So on MonoIndex "s is held" means "the index holds some triple".
- createFromData, createFromSlice and stringToBlob (Ontology/Triple.hpp:445-481, Ontology/Context.hpp:385-416) are not part of this model; they move external data into blobs.
- tryToFillPreDef (Ontology/Triple.hpp:483-497) and the Context constructor (Ontology/Context.hpp:427-436) are not part of this model; they load the predefined symbol names.
- Floating point is left out: the Float branch of serializeBlob (Interpreter/Serialize.hpp:92-94) and createFromData for doubles. `Serialize.Serializer.SerializeBlob` requires a non-Float type for a non-empty blob.
- valueSetCountIs and tripleExists (Ontology/Context.hpp:217-223) are one-line wrappers over query and are not modelled separately.
- getSymbolObject (Ontology/Context.hpp:366-371) is folded into the operations that call it, as their "Symbol is Nonexistent" failures.
- Contexts.Context.Unlink: after a failure it promises only that no entry was added or erased, no triple was added, and every triple removed was among those given. Which triples were processed before the missing one depends on std::set iteration order, which the model leaves open.
- The order of query callbacks is left open. The searches are modelled by the set of triples they report, each once, while the source visits the members of std::set and BlobSet in ascending order.
- Ontology.Index.GetUncertain: with several values the out-value is claimed only to be one of them. The source leaves the last value visited, which is the largest, and the model leaves the callback order open.
- Contexts.Context.GetUncertain: with several values the out-value is claimed only to be one of them. The source leaves the largest, for the same reason.
- HuffmanEncoder.PopLightest: BlobHeap's tie order is not part of this model. Any lightest element may be popped, and the codec's properties are proved for every tree this allows.
- HuffmanEncoder.BuildTree: the tree is not claimed to give minimal weighted code length. What is proved is that each round merges two lightest nodes and that the result is a tree over all symbols.
- The BVL natural coder (External/BinaryVariableLength.hpp) is not part of this model. Its naturals form the separate stream `tokens`, and code bits form `blob`.
- The Huffman destructors (External/Huffman.hpp:130-132, 194-197) only free storage and are not modelled.
- Serialize.Serializer.SerializeNumber: integers are unbounded. The 64-bit overflow of `mask *= 10` for magnitudes of 10^19 and more, and of `number *= -1` for the most negative int64, are not modelled.
- serializeEntity (Interpreter/Serialize.hpp:114-154) and the Serialize constructors (Interpreter/Serialize.hpp:57-62) are not part of this model. They depend on Thread, whose source is not part of this model. `Serialize.Serializer.constructor` starts from a given blob.
- Interpreter/Task.hpp is not part of this model. It is VM step logic built on the operations above.

## Findings

| source | as written | input that shows it | evidently intended | confidence | as-written member | corrected member |
|---|---|---|---|---|---|---|
| Ontology/Triple.hpp:397-398 | on HexaIndex, unlink(Symbol) empties only the forward sub-indices 0-2 of the symbol; its loops skip the symbol's own entry, so the inverse sub-indices 3-5 keep their triples | HexaIndex holding (s, a, v); unlink(s) leaves (s, a, v) listed in s's EVA sub-index while EAV no longer has it | all six sub-indices of the symbol emptied, leaving a consistent index | medium, not executed | Ontology.HexaUnlinkLeaves | Ontology.Index.UnlinkSymbol |
| Ontology/Triple.hpp:352, 368-369 | unlink(Triple) calls tryToReleaseSymbol on all three positions, which asserts that the symbol has an entry; on MonoIndex only entities get entries | MonoIndex: link((1, 2, 3)) and then unlink((1, 2, 3)); symbol 2 has no entry and the assertion fails | a symbol without an entry is left alone | high, not executed | Ontology.MonoUnlinkUnindexed | Ontology.Index.TryToReleaseSymbol |
| Ontology/Triple.hpp:352, 417-422 | setSolitary passes the displaced values, the attribute and (without linkVoid) the entity to tryToReleaseSymbol, which asserts an entry; on MonoIndex attributes and values get none, and for a Void value nothing is linked, so on any mode an attribute that occurs in no triple has none | MonoIndex holding (1, 2, 3): setSolitary((1, 2, 4)) passes 2 and 3, neither with an entry, and the assertion fails | a symbol without an entry is left alone | high, not executed | Ontology.MonoSetSolitaryUnindexed | Ontology.Index.SetSolitary |
| Ontology/Triple.hpp:436-441 | scrutinizeExistence asserts that unlink(symbol) succeeds for every unheld symbol, but unlink returns false for a symbol without an entry | HexaIndex: scrutinizeExistence of a freshly created symbol that was never linked; nothing holds it, unlink returns false and the assertion fails | a symbol without an entry is released and passed over, as Context.hpp's version skips it | medium, not executed | Ontology.UnindexedUnheld | Ontology.Index.ScrutinizeExistence |
| Ontology/Triple.hpp:291-300 | the MonoIndex query callback compacts searchVVV's working triple in place; searchVVV rewrites position 1 only on a new beta, so later results of the same beta see the compacted value | MonoIndex, mode 14, triples (e, a, v1) and (e, a, v2) with v1 != a: the second result carries v1 where a belongs | each result holds the triple's varying positions, in order | high, not executed | Triples.MonoCompactionStale | Triples.CompactedVarying |
| Ontology/Context.hpp:190-204 | Context's MonoIndex query callback compacts the working triple in place exactly as Triple.hpp's does, and its searchVVV (Ontology/Context.hpp:123-139) rewrites position 1 only on a new beta | MonoIndex, mode 14, triples (e, a, v1) and (e, a, v2) with v1 != a: the second result carries v1 where a belongs | each result holds the triple's varying positions, in order | high, not executed | Triples.MonoCompactionStale | Triples.CompactedVarying |
