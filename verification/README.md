# The container library, modelled and proved in Dafny

The repository's programs collect and report the state of network devices. They run on a small
container library in `lib/`: an intrusive hash table, string sets and maps built on it, an
intrusive linked list, a word-mixing hash, sorted string vectors and a growing string buffer with
several printers. This project models that library and proves what its users rely on. The command
`dafny verify dfyconfig.toml` (Dafny 4.11) checks all of it.

The code changes structures in place, and so do the classes here: table, bucket array, chain links,
list links, vector and buffer are heap objects, and each method says what it changes and what its
new state is. Specification state (the chains of a table, the order of a list) is ghost. Hashes, masks
and node counts of tables, hash words, bytes, dump offsets and the fields of a position have the
range of their C types, and truncation is written out where it happens. Lengths and capacities of
buffers, vectors and lists are unbounded, because memory bounds them.

| file | content |
|---|---|
| Words.dfy | bit operations on `size_t`, powers of two, calc_mask |
| Sequences.dfy, Sorting.dfy, Tokens.dfy, ByteStrings.dfy | sequences, qsort's contract, strtok_r and joining, C strings and strcmp |
| HashMap.dfy | the hash table: links, buckets, rehashing, swapping |
| Traversal.dfy, Cursors.dfy | lookups, iteration, deletion while iterating; the resumable position |
| TableRuns.dfy, TablePairs.dfy | whole runs: load factor and cost of one table, well-formedness of two that are swapped |
| Sset.dfy, SsetOps.dfy, SsetText.dfy, SsetRuns.dfy | string sets |
| Shash.dfy, ShashOps.dfy | string maps |
| LinkedRing.dfy | the doubly linked list |
| Mhash.dfy, HashBytes.dfy | the word mixer and the hashes of byte and word arrays |
| Svec.dfy, SvecDiff.dfy | string vectors and their three-way comparison |
| DynamicString.dfy, Utf8.dfy, Printers.dfy, HexDump.dfy, HexLines.dfy | the string buffer and its printers |

Where comments and code disagree, the model follows the code:

- `ds_put_utf8` (lib/dynamic-string.c:68-91) also encodes surrogates, which UTF-8 as RFC 3629
  defines it does not allow. `Utf8.DecodeEncodeAll` therefore holds exactly for sequences without
  surrogates, and says what happens to the others.
- The position of `hmap_at_position` (lib/hmap.c:202-233) has 32-bit fields. On a table too large for
  them the traversal goes round in circles; `Cursors.CursorRuns` gives the exact
  condition, and `Cursors.TooLargeTable` reaches such a table with two calls.
- The comment in `hash_boolean` (lib/hash.h:334-339) says that its constants are values of `hash_int`.
  With the mixer of this file neither is (`HashBytes.HashBooleanConstants`).

Two arguments run through the whole project. A traversal that deletes is followed by
`Traversal.Ahead`: the rest of the order fixed at the start is always what is still ahead in the
table as it is now. An index is related to the simple thing it speeds up by an invariant over its nodes
(`StringSet.Indexed`, `StringMap.Stored`), under an arbitrary hash function.

## Model

| member | source | states |
|---|---|---|
| `Words.CalcMask` | lib/hmap.c:122-140 | The six or-shift steps and the final `(mask & 1) << 1` step compute `MaskFor(capacity)`, for every `size_t`. |
| `Words.MaskForIsLeast` | lib/hmap.c:122-140 | `MaskFor(capacity)` is the least of 0, 3, 7, 15, ... that is at least `capacity / 2`, for every capacity. |
| `Words.SizeOfMask` | lib/hmap.c:122-140 | The mask for any `size_t` capacity leaves room to count its buckets. |
| `Words.AndMaskIsMod` | lib/hmap.h:236-244 | `hash & mask`, for a mask of the form 2^k - 1, is `hash` modulo the number of buckets. |
| `HashMap.SlotIsRemainder` | lib/hmap.h:236-244 | The bucket of a hash is its remainder by the number of buckets, for every hash and every legal mask. |
| `Words.Smear` | lib/hmap.c:122-140 | One step `x |= x >> w` doubles the guaranteed run of ones below the top bit. |
| `Words.SetSecondBit` | lib/hmap.c:122-140 | The last step of calc_mask turns the mask 1 into 3 and leaves every other mask alone. |
| `HashMap.Acyclic` | lib/hmap.h:12-49 | A chain that leads to null visits no node twice: well-formedness of the links alone excludes cycles. |
| `HashMap.Hmap.constructor` | lib/hmap.c:10-17 | A new table is well formed and empty, with mask 0 and the embedded bucket. |
| `HashMap.Hmap.InsertFast` | lib/hmap.h:236-244 | The node goes to the head of the chain `hash & mask`, whose number is the remainder of the hash by the number of buckets; every other chain, the mask and the buckets stay; the table stays well formed. |
| `HashMap.Hmap.FindLink` | lib/hmap.h:263-272 | The loop over `bucket = &(*bucket)->next` terminates at the one link that designates the node, which is nowhere else in the table. |
| `HashMap.Hmap.Remove` | lib/hmap.h:263-272 | Exactly this node leaves its chain, by one link update; the other nodes keep chain and order, and the removed node keeps its `next`. |
| `HashMap.Hmap.Replace` | lib/hmap.h:281-292 | The new node takes the position and the hash of the old one on the same chain; nothing else changes. |
| `HashMap.Hmap.NodeMoved` | lib/hmap.c:183-192 | The link to the old address is redirected to the copy. The old node's memory may hold anything by then: the precondition says nothing about it, and it is not written. |
| `HashMap.Hmap.Clear` | lib/hmap.c:36-43 | No nodes, every bucket null, mask and bucket array kept. |
| `HashMap.Hmap.Moved` | lib/hmap.c:58-64 | A `buckets` that may still designate another structure's embedded bucket is repaired: it is this structure's own iff the mask is 0 again. |
| `HashMap.Hmap.Swap` | lib/hmap.c:46-54 | Copying the structures whole and repairing both exchanges the contents; `buckets == &one` iff `mask == 0` holds again in both, also for a table swapped with itself. The storage condition alone suffices, so resize may use it on a table whose chains are already taken apart. |
| `HashMap.Hmap.TakeChain` | lib/hmap.c:66-104 | The inner loop of resize relinks every node of a chain once, although `next` of the nodes it has still to visit must survive the relinking. |
| `HashMap.Hmap.MoveChains` | lib/hmap.c:66-104 | The nested loops move every node of the old table to the new one; `moved` counts them and equals `n`. |
| `HashMap.Hmap.Resize` | lib/hmap.c:66-120 | To any legal mask, larger or smaller: the same nodes with the same hashes, the same `n`, every node relinked once, well formed under the new mask. |
| `HashMap.Hmap.Expand` | lib/hmap.c:145-152 | Never takes buckets away; afterwards there is at least one bucket for two nodes. If that was so before, nothing changes (but a mask of 1 becomes 3); otherwise there are 4 buckets, or no more than nodes. |
| `HashMap.Hmap.Shrink` | lib/hmap.c:157-164 | Never adds buckets; afterwards there are at most 4, or no more than nodes, and for at most one node only the embedded one. It never shrinks below one bucket for two nodes. |
| `HashMap.Hmap.Reserve` | lib/hmap.c:172-179 | The same as Expand, for the given capacity instead of `n`. |
| `HashMap.ExpandedMaskBounds` | lib/hmap.c:145-179 | The mask that expanding or reserving leaves, between bounds that leave only one of the masks 0, 3, 7, 15, ... |
| `HashMap.ShrunkMaskBounds` | lib/hmap.c:157-164 | The mask that shrinking leaves, in the same way. |
| `HashMap.InsertMaskBounds` | lib/hmap.h:252-259 | The mask that an insertion leaves, in the same way. |
| `HashMap.Hmap.Insert` | lib/hmap.h:252-259 | One more node; rehashes iff `n / 2` exceeds the mask, then relinks all `n` nodes and leaves 4 buckets, or more but no more than nodes. |
| `Traversal.OrderNoDup` | lib/hmap.h:347-381 | The traversal order (bucket by bucket, each chain from its head) repeats no node: chains are pairwise disjoint. |
| `Traversal.OrderListsNodes` | lib/hmap.h:347-381 | The traversal order lists exactly the nodes of the table, and chain lengths sum to `n`. |
| `Traversal.FirstFrom` | lib/hmap.h:347-358 | The node at which the traversal resumes at a bucket, or null. |
| `Traversal.First` | lib/hmap.h:362-366 | Element 0 of the traversal order, or null. |
| `Traversal.Next` | lib/hmap.h:368-381 | What follows the node in the traversal order, or null; also for a node that was just removed, whose `next` still leads there. |
| `Traversal.RemoveAtPosition` | lib/hmap.h:263-272 | Removing a node deletes one position of the traversal order and moves no other node; the removed node still leads to what is now at its position. |
| `Traversal.ForEachSafe` | lib/hmap.h:154-164 | The safe traversal visits every node present at the start exactly once, in order, whichever current nodes its body removes and frees, even if their memory is reused at once; what is left is the rest. |
| `Traversal.ForEach` | lib/hmap.h:146-155 | The plain traversal tolerates removal too: it visits every node present at the start exactly once, in order, whichever current nodes its body removes first, as long as their memory stays as it is. |
| `Traversal.PopHelper` | lib/hmap.h:176-189 | Removes and returns the first node in traversal order, and keeps the bucket index at or before the next one. |
| `Traversal.ForEachPop` | lib/hmap.h:176-195 | The pop loop returns every node once, in traversal order, and leaves the table empty. |
| `Cursors.AtPosition` | lib/hmap.c:202-233 | Returns the node that a position designates, for every position, also one that designates no node; the new position's fields are truncated to 32 bits. |
| `Cursors.DesignatesFirst` | lib/hmap.c:202-233 | The designated position is the first that lies in a later bucket than the cursor names, or in its bucket and not before its offset; the end if there is none. |
| `Cursors.CursorRuns` | lib/hmap.c:202-233 | The calls from position (0, 0) list every node once, in traversal order, then null, and end at (0, 0), if no nonempty bucket is numbered 2^32 - 1 or more and no chain has more than 2^32 nodes; on any other table they never return null and find some node a second time within `n` calls. |
| `Cursors.BucketTooLarge` | lib/hmap.c:202-233 | A nonempty bucket numbered 2^32 - 1 or more sends the position back. |
| `Cursors.OffsetTooLarge` | lib/hmap.c:202-233 | A chain of more than 2^32 nodes sends the position back. |
| `Cursors.TooLargeTable` | lib/hmap.c:173-180 | Reserving room for 2^33 nodes and inserting a single node with the largest 32-bit hash reaches a table on which the calls go round in circles. |
| `Cursors.Calls` | lib/hmap.c:202-233 | Any number of calls return the nodes at the positions of that run. |
| `Cursors.Enumerate` | lib/hmap.c:202-233 | The loop that calls until null visits every node once, in traversal order, and leaves (0, 0). |
| `Traversal.NextWithHashFrom` | lib/hmap.h:294-301 | The first node of the rest of a chain that has the hash, or null if none has. |
| `Traversal.FirstWithHash` | lib/hmap.h:305-309 | A node with the hash, or null iff no node of the whole table has it: an answer that depends on the nodes and their hashes only, so no rehashing changes it. |
| `Traversal.NextWithHash` | lib/hmap.h:334-345 | The first node with the same hash in the part of the chain that the node leads to, or null iff there is none; also for a node that was removed. |
| `Traversal.LookUpTwice` | lib/hmap.c:66-120 | A hash is found before a rehash to any mask iff it is found after it. |
| `StringSet.FindTwice` | lib/sset.c:20-31 | Looking up a name before and after a rehash to any mask finds the same node, or none both times. |
| `Traversal.HashedOnChain` | lib/hmap.h:294-309 | A node is in the table iff it is on the chain of its own hash, under any mask: searching one chain loses nothing. |
| `Traversal.Contains` | lib/hmap.c:236-248 | True iff the node is in the table. |
| `TableRuns.LoadFactor` | lib/hmap.h:218-222 | After every run of insertions, removals, clear, expand, shrink and reserve, `n <= 2 * mask + 1`. |
| `TableRuns.SpentExactly` | lib/hmap.h:252-259 | With insertions and removals only, the number of nodes relinked so far is a function of the present mask. |
| `TableRuns.InsertsCounted` | lib/hmap.h:252-259 | The insertions counted for the cost bound are those of the run. |
| `TableRuns.RehashPoints` | lib/hmap.h:252-259 | With insertions and removals only, an insertion rehashes iff it exceeds the capacity; the table then has 2, 8, 16, 32, ... nodes, and its new mask is 3, 7, 15, 31, ... |
| `TableRuns.AmortizedRehash` | lib/hmap.h:252-259 | Over any such run, rehashing relinks at most two nodes for each insertion. |
| `TableRuns.Replay` | lib/hmap.h:236-272 | Executing any legal run keeps the table well formed, gives exactly the expected nodes, `n` and mask, and meets both bounds. |
| `TablePairs.Run` | lib/hmap.h:236-292 | Every legal run of insert, insert_fast, remove, replace, node_moved, clear, expand, shrink, reserve and swap on two tables keeps both well formed, with exactly the nodes each should have, and, without insert_fast, within their capacity. |
| `TablePairs.PairsWithinCapacity` | lib/hmap.h:218-222 | The capacity bound holds for both tables after every such run, whatever is swapped. |
| `LinkedRing.ListNode.constructor` | lib/list.h:112-116 | A ring of one. |
| `LinkedRing.Rotate` | lib/list.h:31-37 | A ring entered at another node is a ring. |
| `LinkedRing.Detach` | lib/list.h:138-155 | The first half of a splice closes the ring behind the segment. |
| `LinkedRing.Attach` | lib/list.h:138-155 | The second half of a splice opens the ring before a node and links the segment in. |
| `LinkedRing.Splice` | lib/list.h:138-155 | Moves [first, last) to just before any node outside it, in the same ring or in another: both stay rings, the segment keeps its order, and no node is lost or repeated. An empty segment changes nothing. |
| `LinkedRing.Insert` | lib/list.h:127-134 | The element is linked in before a node. |
| `LinkedRing.PushFront` | lib/list.h:159-163 | The element becomes the first. |
| `LinkedRing.PushBack` | lib/list.h:167-171 | The element becomes the last. |
| `LinkedRing.Replace` | lib/list.h:175-182 | One node takes the place of another, also in a ring of one. |
| `LinkedRing.Moved` | lib/list.h:192-200 | After a node is copied and its old memory reused, the ring goes through the copy, also if it was alone. |
| `LinkedRing.Move` | lib/list.h:205-210 | A list keeps its elements under a new head, also if it is empty. |
| `LinkedRing.Remove` | lib/list.h:214-220 | Exactly this node leaves the ring; its successor is returned. |
| `LinkedRing.PopFront` | lib/list.h:224-231 | Removes and returns the first element. |
| `LinkedRing.PopBack` | lib/list.h:235-242 | Removes and returns the last element. |
| `LinkedRing.Size` | lib/list.h:270-280 | The number of elements. |
| `LinkedRing.Tests` | lib/list.h:283-301 | `next == list`, `next == prev` and both together decide none, at most one and exactly one element. |
| `LinkedRing.PushBackAll` | lib/list.h:304-308 | All of the source is appended to the destination, in order, and the source is left empty. |
| `StringSet.Sset.FindHashed` | lib/sset.c:20-31 | Hash first, then name: finds a node iff the name is in the set, for every hash function. |
| `StringSet.Sset.AddNode` | lib/sset.c:33-40 | One new node for a new name. |
| `StringSet.Sset.Add` | lib/sset.c:153-162 | Adds the name; null iff it was there. |
| `StringSet.Sset.Delete` | lib/sset.c:207-212 | Exactly the node's name leaves the set, whatever becomes of the node's memory. |
| `StringSet.Sset.Find` | lib/sset.c:253-257 | The node of the name, or null iff the name is not in the set. |
| `StringSet.Sset.Contains` | lib/sset.c:260-264 | Membership. |
| `StringSet.Sset.FindAndDelete` | lib/sset.c:216-224 | Removes the name; true iff it was there. |
| `StringSet.NamesCount` | lib/sset.c:145-149 | The node count is the number of names. |
| `StringSetOperations.Clear` | lib/sset.c:196-204 | Deleting and freeing each current node while traversing empties the set. |
| `StringSetOperations.Intersect` | lib/sset.c:304-314 | Deleting and freeing while traversing leaves exactly the intersection, and the other set unchanged; also for a set with itself. |
| `StringSetOperations.Pop` | lib/sset.c:242-249 | Takes some name out of a nonempty set. |
| `StringSetOperations.Clone` | lib/sset.c:60-70 | A set of the same names in memory of its own. |
| `StringSetOperations.Equals` | lib/sset.c:267-283 | The count and a one-way inclusion test decide equality. |
| `StringSetText.Array` | lib/sset.c:320-337 | Pointers to all names, once each, then a null pointer. |
| `StringSetText.Sort` | lib/sset.c:352-358 | All names, each before the next in a dictionary whose letters are the byte values, then a null pointer. |
| `StringSetText.JoinNames` | lib/sset.c:116-134 | The names in that ascending order, delimited and terminated; the result depends on the set only. |
| `StringSetText.StrTok` | lib/sset.c:91-104 | The next token and the string that has the other tokens, or none. |
| `StringSetText.FromDelimitedString` | lib/sset.c:91-104 | The set of the tokens of the string. |
| `StringSetText.RoundTrip` | lib/sset.c:91-134 | Splitting what was joined gives the same set, if names are nonempty without delimiter characters, the joiner is nonempty and joiner and terminator are delimiters only. |
| `Tokens.TokensAreMaximalRuns` | lib/sset.c:91-104 | The tokens are the maximal runs of bytes that are not delimiters: all of them, in order. |
| `Tokens.SplitJoin` | lib/sset.c:91-134 | The tokens of a joined sequence are that sequence, under the same conditions. |
| `Tokens.JoinAppend` | lib/sset.c:116-134 | Exactly one delimiter, and nothing else, comes between two parts of a joined sequence; one name joins to itself, none to nothing. |
| `StringSetRuns.Run` | lib/sset.c:153-264 | Every run of add, contains, find-and-delete and clear, under every hash function, answers as a set of strings does. |
| `ByteStrings.PrefixTestIsEquality` | lib/shash.c:199-211 | `!strncmp(x, name, len) && !x[len]` decides equality and reads `x` only up to its terminator. |
| `ByteStrings.StrCmpTransitive` | lib/shash.c:263-269 | The order of strcmp is transitive. |
| `ByteStrings.StrCmpOrder` | lib/shash.c:263-269 | strcmp is negative iff, after a common start, the first string ends or has the smaller byte. |
| `ByteStrings.SortedOrder` | lib/svec.c:102-115 | A list sorted by strcmp is one in which no string comes in the dictionary before one that it follows; strictly, one in which each comes before all that follow. |
| `ByteStrings.StrCmpEqual` | lib/sset.c:20-31 | strcmp gives zero only for equal strings. |
| `StringMap.Shash.FindHashed` | lib/shash.c:199-211 | Finds a node of that name iff there is one, for every hash function; some one of them if names are not unique. |
| `StringMap.Shash.Find` | lib/shash.c:214-226 | A node of that name, or null iff there is none; with unique names, the one with the data of the key. |
| `StringMap.Shash.FindData` | lib/shash.c:228-233 | The data of the key, or null. |
| `StringMap.Shash.AddNode` | lib/shash.c:92-100 | One more node, whether or not the name is new; if it is, the map gains that entry. |
| `StringMap.Shash.Add` | lib/shash.c:104-116 | The same for shash_add, which does not look for the name first. |
| `StringMap.Shash.AddOnce` | lib/shash.c:118-127 | Adds iff the key is new, and tells so. |
| `StringMap.Shash.Replace` | lib/shash.c:138-153 | The key now has the new data; returns the data it had, or null. |
| `StringMap.Shash.Steal` | lib/shash.c:180-197 | Exactly the node's entry leaves the map, whatever becomes of the node's memory, and its name is returned. |
| `StringMap.Shash.FindAndDelete` | lib/shash.c:235-246 | Removes the key; returns the data it had, or null. |
| `StringMapOperations.Clear` | lib/shash.c:54-64 | Removing and freeing each current node while traversing empties the map. |
| `StringMapOperations.Sort` | lib/shash.c:271-293 | All nodes, each key before the next in that dictionary, or null for an empty map. |
| `StringMapOperations.EqualKeys` | lib/shash.c:297-311 | The count and a one-way inclusion test decide equality of the key sets. |
| `StringMapOperations.Run` | lib/shash.c:118-246 | Every run of add-once, replace, find-data, find-and-delete and clear, under every hash function, answers as a finite map does. |
| `Mhash.RotateBack15` | lib/hash.h:14-18 | hash_rot by 15 and by 17 undo each other. |
| `Mhash.RotateBack13` | lib/hash.h:14-18 | hash_rot by 13 and by 19 undo each other. |
| `Mhash.ZeroShortcut` | lib/hash.h:45-56 | The shortcut for zero data computes what the general case would. |
| `Mhash.AddBijectiveInHash` | lib/hash.h:58-63 | mhash_add with fixed data is a bijection of hashes. |
| `Mhash.AddBijectiveInData` | lib/hash.h:58-63 | mhash_add to a fixed hash is a bijection of data. |
| `Mhash.UnfinishFinish` | lib/hash.h:65-102 | hash_finish with a fixed length has a left inverse, |
| `Mhash.FinishUnfinish` | lib/hash.h:65-102 | which is a right inverse too: it is a bijection. |
| `HashBytes.HashAddWords` | lib/hash.h:346-353 | The loop adds the words in order. |
| `HashBytes.HashAddWords64` | lib/hash.h:355-362 | The loop over 64-bit words adds their low and high halves in order. |
| `HashBytes.HashWords64` | lib/hash.h:94-119 | hash_words64 over n words equals hash_words over the 2n halves. |
| `HashBytes.LowHigh` | lib/hash.h:94-97 | The two halves of a 64-bit word, put together again, are the word. |
| `HashBytes.HalvesAt` | lib/hash.h:355-362 | The low half of each word comes before its high half, and the words keep their order. |
| `HashBytes.Hash` | lib/hash.c:16-38 | hash_bytes adds the little-endian words of the string, the last one padded with zeros, and finishes with the length. |
| `HashBytes.ImageOfWords` | lib/hash.c:16-38 | For every length, the words that are hashed are the bytes of the string in order, followed by as many zeros as complete the last word. |
| `HashBytes.HashVectors` | lib/hash.h:35-56 | Two published test vectors of MurmurHash3_x86_32, and the hash of a two-byte name. |
| `HashBytes.Low32Same` | lib/hash.c:16-38 | The length enters the hash modulo 2^32, |
| `HashBytes.Low32Value` | lib/hash.c:16-38 | and below 2^32 as it is. |
| `HashBytes.OneWordGives` | lib/hash.h:346-353 | Whatever the other words are, exactly one value of any one word gives each hash. |
| `HashBytes.OneBlockDecides` | lib/hash.c:16-38 | Strings of one length that differ only in one aligned block of four, or only in the tail, hash alike iff they are equal; for every basis and length. |
| `HashBytes.ShortNames` | lib/hash.c:16-38 | Names of one length of at most four bytes hash alike iff they are equal. |
| `HashBytes.OneBlockGives` | lib/hash.c:16-38 | For each of the 2^32 hashes exactly one value of a full block gives it. |
| `HashBytes.TwoBlocksCollide` | lib/hash.c:16-38 | The promise stops at one block: every string of eight bytes or more has a collision that differs in its first two blocks only. |
| `HashBytes.BasisDecides` | lib/hash.c:16-38 | For a fixed string the hash is a bijection of the basis. |
| `HashBytes.BytesHashOfWords` | lib/hash.c:16-38 | hash_bytes over the memory of an array of words is hash_words over the array. |
| `HashBytes.WordsHashOfBytes` | lib/hash.h:109-113 | hash_bytes over 4k bytes is hash_words over their k little-endian words. |
| `HashBytes.Hash3WordsIsWordsHash` | lib/hash.c:9-13 | hash_3words(a, b, c) is hash_words over 0, b, c with basis a. |
| `HashBytes.Hash2WordsIsWordsHash` | lib/hash.h:134-137 | hash_2words(x, y) is hash_words over 0, y with basis x. |
| `HashBytes.Hash3WordsDecides` | lib/hash.c:9-13 | hash_3words is injective in each argument. |
| `HashBytes.HashBooleanConstants` | lib/hash.h:332-339 | The constants of hash_boolean are not hash_int(1, 0) and hash_int(2, 0), which its comments say they are. |
| `StringVector.Svec.Expand` | lib/svec.c:69-76 | Room for one more; a full vector doubles. |
| `StringVector.Svec.AddNocopy` | lib/svec.c:78-83 | The pointer is appended, across growth. |
| `StringVector.Svec.Add` | lib/svec.c:49-53 | The name is appended. |
| `StringVector.Svec.Append` | lib/svec.c:85-92 | All names of the other vector are appended. |
| `StringVector.Svec.Terminate` | lib/svec.c:94-99 | A null pointer follows the names, which do not change. |
| `StringVector.Svec.Del` | lib/svec.c:55-67 | One occurrence of the name goes, if there is one, whichever occurrence bsearch finds; the rest stays sorted. |
| `StringVector.Svec.Find` | lib/svec.c:222-231 | Some index of the name, or SIZE_MAX iff there is none. |
| `StringVector.Svec.Contains` | lib/svec.c:216-220 | Membership. |
| `StringVector.Svec.Sort` | lib/svec.c:109-115 | A permutation in which no name comes in the dictionary before one that it follows. |
| `StringVector.Svec.IsSorted` | lib/svec.c:233-244 | Comparing neighbours decides sortedness. |
| `StringVector.Svec.GetDuplicate` | lib/svec.c:252-265 | Null iff all names differ; otherwise a name that occurs twice. |
| `StringVector.Svec.IsUnique` | lib/svec.c:246-250 | True iff all names differ. |
| `StringVector.Svec.Unique` | lib/svec.c:124-144 | The same names, each once, strictly ascending. |
| `StringVector.Svec.SortUnique` | lib/svec.c:117-122 | The same for a vector that need not be sorted. |
| `StringVector.Svec.Compact` | lib/svec.c:146-157 | Keeps the pointers that are not null, in order, in place. |
| `StringVector.NonNullKeeps` | lib/svec.c:146-157 | Compacting removes all null pointers and nothing else. |
| `StringVector.NonNullAppend` | lib/svec.c:146-157 | Compacting keeps the order: two parts are compacted one after the other. |
| `StringVector.Svec.Swap` | lib/svec.c:267-273 | Exchanges the structures. |
| `StringVector.Equal` | lib/svec.c:286-300 | True iff the names are the same in the same order. |
| `StringVectorDiff.Diff` | lib/svec.c:167-214 | Each requested output lists, in order, its multiset: the names of the first input less those of the second, the names of both, the names of the second less those of the first; whatever others are requested. The inputs are unchanged. |
| `StringVectorDiff.DiffParts` | lib/svec.c:167-214 | For sorted inputs, duplicates allowed: the parts are the two multiset differences and the multiset intersection, all sorted; each input is its own part plus the common one. |
| `StringVectorDiff.DiffSymmetric` | lib/svec.c:167-214 | Exchanging the inputs exchanges the one-sided outputs. |
| `StringVectorDiff.JoinNames` | lib/svec.c:302-318 | The names in order, delimited and terminated. |
| `Sorting.StrictlySortedUnique` | lib/sset.c:352-358 | A set of strings has exactly one strictly ascending list, so sorting and joining a set have one possible result. |
| `Sorting.SortedUnique` | lib/svec.c:109-115 | Sorting strings has only one possible result. |
| `DynamicString.Ds.Reserve` | lib/dynamic-string.c:40-48 | Room for the length; contents kept; a new buffer holds eight bytes, twice the old, or the old and the length together, whichever is most. |
| `DynamicString.Ds.PutUninit` | lib/dynamic-string.c:53-60 | Space at the end, terminated; the contents before it kept. |
| `DynamicString.Ds.PutChar` | lib/dynamic-string.h:70-79 | The byte is appended, by the fast path or the slow one. |
| `DynamicString.Ds.PutBuffer` | lib/dynamic-string.c:99-110 | The bytes are appended. |
| `DynamicString.Ds.PutFormat` | lib/dynamic-string.c:119-154 | The expansion is appended whole, whether or not the first vsnprintf had room for it. |
| `DynamicString.Ds.Truncate` | lib/dynamic-string.c:28-35 | At most the given length is kept. |
| `DynamicString.Ds.Cstr` | lib/dynamic-string.c:307-315 | The contents, terminated. |
| `DynamicString.Ds.StealCstr` | lib/dynamic-string.c:326-332 | The contents; the buffer is empty again. |
| `DynamicString.Ds.Last` | lib/dynamic-string.c:428-432 | The last byte, or EOF. |
| `DynamicString.Ds.Chomp` | lib/dynamic-string.c:434-443 | Removes one final byte iff it is the given one. |
| `DynamicString.Ds.Clone` | lib/dynamic-string.c:445-452 | A copy in memory of its own. |
| `Utf8.PutUtf8` | lib/dynamic-string.c:69-91 | The shifts and masks append the one to four bytes of the encoding; a negative argument is cut to a byte, one above 0x10ffff becomes U+FFFD. |
| `Utf8.PutAll` | lib/dynamic-string.c:69-91 | Putting a sequence of code points one by one appends their encodings. |
| `Utf8.PutText` | lib/dynamic-string.c:69-91 | A buffer that decodes by the grammar of section 4 of RFC 3629 then decodes to what it had, followed by the code points that were put, replaced where too large, if none of them is a surrogate; with a surrogate it does not decode. |
| `Utf8.DecodeEncodeAll` | lib/dynamic-string.c:69-91 | The decoder returns the encoded sequence, replaced where too large, iff it has no surrogate; otherwise it fails. |
| `Utf8.DecodeAppend` | lib/dynamic-string.c:69-91 | What follows decodable text does not change how that text decodes. |
| `Utf8.EncodeDecodeAll` | lib/dynamic-string.c:69-91 | Whatever that decoder accepts is what ds_put_utf8 writes for the scalar values it returns. |
| `Printers.PutPrintable` | lib/dynamic-string.c:156-168 | Appends the escaped bytes, across all growth of the buffer. |
| `Printers.UnescapeEscape` | lib/dynamic-string.c:156-168 | An octal unescaper recovers every byte string. |
| `Printers.EscapeAllIsPrintable` | lib/dynamic-string.c:156-168 | Only bytes 0x20 to 0x7e, no quote, between n and 4n of them; unchanged iff all bytes are 0x20 to 0x7e and none is a backslash (0x5c) or a quote (0x22). |
| `Printers.EscapeAllAppend` | lib/dynamic-string.c:156-168 | Whether a byte is escaped does not depend on its neighbours. |
| `Printers.PutHex` | lib/dynamic-string.c:349-370 | The bytes as one big-endian hexadecimal number without leading zeros. |
| `Printers.NumberIs` | lib/dynamic-string.c:349-370 | Zero is `0`; any other number is `0x` and lower-case digits that spell it, the first of them not zero. |
| `Printers.BigEndianCons` | lib/dynamic-string.c:349-370 | The first byte is the most significant: it is worth 256 to the power of the number of bytes after it. |
| `Printers.NumberInjective` | lib/dynamic-string.c:349-370 | The text determines the number. |
| `Printers.HexValueHex` | lib/dynamic-string.c:349-370 | Reading the digits of a number gives the number. |
| `HexDump.PutHexDump` | lib/dynamic-string.c:376-426 | Appends the lines of the dump, the offset wrapping as `uintptr_t` does. |
| `HexDump.ReadDump` | lib/dynamic-string.c:376-426 | A reader that reports each cell's line, label and column finds every byte once, in order, in column (ofs + k) mod 16 of the line labelled with ofs + k rounded down to 16, all bytes with one label on one line and the next label on the next; for any start, any length, with and without characters. |
| `HexDump.ReadPlainLine` | lib/dynamic-string.c:376-426 | The same for one line without characters, whether its final separator was chomped or was a dash and stays. |
| `HexDump.DumpDetermines` | lib/dynamic-string.c:376-426 | A nonempty dump determines the bytes and the first address, whatever was chosen for the characters. |
| `HexLines.LineParts` | lib/dynamic-string.c:394-416 | A line with characters is a label, two spaces, sixteen columns, a bar, sixteen characters and a bar. |
| `HexLines.LabelIs` | lib/dynamic-string.c:395-396 | The label spells its address in hexadecimal, with eight digits unless it needs more. |
| `HexLines.ColumnsAre` | lib/dynamic-string.c:397-407 | Column j holds the two digits of its byte and a separator, a dash after column 7 and a space otherwise, or three spaces if it has no byte. |
| `HexLines.CharsAre` | lib/dynamic-string.c:407-416 | Character j is the byte of column j if that is 0x20 to 0x7e, a dot if it is any other byte, and a space if there is none. |
| `HexLines.PlainLine` | lib/dynamic-string.c:417-419 | A line without characters is the same line up to its last cell, whose separator stays only if it is the dash. |

## Left out

- The programs in `src/`: netlink, sysrepo, libyang, libxml, cJSON, D-Bus and popen are calls into code that is not here.
- `lib/log.c` and the destroy helpers. Freeing a table node is modelled as its fields taking arbitrary values (`HashMap.Node.Free`); freeing names, arrays and buffers is not modelled.
- Memory exhaustion: allocation always succeeds and gives fresh storage. `xmalloc` (lib/util.c:5-11) has no return statement as written; the model has the contract it is meant to have.
- The hash branches for SSE4.2 (lib/hash.h:150-267) and aarch64: the portable branch is modelled, on a little-endian host.
- The insides of qsort, bsearch, strtok_r and vsnprintf: their contracts are modelled, with a simple body each; a format's expansion is given as bytes.
- Embedding: `hmap_node` and the structure around it are one object, so the offset arithmetic of CONTAINER_OF, OBJECT_CONTAINING and HMAP_CONST, and list poisoning, are not modelled.
- Overflow of counts: insertion requires `n < SIZE_MAX`, and `svec_find` a vector shorter than SIZE_MAX, which memory guarantees; `ds_put_hex` requires a length that its `int` index can count.
- Sharing between arguments that the code does not provide for: `svec_append` of a vector to itself (which does not terminate), `list_push_back_all` of a list to itself, outputs of `svec_diff` that are its inputs.
- Maps with duplicate keys, which raw `shash_add` can make: adding and looking up are covered, but which of several nodes a lookup returns is documented as arbitrary, and the other operations are stated for unique keys.
- `shash_find_len` with zero bytes inside the given length.
- `ds_clone` of a buffer without storage: the code copies from a null pointer.
- `ds_get_line` and the other readers of files, `ds_put_strftime_msec`: input and clocks.
- `sset_swap`, `sset_at_position`, `shash_swap`, `shash_moved` and other one-line wrappers of table operations: easy members.
- The statistics that resize gathers about large buckets (lib/hmap.c:90-119) and never uses.
- `age_str2num` and `netmask_prefix` (src/utils.c:68-127): fixed-width counting without a deeper property.
- StringVector.Svec.Del: does not say which of several equal names is freed, because the names are modelled as values.
- DynamicString.Ds.PutFormat: the conversion of a format and its arguments to bytes is not modelled, only where those bytes go.
- Cursors.AtPosition: on a table that changes between calls it promises nothing beyond one call.
