# Verified models of the longest-prefix-match structures

This project models three route-lookup structures of the repository in Dafny and proves what their code promises:

* the **poptrie** of `modified_poptrie/` for IPv4: the RIB (a binary radix tree whose objects cache their nearest route
  and carry marks), the compiled 64-way trie in two arrays, the direct pointing array, the buddy allocators that hand
  out blocks of those arrays, and the FIB mapping table with its reference counts;
* the **tree bitmap** of `modified_tree_bitmap/` for IPv4: multi-bit nodes of stride 6 with their packed blocks, the
  front array over the first 13 bits, and the trie of all prefixes that serves as an index for deletions;
* the **hash map** of `modified_tree_bitmap/hmap.[ch]`.

Prefixes and addresses are bit sequences, most significant bit first; a bitmap is a sequence indexed by bit number.  A
route set is a map from prefixes to FIB indices, and its meaning is the longest match (`Forwarding.Fwd`, shown to be the
rule of section 5.2.4.3 of RFC 1812 by `Forwarding.FwdIsLongestMatch`).

## How the pieces fit

*Memory.*  `Memory.dfy` says what it means for the node and leaf arrays, with the allocators' record of taken blocks, to
hold a set of nodes at given cells (`Stored`, `Trees`, `Forest`, `Piece`).  `Versions.Trie(m, o)` says that the memory
holds version `o` of the compiled trie and that no block is taken but its own.  A node is good when its bitmaps and
leaves are those of the forwarding function, so a compiled trie that holds is canonical (`Canonical.dfy`).

*Updates.*  An update compiles new nodes beside the old ones (`Inode.dfy`), rebuilds parents on the way up
(`Rebuild.dfy`, `Updates.dfy`, `Splice.dfy`), replaces a cell or an entry of the direct pointing array (`Direct.dfy`,
`Exchange.dfy`, `Tops.dfy`), and frees what only the old version used (`Cleaning.dfy`).  `Succession.Succeeds` closes
the circle: after freeing, the memory holds the new version and nothing else.

*Marks.*  Slots without a marked child are copied from the old node.  `Marking.dfy` and `Lagging.dfy` say exactly when
that is right, which it always is after an addition and is not after some changes and deletions (see Findings).

*Refusals.*  Every allocation that an allocator refuses leaves a note in the ghost field `notes` of `Pools.Log`: the
memory at that time and the order asked for.  The allocator refuses exactly when no aligned range of the order is free
(`Buddies.Buddy.Alloc`), and a block has the least order, from 1 to 6, that has room for the children or leaves it is
for; a root has order 0 (`Memory.Good`, `Memory.MemOK`).  `Requests.Told` says of the notes between two states that
there are none, or that the first one is justified: beside the blocks of the old trie, nothing was taken but blocks of
nodes of the new one, at most one of each kind for each node.  Every method of the update path states it, so an update
can fail for no other reason; `Capacity.dfy` counts those blocks and concludes how many routes always fit.  The other
clauses of the update path are for the case that nothing is refused, and say besides when the return value tells the
caller.

*Imperative form.*  Classes with `Valid()` predicates stand for the structs, methods with loops for the C functions;
each is proved against specification functions on snapshots of the memory, and the main results are lemmas about those.
Large predicates are folded (`Folding.dfy`) so that methods carry them along unopened.

## Model

| member | source | states |
|---|---|---|
| Routers.Router.Add | modified_poptrie/poptrie4.c:55-73 | An existing prefix gives -1 and changes nothing. A new prefix is added, with 0, whenever no allocation is refused, and the router is valid again; for prefixes of at least two bits 0 means exactly that the prefix was new and nothing was refused. The first refusal has a reason (see Poptries.Poptrie.RouteAdd), and with few routes for the size of the memory there is none. References are exact afterwards, also after a failure. |
| Routers.Router.Lookup | modified_poptrie/poptrie4.c:125-168 | In every valid state the next hop returned is the one last given for the longest live prefix of the address, or NULL. |
| Routers.Router.RibLookup | modified_poptrie/poptrie4.c:173-180 | The lookup in the radix tree gives the same answer as the lookup in the compiled trie. |
| Poptries.Init | modified_poptrie/poptrie.c:23-118 | The new poptrie is valid and has no routes; it has 2^sz1 nodes and 2^sz0 leaves, with allocators of these sizes and levels, and nothing is taken. |
| Poptries.FirstRoute | modified_poptrie/poptrie4.c:55-73 | A first route is always added, with 0, to a new poptrie with at least 2^12 nodes and leaves. |
| Poptries.Poptrie.RouteAdd | modified_poptrie/poptrie4.c:474-521 | On FIB indices: an existing prefix gives -1 without effect; a new one gives 0 and a valid, canonical, leak-free trie of the enlarged route set whenever nothing is refused; from two bits on, 0 is returned exactly then. If something is refused, then for the first refusal there was an order of at most 6 of which no aligned range was free (or the allocator has no such order), while the memory held the old blocks, and beside them for each node of the new trie at most one block for its children and one for its leaves, of the least order that has room for them, and its roots of one cell. Nothing is refused, however the blocks lie, when 2 (20 + 12 n) is less than the number of ranges of 64 cells in each array, for n routes and allocators of more than six orders. |
| Poptries.Poptrie.RouteChange | modified_poptrie/poptrie4.c:526-575 | An absent prefix gives -1, the same next hop 0, both without effect. Otherwise, if nothing is refused, the trie is that of the changed routes exactly when no slot lags behind, and every address is forwarded as before if it lies in a lagging slot and by the new routes if not. Refusals have a reason, and do not occur with few routes, as for RouteAdd; the new trie is then the one that forwards as just said. |
| Poptries.Poptrie.RouteUpdate | modified_poptrie/poptrie4.c:580-649 | A new prefix is added as by RouteAdd, an existing one changed as by RouteChange, with the same statement for every address and about refusals; an existing one with the same next hop changes nothing. |
| Poptries.Poptrie.RouteDelete | modified_poptrie/poptrie4.c:654-720 | An absent prefix gives -1 without effect. Otherwise, if nothing is refused, the route is gone, and the trie is that of the remaining routes exactly when what the route owned keeps its next hop or no slot lags behind; addresses in lagging slots are forwarded as before, all others by the remaining routes. Refusals as for RouteChange. |
| Poptries.Poptrie.Lookup | modified_poptrie/poptrie4.c:130-167 | The popcount walk from the direct pointing array ends after at most five nodes with the FIB index of the longest match of the routes the trie stands for. |
| Poptries.Poptrie.RibLookup | modified_poptrie/poptrie4.c:725-758 | The FIB index of the longest match of the routes in the RIB. |
| Poptries.Poptrie.UpdateSubtree | modified_poptrie/poptrie4.c:185-269 | Whatever the marks: if nothing is refused, the new trie is the canonical one for the routes that forward as before in the slots without a marked child and as the RIB elsewhere; if something is, the first refusal has a reason, for these routes. The result reports every refusal from two bits on. |
| Poptries.Poptrie.Unmark | modified_poptrie/poptrie4.c:265-266 | After the marks are cleared the poptrie is sound again and its trie still forwards as the update left it. |
| Forwarding.FwdIsLongestMatch | modified_poptrie/poptrie4.c:725-758 | The forwarding function gives the index of the longest route that is a prefix of the address, and 0 if there is none. |
| Canonical.FromScratch | modified_poptrie/poptrie_private.h:171-319 | Compiling with no old node depends on the routes below the path alone: constant forwarding collapses to its one leaf, anything else gives the bitmaps and leaves of the forwarding function, and the walk from the new node gives the longest match for every address below. |
| Canonical.PieceWalk | modified_poptrie/poptrie_private.h:171-319 | From the root of any compiled piece the popcount walk gives the longest match for every address below it. |
| Canonical.NodeIff | modified_poptrie/poptrie_private.h:171-319 | Below the top level there is a node at a path exactly when forwarding is not constant below that path. |
| Canonical.LeavesDiffer | modified_poptrie/poptrie_private.h:202-267 | No two neighbouring leaves of a compiled node are equal. |
| Nodes.RunDecode | modified_poptrie/poptrie4.c:158-163 | The popcount of leafvec leads every slot without a child to its own value. |
| Canonical.CanonicalForm | modified_poptrie/poptrie_private.h:171-319 | Two compiled tries that forward alike have the same nodes below the top level, and nodes at the same path have the same vector, leafvec and leaves. |
| Canonical.TopException | modified_poptrie/poptrie_private.h:504-695 | The one freedom: at the top level one trie may have a node with a single leaf where the other has that leaf in the entry. |
| Canonical.MinimalForm | modified_poptrie/poptrie_private.h:841-897 | Without that exception, tries that forward alike agree in all nodes and all leaf entries. |
| Inodes.UpdateInode | modified_poptrie/poptrie_private.h:171-319 | The compiled node, with copied slots, is the canonical piece for the routes that the marks tell, stored beside the old trie; 1 is returned exactly for constant forwarding, with its next hop; -1 exactly when one allocation is refused, while nothing but blocks of nodes at or below this one had been taken. |
| Inodes.UpdateChunk | modified_poptrie/poptrie_private.h:324-415 | The same for the wrapper that is called for slots, which frees the only leaf of a collapsed node, so that nothing stays allocated. |
| Compile.SingleLeaf | modified_poptrie/poptrie_private.h:311-316 | The collapse test, no child and one leaf, holds exactly when forwarding is constant below the node, and the leaf is its next hop. |
| Triangles.ParseTriangle | modified_poptrie/poptrie_private.h:925-965 | The 64 slots read from the six levels below a node: a slot is an inner one exactly when the radix tree goes on below it, and otherwise copies the object that covers it. |
| Radix.NextBlock | modified_poptrie/poptrie_private.h:902-920 | Following bits through the radix tree ends at the object of that path if there is one, and with NULL if not. |
| Rebuild.Loop1 | modified_poptrie/poptrie_private.h:504-695 | One step up while the part is a single leaf: the parent is compiled again, or collapses too, or nothing has changed at all, in which case forwarding is the same as before for every address; or one request is refused, beside blocks of the nodes below only. |
| Updates.Loop2 | modified_poptrie/poptrie_private.h:696-840 | One step up with a node in hand: either the parent is compiled around it, or the node replaces the old one in place and the freed memory holds exactly the new trie. |
| Direct.UpdateBelow | modified_poptrie/poptrie_private.h:420-503 | Compiling below the top level and walking up gives the trie of the new routes and the right entry, or -1 with one refusal. |
| Direct.UpdatePartDp | modified_poptrie/poptrie_private.h:841-897 | The same at the top level, where a constant part becomes a leaf entry and the old root is freed. |
| Direct.DescendAndUpdate | modified_poptrie/poptrie4.c:274-332 | The way down by strides finds the node from which on something is marked, with the stack of old nodes above it, and the update leaves the trie of the new routes. |
| Subtree.UpdateOne | modified_poptrie/poptrie4.c:238-260 | For prefixes of at least two bits: the trie of the new routes and a right direct pointing array unless one allocation is refused. |
| Nodes.OrderFor | modified_poptrie/poptrie_private.h:272-289 | The order that is asked for n entries is the least from 1 on with room for them. |
| Nodes.LeastOrderIs | modified_poptrie/poptrie_private.h:272-289 | No smaller order would do. |
| Requests.StoreTold | modified_poptrie/poptrie_private.h:272-300 | When one of the two requests of a node is refused, what is taken beside the old blocks belongs to different nodes of the new trie at or below it, in blocks of the least order, and no aligned range of the order asked for, at most 6, is free. |
| Requests.ForestCharged | modified_poptrie/poptrie_private.h:171-319 | Whatever has been compiled so far has taken blocks of its own nodes only, at most one of each kind for a node. |
| Capacity.TrieSize | modified_poptrie/poptrie_private.h:171-319 | A compiled trie for n routes has at most 8 + 4 n blocks in each array, none of more than 64 cells. |
| Capacity.NeverRefused | modified_poptrie/poptrie_private.h:272-300 | Nothing is refused on the way from one trie to another when the blocks of both, doubled, are fewer than the aligned ranges of 64 cells. |
| Capacity.MixedNode | modified_poptrie/poptrie_private.h:202-256 | Where slots lag behind, a node of the resulting trie is still a node for the old or for the new routes. |
| TopEntries.UpdateDp2 | modified_poptrie/poptrie4.c:394-468 | All entries below a prefix above the direct level: if nothing is refused they are those of the new routes and the others are kept; what the return value does not report is the left half. |
| TopEntries.LeftHalfLost | modified_poptrie/poptrie4.c:429-430 | Whenever the left child needs a node, there is no right child and no block is free, a refusal is reported as success. |
| TopEntries.CleanEntries | modified_poptrie/poptrie4.c:217-237 | Comparing old and new entries frees exactly the blocks that only the old trie used. |
| Cleaning.CleanInode | modified_poptrie/poptrie_private.h:1011-1066 | Walking the old and the new node together frees exactly the blocks below them that the new trie does not use. |
| Roots.CleanRoot | modified_poptrie/poptrie_private.h:1105-1141 | The same from the roots of an entry, and the old root block is freed exactly when the roots differ. |
| Exchange.CleanNode | modified_poptrie/poptrie_private.h:988-1010 | When a node is overwritten in place, cleaning its children leaves the memory with exactly the next version of the trie. |
| Cleanup.SharedNotDead | modified_poptrie/poptrie_private.h:1018-1021 | Nothing below a cell that both versions share is dead, so quitting there loses nothing. |
| Succession.Succeeds | modified_poptrie/poptrie_private.h:988-1141 | When the old and the new version are both stored and the blocks only the old one used are freed, the memory holds the new version and no other block. |
| RadixUpdate.AddPropagate | modified_poptrie/poptrie_private.h:89-119 | After the pass for a new route every object below it caches its nearest route, and marked are exactly the objects at or below it that no other route separates from it. |
| RadixPasses.Propagate | modified_poptrie/poptrie_private.h:124-166 | The pass for a changed or deleted route replaces the cached object everywhere below and marks exactly the objects at or below which it was cached. |
| RadixPasses.ClearMark | modified_poptrie/poptrie_private.h:970-983 | Clearing from the top of connected marks leaves no mark and changes nothing else. |
| Marking.AddMarkingComplete | modified_poptrie/poptrie_private.h:89-119 | After an addition, no slot that will be copied is forwarded differently by the new routes. |
| Marking.MarkingGap | modified_poptrie/poptrie_private.h:124-166 | After a change or deletion, a slot that will be copied is forwarded as before exactly when the route does not own it with a child missing. |
| Marking.ChangeIsNotMarked | modified_poptrie/poptrie_private.h:124-140 | With a route and its left half only, changing the route marks nothing although the right half is now forwarded elsewhere. |
| Marking.DeleteIsNotMarked | modified_poptrie/poptrie_private.h:145-166 | The same for deleting the route. |
| Lagging.AddAlike | modified_poptrie/poptrie_private.h:202-256 | After an addition the routes that the marks tell forward like the new routes. |
| Lagging.MovedAlike | modified_poptrie/poptrie_private.h:202-256 | After a change or deletion they do exactly when there is no slot of the compiled trie that the route owns and caches, with one child, below which it is cached nowhere. |
| Lagging.MovedFollows | modified_poptrie/poptrie_private.h:202-256 | In such slots addresses are forwarded as before, and everywhere else by the new routes. |
| Lagging.HalfLags | modified_poptrie/poptrie_private.h:202-256 | Such a slot exists in the compiled trie of a prefix of eight bits and its left half. |
| Ribs.Rib.Lookup | modified_poptrie/poptrie4.c:725-758 | Walking the radix tree gives the FIB index of the longest match. |
| Ribs.Rib.Add | modified_poptrie/poptrie4.c:474-521 | Adding changes the routes only if the prefix is new, and leaves all caches right and all marks clear. |
| Ribs.Rib.Change | modified_poptrie/poptrie4.c:526-575 | Changing acts only on an existing route and gives its old index back; caches are right and marks clear. |
| Ribs.Rib.Update | modified_poptrie/poptrie4.c:580-649 | Adds or changes, and tells which. |
| Ribs.Rib.Delete | modified_poptrie/poptrie4.c:654-720 | Deleting removes an existing route and hands its addresses to the next shorter one; caches are right and marks clear. |
| Fibs.Fib.Ref | modified_poptrie/poptrie_private.h:1146-1181 | A slot is found exactly when the next hop is in the table or a slot is unreferenced; it is the first slot of the next hop, or else the first unreferenced one; no other entry changes, a slot named by a live route is never taken over, and the new reference is counted. |
| Fibs.Fib.Deref | modified_poptrie/poptrie_private.h:1186-1198 | Giving a spare reference back leaves every slot with exactly one reference for each live route that names it, one for the default route in slot 0, and those kept. |
| Fibs.Fib.RoomIff | modified_poptrie/poptrie_private.h:1161-1173 | There is a slot for a next hop exactly when it is in the table, or some slot but 0 is named by no live route and no reference to it is kept. |
| Tables.Table.Add | modified_poptrie/poptrie4.c:55-73 | With the table: afterwards every live route has the next hop last given for it and every slot its exact number of references, also when the addition fails. |
| Tables.Table.Change | modified_poptrie/poptrie4.c:78-88 | The same for changing; when the route does not exist, exactly the reference just taken is kept for ever, which does no harm to the answers but to the room. |
| Tables.Table.Update | modified_poptrie/poptrie4.c:93-110 | The same for adding or changing, where no reference is kept. |
| Tables.Table.Delete | modified_poptrie/poptrie4.c:115-120 | The same for deleting: the reference of the route is given back. |
| Tables.Table.Lookup | modified_poptrie/poptrie4.c:173-180 | After any of these the answer is the next hop last given for the longest live prefix. |
| Buddies.Init | modified_poptrie/buddy.c:16-85 | Blocks of less than four bytes are refused; otherwise the allocator is valid with nothing allocated, and its lists are empty but for the top one, which has all top-level ranges in order. |
| Buddies.Buddy.Alloc | modified_poptrie/buddy.c:150-185 | -1 exactly when the order is out of range or no aligned range of that size is wholly free, and then nothing changes. Otherwise the start of a free range is recorded as taken with the order asked for: the range is as large as it can be, and no smaller one would have done; it is the head of its list, and what is cut off it fills the lists below. |
| Buddies.Buddy.SplitBuddy | modified_poptrie/buddy.c:101-133 | Makes the list non-empty by splitting the head of the next list that is not empty, whose first part becomes the head, or fails exactly when all lists from there on are empty, changing nothing. |
| Buddies.Buddy.Free | modified_poptrie/buddy.c:242-287 | The range is given back whole, its size recovered from the bitmap, and buddies are merged as far as possible; the lists afterwards are told from the lists and the record before: the range is linked in before the first larger one, and while the pair around it is wholly free the pair becomes the head of the list above. |
| Buddies.Buddy.FindOrder | modified_poptrie/buddy.c:242-287 | The first order at which a flag is seen is the order of the allocation. |
| Buddies.Buddy.Merge | modified_poptrie/buddy.c:190-227 | Merging upwards restores that no two free buddies stand beside each other, without touching what is allocated, and leaves the lists that joining pair after pair gives. |
| BuddyState.HeadFitsBest | modified_poptrie/buddy.c:101-133 | The head of the first list that is not empty is the start of a free range as large as it can be, and no smaller one has the order. |
| Tiling.FreeIsMaximal | modified_poptrie/buddy.c:190-227 | The free lists are determined by what is taken: they hold exactly the free aligned ranges that do not lie in larger ones. |
| BuddyState.AllGivenBack | modified_poptrie/buddy.c:190-287 | Once everything has been given back, the free ranges are those of the initial state. |
| Bitmaps.TreeFunction | modified_tree_bitmap/mb_node.c:316-343 | With the table, the highest common bit is the longest prefix of the stride that is set in the bitmap. |
| Bitmaps.TreeFunctionLoop | modified_tree_bitmap/mb_node.c:316-343 | The variant without the table finds the same bit. |
| Bitmaps.FastTableInit | modified_tree_bitmap/fast_lookup.c:9-26 | Every row of the table has exactly the bits of the prefixes of its stride. |
| Bitmaps.PackInsert | modified_tree_bitmap/mb_node.h:69-89 | Setting a bit and inserting at its rank keeps every other value at the rank of its bit. |
| Bitmaps.PackRemove | modified_tree_bitmap/mb_node.h:69-89 | Clearing a bit and removing at its rank keeps every other value at the rank of its bit. |
| MbBlocks.InsertRule | modified_tree_bitmap/mb_node.c:79-136 | The new block, filled by copies at computed offsets on both sides of the base, holds the old rules with the new one at its place, and the old children. |
| MbBlocks.RemoveRule | modified_tree_bitmap/mb_node.c:233-289 | The new block holds the rules without the given one, and the old children. |
| MbBlocks.InsertChild | modified_tree_bitmap/mb_node.c:140-184 | The new block holds the old rules, and the children with the new one at its place. |
| MbBlocks.RemoveChild | modified_tree_bitmap/mb_node.c:186-231 | The new block holds the old rules, and the children without the given one. |
| MbSearch.DoSearch | modified_tree_bitmap/bitmap_v4.c:566-592 | The eager search gives the next hop of the longest rule that matches. |
| MbSearch.DoSearchLazy | modified_tree_bitmap/bitmap_v4.c:664-712 | The lazy search, which looks for a match only on the way back, gives the same, and never exceeds its five marks. |
| MbOverlap.FindOverlapInNode | modified_tree_bitmap/mb_node.c:345-364 | The longest match within a node that is shorter than a limit, and its length. |
| MbOverlap.DetectOverlap | modified_tree_bitmap/bitmap_v4.c:596-651 | The longest rule that is shorter than the prefix and than the bits of the front array. |
| MbUpdate.InsertEntry | modified_tree_bitmap/bitmap_v4.c:54-110 | Afterwards the trie holds the rules with this one set, old nodes stay where they are, and no node but a root is empty. |
| MbUpdate.DeleteEntry | modified_tree_bitmap/bitmap_v4.c:345-390 | Afterwards the trie holds the rules without this one, emptied nodes are gone, and the result tells whether the root is empty. |
| MbUpdate.TraceTo | modified_tree_bitmap/bitmap_v4.c:345-390 | The recorded nodes are those on the way to the rule, and there is room for them in the trace. |
| MbUpdate.UpdateNodes | modified_tree_bitmap/bitmap_v4.c:254-283 | Clearing the rule and pruning upwards along the recorded way restores the trie for the remaining rules. |
| MbUpdate.PrefixExist | modified_tree_bitmap/bitmap_v4.c:396-435 | True exactly for the rules of the trie. |
| MbCanon.NodeIff | modified_tree_bitmap/bitmap_v4.c:54-110 | There is a node at a depth exactly when a rule lies at or below it. |
| MbCanon.SameTries | modified_tree_bitmap/bitmap_v4.c:254-283 | Bitmaps and packed arrays of all nodes are determined by the rules. |
| MbCanon.InsertThenDelete | modified_tree_bitmap/bitmap_v4.c:345-390 | Inserting an absent prefix and deleting it again restores every node as it was. |
| TreeBitmap.LookupTrie.constructor | modified_tree_bitmap/bitmap_v4.c:13-49 | The empty structure is valid and has no prefixes. |
| TreeBitmap.LookupTrie.Search | modified_tree_bitmap/bitmap_v4.c:717-738 | In every valid state the result is the next hop of the longest live prefix of the address, or NULL. |
| TreeBitmap.LookupTrie.SearchEager | modified_tree_bitmap/bitmap_v4.c:717-738 | The same with the eager search. |
| TreeBitmap.LookupTrie.Exists | modified_tree_bitmap/bitmap_v4.c:396-435 | True exactly for the live prefixes. |
| TreeBitmap.LookupTrie.InsertPrefix | modified_tree_bitmap/bitmap_v4.c:121-245 | The prefix is live with the new next hop afterwards, unless it has no bits, and the structure is valid. |
| TreeBitmap.LookupTrie.DeletePrefix | modified_tree_bitmap/bitmap_v4.c:437-561 | A live prefix is gone afterwards, the next shorter one having taken over its entries, and the structure is valid. |
| MbSlots.FoundNear | modified_tree_bitmap/bitmap_v4.c:451-503 | What detect_overlap finds in the trie of all prefixes is the longest strictly shorter live prefix, which takes over the entries. |
| MbSlots.SearchChild | modified_tree_bitmap/bitmap_v4.c:717-738 | For an entry with a trie, the longest match in the trie, whose rule of no bits stands for the leaf-pushed prefix, is the longest live match. |
| MbSlots.SearchEntry | modified_tree_bitmap/bitmap_v4.c:717-738 | For an entry without a trie, its pointer is the longest live match. |
| HashMasks.CalcMask | modified_tree_bitmap/hmap.c:116-134 | The least of the masks 0, 3, 7, 15, ... that is at least half the capacity. |
| HashMasks.BucketIs | modified_tree_bitmap/hmap.h:192 | The bucket of a hash is its remainder modulo the number of buckets. |
| HashMaps.HMap.Insert | modified_tree_bitmap/hmap.h:201-208 | The node is in the map, no hash has changed, and there are no more nodes than the capacity; the mask is as before unless half the new count exceeds it, and then the least that will do. |
| HashMaps.HMap.NodeBucket | modified_tree_bitmap/hmap.h:188-197 | In a valid map every node is in the chain of the bucket of its hash, and in no other. |
| HashMaps.HMap.Remove | modified_tree_bitmap/hmap.h:212-221 | Exactly this node leaves the map, and no hash has changed. |
| HashMaps.HMap.Resize | modified_tree_bitmap/hmap.c:83-114 | Every node is in its bucket for the new mask; no node is lost, none is added and no hash has changed. |
| HashMaps.HMap.Expand | modified_tree_bitmap/hmap.c:137-145 | The mask becomes the larger of the old one and the least one for the number of nodes; nodes and hashes stay. |
| HashMaps.HMap.Shrink | modified_tree_bitmap/hmap.c:148-156 | The mask becomes the smaller of the two; nodes and hashes stay. |
| HashMaps.HMap.Reserve | modified_tree_bitmap/hmap.c:161-169 | The mask becomes the larger of the old one and the least one for the capacity; nodes and hashes stay. |
| HashMaps.HMap.EachOnce | modified_tree_bitmap/hmap.h:296-330 | The order of iteration has every node of the map exactly once and nothing else. |
| HashMaps.HMap.FirstNode | modified_tree_bitmap/hmap.h:311-315 | The first node of the order, or NULL for an empty map. |
| HashMaps.HMap.NextNode | modified_tree_bitmap/hmap.h:324-330 | After the node at a place of the order comes the node at the next place, and NULL after the last. |
| HashMaps.HMap.ForEach | modified_tree_bitmap/hmap.h:137-141 | The loop visits the nodes in that order, all of them. |
| HashMaps.HMap.AtPosition | modified_tree_bitmap/hmap.c:230-261 | The next node from a position on, and the position from which exactly the rest of the order is left. |
| HashMaps.HMap.FirstWithHash | modified_tree_bitmap/hmap.h:254-258 | A node with the hash if there is one in the map, otherwise NULL. |

## Findings

*Change and deletion leave too few marks.*  The passes at poptrie_private.h:124-140 and 145-166 mark only objects at or
below which the route is cached; `_update_inode` copies a slot when neither child of its object is marked
(poptrie_private.h:204-206 and 238).  An address below a slot with one missing child may be forwarded by the route
although nothing below the slot caches it.  With the routes 10100000/8 and 10100000/9 alone, changing or deleting the first one
leaves the other half of its addresses forwarded as before.  `Marking.ChangeIsNotMarked`, `Marking.DeleteIsNotMarked`
and `Lagging.HalfLags` are this input; `Lagging.MovedAlike` is the condition, which a caller can check before the call:
the compiled trie is right after the change or deletion exactly when no slot of it that the route owns and caches has
one child only and below that child does not cache the route.  `Poptries.Poptrie.RouteChange`, `RouteUpdate` and
`RouteDelete` state it for the operations and tell which addresses are forwarded as before.

*A refused allocation may be reported as success.*  `_update_dp2` ignores the result for the left half
(poptrie4.c:430).  For a prefix of no or one bit, `poptrie_route_add` can therefore return 0 although the left half of
the entries was not compiled; `TopEntries.LeftHalfLost` gives the family of states in which it happens.  This is why
the contracts for prefixes of fewer than two bits speak of refusals and not of the return value.

*A node may stay at the top level where a leaf would do.*  `_update_part_loop1` does not collapse the node below an
entry (`(stack - 1)->idx < 0`, poptrie_private.h:605 and 671), while a compile through `_update_part_dp` does, so two
histories with the same routes can differ there; `Canonical.TopException` says that this is the only difference.

*A reference is not given back.*  `poptrie_route_change` for an absent prefix keeps the reference it has taken
(poptrie4.c:85-87).  `Tables.Table.Change` shows that the answers do not suffer and that exactly this one reference is
kept, in the ghost `kept`, which no other operation changes; by `Fibs.Fib.RoomIff` the slot is never free again.

## Left out

- Routers.Router.Add: requires that the table has room for the next hop, because poptrie_route_add does not test for the -1 of poptrie_fib_ref (poptrie4.c:62).
- Tables.Table.Add: the same; likewise Change and Update.
- Poptries.Poptrie.RouteAdd: after a refused allocation nothing is promised about the compiled trie; the source goes on and, for prefixes of fewer than two bits, swaps the arrays and cleans all the same (poptrie4.c:212-237).
- Poptries.Poptrie.RouteChange: needs a trie that does not lag behind, so operations after one that left a lagging slot are not covered, except the lookups; the steps of the FIB table are in Tables.Table.Change.
- Poptries.Poptrie.RouteUpdate: as RouteChange; the search and the descent that the source makes in one recursion are two here.
- Poptries.Poptrie.RouteDelete: as RouteChange; the branch that frees radix nodes is unreachable in the source and is not modelled.
- Poptries.Init: sizes are such that an index fits below the leaf flag; memory for the arrays and for radix nodes is always there.
- Buddies.Init: level is at most the size and the number of blocks fits the list links, as all callers have it.
- Buddies.Buddy.Alloc: a block is one word, its first, which is all the allocator uses; the bitmap has one entry per bit.
- Inodes.UpdateChunk: chunks of more than one node (r > 0) and calls without a place for the leaf, which the source never makes.
- TopEntries.UpdateDp2: the two halves that fill entries of the live array, and the calls with a missing object, are shown never to be reached.
- TreeBitmap.LookupTrie.InsertPrefix: the union of the pointers of an entry (mb_node.h:32-35) is two fields here, ptr for the next hop and the node of the entry in nodes, of which the flags say which is in use.
- TreeBitmap.LookupTrie.DeletePrefix: acts on live prefixes and on the prefix of no bits, since delete_prefix leaves the test for existence to its caller; the callback that destroys next hops and the printing are left out.
- MbBlocks.InsertChild: a child takes one entry of the block and is an object, where the source stores the node itself; releasing the old block, the memory manager and the statistics are left out.
- HashMaps.HMap.AtPosition: positions are not cut to 32 bits.
- The leaf flag in bit 31 is modelled as an offset, widths of 32 and 64 bits are not otherwise modelled, and radix objects keep uninitialised fields as in the source.
- poptrie_release, destroy_trie, hmap_clear, hmap_replace, hmap_node_moved and hmap_random_node.
- The IPv6 variants poptrie6.c and bitmap_v6.c, which repeat the algorithms with wider keys.
- modified_radix_tree, modified_sail, the memory manager mm_color.c, the test programs and scripts.
- Shifts by the full width of a word (a prefix of no bits, the end of a walk) are taken as the value meant.
- Concurrent lookups during an update: operations are atomic here.
