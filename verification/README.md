# Typed containers, northbound transactions and IS-IS PDU headers of FRRouting

This project is a Dafny model of three parts of the FRRouting routing suite, with proofs about it.

- **Typed containers** (`lib/typesafe.h`, `lib/typesafe.c`). These are the intrusive containers the daemons
  embed in their own structures:
  - the unsorted singly-linked list (`TYPEDLIST`), with O(1) tail insertion through `last_next`;
  - the sorted list (`TYPEDSORT`);
  - the hash table (`TYPEDHASH`). Its chains are ordered by hash value, and it grows and shrinks with the
    load through `typesafe_hash_grow` and `typesafe_hash_shrink`;
  - the skip list (`TYPEDSKIP`). It has up to 16 levels; levels beyond four live in a tagged overflow
    block.
- **Northbound layer** (`lib/northbound.c`):
  - which configuration callbacks a YANG schema node needs (`nb_operation_is_valid`,
    `nb_option_validate_cb`);
  - the order of configuration changes in a transaction (`nb_config_change_compare`);
  - the transaction life cycle: creation, release, and the PREPARE, ABORT and APPLY phases of
    `nb_transaction_process`.
- **IS-IS PDU code** (`isisd/isis_pdu.c`):
  - header length (`pdu_size`);
  - fixed-header encoding (`fill_fixed_hdr`) and the header checks of `isis_handle_pdu`;
  - the length check (`pdu_len_validate`);
  - the hello holdtime clamp;
  - the CSNP entry count (`get_max_lsp_count`) and the start-ID advance between two CSNPs.

**How the containers are modelled.** Items are identities (`nat`). Every embedded field is a map from item
to value, held by the container object:
- the list and sorted-list `next` pointers;
- the hash `next` and `hashval`;
- the skip-list node with its level pointers.

A pointer-to-pointer (`struct X **np`) is a `Slot`: either the head's `first` field, or an item's `next`
field. Each container class carries a ghost view:
- `Items` for the lists;
- `Buckets` (one chain per bucket) for the hash table;
- `Levels` (one chain per level) for the skip list.

The invariant `Valid()` ties the pointer maps to that view. Every method is proved against functions on the
view. Those functions carry lemmas that state what the C code promises: sortedness, permutation, placement of
every item in the bucket of its hash value, and membership after `find`.

**Comparison.** The comparison function of a container is an integer key (`key: nat -> int`). For the skip
list it is an `Order`: a key plus an optional tie-break on item identity.

**Hash table.** A bucket index `hashval & (tabsize - 1)` is written `hashval % tabsize`. Table sizes are
powers of two, so the two are equal.

The hash table is modelled twice (see Findings):
- `TypedHash.Hash` uses the corrected grow and shrink. It keeps every item in the bucket of its hash value,
  with chains ordered by hash, so lookups are complete.
- `TypedHashWritten.HashAsWritten` runs `typesafe_hash_grow` and `typesafe_hash_shrink` as written, through the
  pointer loops of `HashWritten`. It keeps the items, the count and the load band, but not placement, so its
  lookups are sound only, and its `_next` can walk back to an item it has already visited.

Modules:
- `Links`: chains through a `next` map;
- `TypedList`, `TypedSort`, `TypedSkip`: the three linked containers;
- `HashSpec`: the value-level table;
- `HashWalk`, `HashMerge`, `HashMergeStep`, `HashMergeParts`, `HashRelink`, `HashResize`: the pointer loops of
  the hash table and of its resizing;
- `HashOps`: whole-table operations, with the corrected resize;
- `TypedHash`: the class, with the corrected resize;
- `HashWritten`: the pointer loops of the grow and shrink as written;
- `HashWrittenOps`: whole-table operations with the resize as written;
- `TypedHashWritten`: the class with the resize as written;
- `Northbound`;
- `IsisPdu`.

## Model

| member | source | states |
|---|---|---|
| Links.HeadPtr | lib/typesafe.h:125-128 | the start pointer of a chain is null exactly when the chain is empty |
| Links.IndexOf | lib/typesafe.h:129-133 | the result is the position of the first occurrence of the item |
| Links.Remove | lib/typesafe.h:102-113 | deleting takes out exactly one occurrence of a held item (multiset difference); deleting an item not held changes nothing |
| Links.RemoveAt | lib/typesafe.h:102-113 | in a chain without repeats, removing the k-th item's identity is cutting position k out |
| Links.LinkedFrame | lib/typesafe.h:47-54 | a chain depends only on the links of its own items |
| Links.LinkedUnique | lib/typesafe.h:47-54 | a start pointer determines the whole chain |
| Links.LinkedTail | lib/typesafe.h:114-124 | after the first item, the chain continues with that item's link |
| Links.LinkedDrop | lib/typesafe.h:102-113 | walking a chain from position p reaches the link of s[p], then the chain after it |
| Links.LinkedSuccessor | lib/typesafe.h:129-133 | the `next` field of an item on a chain points at the rest of the chain after it |
| Links.LinkedAt | lib/typesafe.h:129-133 | the link of the k-th item points at the rest of the chain |
| Links.SlotAtInsert | lib/typesafe.h:97-98 | after inserting at k, the slot holding the final null moves to the new item's field exactly when it went last |
| Links.SlotAtRemove | lib/typesafe.h:110-111 | after removing the k-th item, the final slot moves back to the removed item's place exactly when it was last |
| Links.IndexOfAt | lib/typesafe.h:129-133 | in a chain without repeats, an item's position is its first occurrence |
| Links.DistinctInsert | lib/typesafe.h:75-100 | linking in an item that is not on the chain keeps the chain free of repeats |
| Links.DistinctRemove | lib/typesafe.h:102-113 | unlinking keeps the chain free of repeats |
| Links.LinkedInsert | lib/typesafe.h:95-96 | `item->next = *np; *np = item` inserts the item at position k: one new link from it, one changed link to it |
| Links.LinkedRemove | lib/typesafe.h:110 | `*iter = item->next` removes the k-th item; its predecessor (or the head) takes over its link |
| Links.OpenFrame | lib/typesafe.c:46-56 | a chain under construction keeps its links while none of its items is relinked |
| Links.OpenExtend | lib/typesafe.c:50-53 | linking an item after the last item of a chain under construction (or as its start) extends it |
| Links.OpenJoin | lib/typesafe.c:86 | storing the start of chain t after the last item of a chain under construction s closes it as s + t |
| TypedList.InsertAfter | lib/typesafe.h:90-100 | the intended `add_after` yields a permutation of the list plus the item; the item sits right after the anchor, or first when the anchor is null |
| TypedList.InsertAfterAt | lib/typesafe.h:90-100 | the intended `add_after` inserts at position 0, or one past the anchor's position |
| TypedList.SList.Init | lib/typesafe.h:70-74 | `_init` gives an empty list whose `last_next` points at `first` |
| TypedList.SList.Store | lib/typesafe.h:95-96 | `*slot = p` changes the head's `first` or one item's `next` field, and nothing else |
| TypedList.SList.AddHead | lib/typesafe.h:75-82 | the item becomes the first; the invariant (`last_next` at the final slot, `count` = length) is kept |
| TypedList.SList.AddTail | lib/typesafe.h:83-89 | the item is appended, `last_next` moves to its field, and the count grows by one |
| TypedList.SList.AddAfterAsWritten | lib/typesafe.h:90-100 | as written, a non-null anchor puts the item at the head instead of after the anchor |
| TypedList.SList.AddAfter | lib/typesafe.h:90-100 | corrected `add_after`: the list becomes `InsertAfter` of the old one, with `last_next` and `count` kept right |
| TypedList.SList.LinkAt | lib/typesafe.h:93-99 | linking at the slot of position k inserts at k, moving `last_next` when the item goes last |
| TypedList.SList.Del | lib/typesafe.h:102-113 | the list becomes `Remove` of the old one; an item not on the list leaves every field unchanged |
| TypedList.SList.UnlinkAt | lib/typesafe.h:108-112 | unlinking through the slot of position k removes exactly that item and keeps `last_next` right |
| TypedList.SList.Pop | lib/typesafe.h:114-124 | an empty list returns null; otherwise the first item is returned and removed |
| TypedList.SList.First | lib/typesafe.h:125-128 | the first item, or null |
| TypedList.SList.Next | lib/typesafe.h:129-133 | the item after the given one, or null at the end |
| TypedList.SList.NextSafe | lib/typesafe.h:134-141 | like `_next`, with null for a null item |
| TypedList.SList.Count | lib/typesafe.h:142-145 | the stored count equals the number of items |
| TypedList.SList.Walk | lib/typesafe.h:28-30 | `for_each` visits every item exactly once, in list order |
| TypedList.SList.DelFirst | lib/typesafe.h:102-113 | deleting the first item leaves the rest of the list |
| TypedList.SList.DeleteAndAdvance | lib/typesafe.h:31-36 | a `for_each_safe` round whose body deletes the current item continues at the successor saved before the body ran |
| TypedList.SList.DeleteEachSafe | lib/typesafe.h:31-36 | `for_each_safe` with a deleting body visits every item in order and empties the list |
| TypedList.AddHeadThenPop | lib/typesafe.h:75-124 | `_add_head` then `_pop` returns the item and restores the list |
| TypedList.AddTailThenPopAll | lib/typesafe.h:83-124 | items added at the tail are popped in insertion order (FIFO) |
| TypedSort.InsertSorted | lib/typesafe.h:190-198 | the sorted insertion yields a permutation of the list plus the item |
| TypedSort.InsertSortedSorted | lib/typesafe.h:190-198 | inserting into a sorted list keeps it sorted |
| TypedSort.SortedHeadMin | lib/typesafe.h:221-233 | the head of a sorted list has the least key |
| TypedSort.SortedTail | lib/typesafe.h:221-229 | popping the head of a sorted list leaves it sorted |
| TypedSort.SortedCons | lib/typesafe.h:190-198 | an item not above the first key can go in front |
| TypedSort.InsertSortedAt | lib/typesafe.h:192-194 | the insertion point is the first position whose key is not below the item's |
| TypedSort.SortedRemove | lib/typesafe.h:211-220 | deleting keeps a sorted list sorted |
| TypedSort.FirstAtLeast | lib/typesafe.h:199-210 | returns an item whose key is at least the target, and null exactly when every key is below it |
| TypedSort.FindAsWrittenReturnsLarger | lib/typesafe.h:203-206 | as written, `_find` on [5] for key 3 returns 5, an item of another key |
| TypedSort.SortList.Init | lib/typesafe.h:186-189 | `_init` gives an empty list |
| TypedSort.SortList.Store | lib/typesafe.h:196 | `*np = item` changes one slot only |
| TypedSort.SortList.Add | lib/typesafe.h:190-198 | the list becomes `InsertSorted` of the old one (sorted, a permutation plus the item); the count grows by one |
| TypedSort.SortList.LinkAt | lib/typesafe.h:195-197 | linking at the slot of position k inserts at k |
| TypedSort.SortList.FindAsWritten | lib/typesafe.h:199-210 | the loop as written returns the first item not below the probe (`FirstAtLeast`), equal or not |
| TypedSort.SortList.Find | lib/typesafe.h:199-210 | corrected `_find`: returns the first item of equal key in list order, and null exactly when no item has that key |
| TypedSort.SortList.Del | lib/typesafe.h:211-220 | the list becomes `Remove` of the old one and stays sorted; an absent item changes nothing |
| TypedSort.SortList.UnlinkAt | lib/typesafe.h:217-219 | unlinking through the slot of position k removes exactly that item |
| TypedSort.SortList.Pop | lib/typesafe.h:221-229 | returns and removes the item of least key, or null on an empty list |
| TypedSort.SortList.First | lib/typesafe.h:230-233 | the item of least key, or null |
| TypedSort.SortList.Next | lib/typesafe.h:234-238 | the successor, whose key is not below the item's |
| TypedSort.SortList.NextSafe | lib/typesafe.h:239-246 | like `_next`, with null for a null item |
| TypedSort.SortList.Count | lib/typesafe.h:247-250 | the stored count equals the number of items |
| TypedSort.SortList.Walk | lib/typesafe.h:28-30 | `for_each` visits every item once, in non-decreasing key order |
| HashSpec.Pow2Above | lib/typesafe.c:28-35 | the bit-smearing computes a power of two above n, at most 2n |
| HashSpec.Pow2AboveLeast | lib/typesafe.c:28-35 | it is the least power of two above n |
| HashSpec.Pow2AboveOfPow2 | lib/typesafe.c:28-35 | for a power of two t it yields 2t |
| HashSpec.Pow2AboveBelowHalf | lib/typesafe.c:69-75 | for a power of two t >= 4, the count t/2 - 1 yields t/2 |
| HashSpec.GrowSize | lib/typesafe.c:26-38 | the grown size exceeds the count and is a power of two, unless it is a non-zero `maxsize`, which caps it |
| HashSpec.ShrinkSize | lib/typesafe.c:61-80 | the shrunk size exceeds the count and is at least `minsize`; unless it is `minsize`, it is a power of two at most twice the count |
| HashSpec.GrowThreshold | lib/typesafe.h:273 | `HASH_GROW_THRESHOLD`: in the load band only a table without buckets is at it |
| HashSpec.ShrinkThreshold | lib/typesafe.h:274 | `HASH_SHRINK_THRESHOLD`: a table with buckets is at it exactly when less than half full; without buckets `tabsize - 1` wraps to 2^32 - 1 and every count below 2^31 is at it |
| HashSpec.GrowKeepsBand | lib/typesafe.h:273-308 | with the grow threshold, an `_add` either keeps the load band or doubles the table (0 to 2), back into the band |
| HashSpec.ShrinkKeepsBand | lib/typesafe.h:274-349 | with the shrink threshold, a removal keeps the band, halves the table, or frees it when it is empty |
| HashSpec.ShrinkHalves | lib/typesafe.c:69-80 | at the shrink threshold the new size is half the old one |
| HashSpec.FlattenMember | lib/typesafe.h:366-384 | an item is iterated exactly when it is on some chain |
| HashSpec.FlattenSplit | lib/typesafe.h:374-384 | the iteration order splits around one bucket |
| HashSpec.PlacedDisjoint | lib/typesafe.h:304-317 | when every item is in the bucket of its hash, no item is on two chains |
| HashSpec.FlattenDistinct | lib/typesafe.h:366-384 | disjoint chains without repeats give an iteration order without repeats |
| HashSpec.ElemsUpdate | lib/typesafe.h:304-350 | replacing one chain changes the table's items by that chain's change alone |
| HashSpec.InsertByHash | lib/typesafe.h:311-316 | the chain insertion of `_add` is a permutation of the chain plus the item |
| HashSpec.InsertByHashSorted | lib/typesafe.h:311-316 | it keeps a chain ordered by hash value |
| HashSpec.InsertByHashAt | lib/typesafe.h:313-314 | the insertion point is the first position whose hash is not below the item's |
| HashSpec.PlacedInsert | lib/typesafe.h:304-317 | inserting an item into its own bucket keeps the table placed and ordered |
| HashSpec.PlacedRemove | lib/typesafe.h:333-350 | unlinking any entry keeps the table placed and ordered |
| HashSpec.FlattenAfter | lib/typesafe.h:374-384 | after an item, iteration goes on with the rest of its chain, then the later chains |
| HashSpec.FindChain | lib/typesafe.h:318-332 | the two loops of `_find` return an item of the wanted hash and key, or null |
| HashSpec.ScanEqual | lib/typesafe.h:326-330 | the second loop returns only items of the wanted hash and key |
| HashSpec.FindChainComplete | lib/typesafe.h:318-332 | on a chain ordered by hash, `_find` misses no matching item |
| HashSpec.ScanEqualComplete | lib/typesafe.h:326-330 | the equal-hash scan misses no matching item before a larger hash |
| HashSpec.FindChainFirst | lib/typesafe.h:324-330 | what `_find`'s loops return is the first item of the chain with the wanted hash and key |
| HashSpec.ScanEqualFirst | lib/typesafe.h:326-330 | what the equal-hash scan returns is the first matching item of the chain it scans |
| HashSpec.FindComplete | lib/typesafe.h:318-332 | on a placed table, the lookup in the probe's bucket finds every matching item |
| HashSpec.CutIndex | lib/typesafe.c:47-55 | the written grow cuts each chain at the first item whose new bucket is j or above |
| HashSpec.CutIndexFirst | lib/typesafe.c:50 | every item before the cut has a new bucket below j; the cut item does not |
| HashSpec.GrowAsWrittenSpec | lib/typesafe.c:26-59 | the written grow doubles the number of buckets |
| HashSpec.GrowAsWrittenBuckets | lib/typesafe.c:46-56 | old bucket i keeps the prefix before the cut; bucket i + n receives the cut item and everything after it |
| HashSpec.Keep | lib/typesafe.c:46-56 | the items of a chain whose new bucket is r, in chain order: exactly the members of the chain in bucket r |
| HashSpec.KeepSorted | lib/typesafe.c:46-56 | keeping a subsequence keeps the hash order |
| HashSpec.KeepSplit | lib/typesafe.c:46-56 | splitting a chain between two buckets loses and gains no item |
| HashSpec.GrowSpec | lib/typesafe.c:26-59 | the corrected grow doubles the table; bucket i and i + n each keep their own items of old bucket i |
| HashSpec.GrowSpecPlaced | lib/typesafe.c:26-59 | the corrected grow keeps every item in the bucket of its hash, chains ordered |
| HashSpec.GrowSpecElems | lib/typesafe.c:26-59 | the corrected grow loses and gains no item |
| HashSpec.GrowBucketElems | lib/typesafe.c:46-56 | old bucket i's items are exactly those of new buckets i and i + n |
| HashSpec.ShrinkAsWrittenSpec | lib/typesafe.c:82-89 | the written shrink appends chain i + n to chain i |
| HashSpec.Merge | lib/typesafe.c:82-89 | the corrected shrink merges two chains; the result has the length of both |
| HashSpec.MergeMultiset | lib/typesafe.c:82-89 | the merge holds the items of both chains and no others |
| HashSpec.MergeSorted | lib/typesafe.c:82-89 | merging two chains ordered by hash gives one ordered chain |
| HashSpec.ShrinkSpec | lib/typesafe.c:61-94 | the corrected shrink halves the table by merging buckets i and i + n |
| HashSpec.ShrinkSpecPlaced | lib/typesafe.c:61-94 | the corrected shrink keeps the table placed and ordered |
| HashSpec.ShrinkSpecElems | lib/typesafe.c:61-94 | the corrected shrink loses and gains no item |
| HashSpec.GrowAsWrittenMisplaces | lib/typesafe.c:46-56 | hashes 5 and 9 in bucket 1 of 4 both land in bucket 5 of 8; a lookup of 9 then misses it |
| HashSpec.GrowExamplePlaced | lib/typesafe.c:46-56 | the table before that grow is placed |
| HashSpec.ShrinkAsWrittenUnsorts | lib/typesafe.c:82-89 | hashes 8 and 4 are joined as [8, 4]; a lookup of 4 stops at 8 and misses it |
| HashSpec.ShrinkExamplePlaced | lib/typesafe.c:82-89 | the table before that shrink is placed |
| HashWalk.WalkStep | lib/typesafe.h:313-314 | one step of a slot walk reads the k-th item, its cached hash and its link |
| HashWalk.InsertChain | lib/typesafe.h:309-316 | the pointer loop of `_add` makes the chain `InsertByHash`; only the new item's link and the one before it change |
| HashWalk.LinkKeys | lib/typesafe.h:315-316 | linking adds only the new item to the items that have a link |
| HashWalk.FindInChain | lib/typesafe.h:318-332 | the loops of `_find` compute `FindChain` |
| HashWalk.ScanSkip | lib/typesafe.h:326-330 | the scan passes over an item of the wanted hash but another key |
| HashWalk.DelStop | lib/typesafe.h:339-342 | where the two loops of `_del` stop on a chain: past lower hash values, then past other items of equal hash |
| HashWalk.EqualStop | lib/typesafe.h:341-342 | where the second loop stops: at the item, or at the first other hash value |
| HashWalk.LocateInChain | lib/typesafe.h:337-344 | the loops of `_del` stop at `DelStop`, at the slot that points there; they stand on the item exactly when it is there, and on a chain ordered by hash exactly when the chain holds it |
| HashWalk.SkipBelow | lib/typesafe.h:338-340 | the first loop of `_del` walks past the lower hash values; what remains of `DelStop` is `EqualStop` from there |
| HashWalk.SkipEqual | lib/typesafe.h:341-342 | the second loop walks exactly `EqualStop` further, keeping the slot that points at its item |
| HashWalk.DelStopFinds | lib/typesafe.h:339-344 | on a chain ordered by hash, the loops stop at the item exactly when the chain holds it |
| HashWalk.EqualStopFinds | lib/typesafe.h:341-344 | the same for the second loop, from the first hash value not below the item's |
| HashWalk.UnlinkChain | lib/typesafe.h:345-346 | the slot takes the item's link and the item's own link is cleared |
| HashWalk.DistinctRemoveGone | lib/typesafe.h:333-350 | the removed item is no longer on the chain |
| HashMerge.MergeChains | lib/typesafe.c:82-89 | the corrected shrink's relinking of two chains links exactly `Merge` of them; no other link changes |
| HashMerge.MergeOne | lib/typesafe.c:82-89 | one turn takes the lower-hash head (the first on a tie), links it and advances its cursor |
| HashMerge.LinkAt | lib/typesafe.c:86 | storing into a slot changes the bucket or one `next` field |
| HashMergeStep.MergeStart | lib/typesafe.c:82-84 | before the first turn nothing is merged |
| HashMergeStep.MergeTakeA | lib/typesafe.c:82-89 | taking from the first chain keeps the merge state |
| HashMergeStep.MergeTakeZ | lib/typesafe.c:82-89 | taking from the second chain keeps the merge state |
| HashMergeStep.MergeTurn | lib/typesafe.c:82-89 | a turn on two non-empty rests keeps the merge state |
| HashMergeStep.MergeDone | lib/typesafe.c:82-89 | linking the leftover rest completes the merged chain |
| HashMergeParts.MergeApart | lib/typesafe.c:82-89 | merged items are on neither rest still to merge |
| HashMergeParts.MergeEqStepA | lib/typesafe.c:82-89 | merged prefix plus merge of the rests stays the whole merge (first chain taken) |
| HashMergeParts.MergeEqStepZ | lib/typesafe.c:82-89 | the same when the second chain is taken |
| HashMergeParts.MergeUnfoldA | lib/typesafe.c:82-89 | the first chain's head goes first unless the second's has a lower hash |
| HashMergeParts.MergeUnfoldZ | lib/typesafe.c:82-89 | the second chain's head goes first when its hash is lower |
| HashMergeParts.MergeFromStepA | lib/typesafe.c:82-89 | merged items come from the taken prefixes (first chain) |
| HashMergeParts.MergeFromStepZ | lib/typesafe.c:82-89 | merged items come from the taken prefixes (second chain) |
| HashMergeParts.MergeLink | lib/typesafe.c:86 | linking the first chain's head after the merged part keeps both rests linked |
| HashMergeParts.MergeLinkZ | lib/typesafe.c:86 | the same for the second chain's head |
| HashMergeParts.TailSlotLast | lib/typesafe.c:84-86 | the slot after a non-empty merged part is its last item's `next` |
| HashMergeParts.MergeLinkFrame | lib/typesafe.c:86 | relinking the last merged item changes no other link |
| HashMergeParts.MergeLinkRests | lib/typesafe.c:86 | relinking the last merged item leaves both rests linked |
| HashMergeParts.MergeRest | lib/typesafe.c:82-89 | when one chain is used up, the rest of the merge is the other chain |
| HashMergeParts.MergeClose | lib/typesafe.c:86 | storing a chain's start after the merged part closes it as their concatenation |
| HashMergeParts.MergeCloseFrame | lib/typesafe.c:86 | closing changes no link off the two chains |
| HashRelink.SplitChain | lib/typesafe.c:46-56 | the corrected split loop relinks a chain into exactly `Keep` r1 and `Keep` r2 |
| HashRelink.SplitPrefixInv | lib/typesafe.c:48-55 | the split state holds after every prefix of the chain |
| HashRelink.SplitStepFirst | lib/typesafe.c:50-54 | one turn for an item of the first bucket keeps the state |
| HashRelink.SplitStepSecond | lib/typesafe.c:50-54 | one turn for an item of the second bucket keeps the state |
| HashRelink.SplitTakeFirst | lib/typesafe.c:50-54 | taking an item into the first chain keeps the state |
| HashRelink.SplitTakeSecond | lib/typesafe.c:50-54 | taking an item into the second chain keeps the state |
| HashRelink.SplitLinkAfter | lib/typesafe.c:50-54 | linking an item after a chain under construction keeps the rest linked and the other chain intact |
| HashRelink.SplitPrefixNext | lib/typesafe.c:55 | the loop reads an item's link before relinking it |
| HashRelink.SplitPrefixDone | lib/typesafe.c:46-56 | ending both chains with null yields the two halves |
| HashRelink.SplitClose | lib/typesafe.c:51 | ending a chain under construction with null completes it |
| HashRelink.SplitDistinct | lib/typesafe.c:46-56 | items already visited are not ahead in the chain |
| HashRelink.AllLinkedUpdate | lib/typesafe.c:46-56 | replacing one bucket's chain keeps the other buckets linked |
| HashRelink.GrowMid | lib/typesafe.c:46-56 | after i splits, buckets below i and their partners hold their parts; the rest are as before |
| HashRelink.GrowMidStep | lib/typesafe.c:46-56 | splitting bucket i advances the grow by one bucket |
| HashRelink.GrowMidEnds | lib/typesafe.c:42-57 | before any split: old chains plus empty buckets; after all splits: `GrowSpec` |
| HashRelink.GrowMidApart | lib/typesafe.c:46-56 | no other bucket shares an item with old bucket i |
| HashResize.GrowChains | lib/typesafe.c:26-59 | the corrected grow links exactly the chains of `GrowSpec`; no other link changes |
| HashResize.GrowStart | lib/typesafe.c:42-45 | the zeroed new buckets link empty chains |
| HashResize.SplitBucket | lib/typesafe.c:46-56 | one turn of the grow loop splits bucket i; only that chain's links change |
| HashResize.SplitRelinked | lib/typesafe.c:46-56 | after the split of bucket i, all buckets are linked |
| HashResize.SplitInput | lib/typesafe.c:46-56 | the items of bucket i belong to bucket i or i + n of the grown table |
| HashResize.ShrinkMid | lib/typesafe.c:82-89 | after i merges, buckets below i hold the merged chains |
| HashResize.ShrinkMidEnds | lib/typesafe.c:82-93 | before any merge: the lower half; after all merges: `ShrinkSpec` |
| HashResize.ShrinkMidStep | lib/typesafe.c:82-89 | merging bucket i advances the shrink by one bucket |
| HashResize.ShrinkChains | lib/typesafe.c:61-94 | the corrected shrink links exactly the chains of `ShrinkSpec`; no other link changes |
| HashResize.AllLinkedSlices | lib/typesafe.c:90-91 | both halves of a linked bucket array are linked |
| HashResize.MergeBucket | lib/typesafe.c:82-89 | one turn merges buckets i and i + n; only their links change |
| HashResize.MergeInputs | lib/typesafe.c:82-89 | both chains to merge are linked from their buckets |
| HashResize.MergeOthers | lib/typesafe.c:82-89 | no other chain shares an item with the two being merged |
| HashResize.MergeRelinked | lib/typesafe.c:82-89 | after merging bucket i, all buckets still in use are linked |
| HashOps.BandEven | lib/typesafe.h:273-274 | a table in the load band has no buckets, or an even number of at least two |
| HashOps.Grown | lib/typesafe.c:26-59 | corrected grow: growing a table in the band: two buckets from none, else twice as many |
| HashOps.GrownKeeps | lib/typesafe.c:26-59 | the corrected grow keeps the table placed and its items |
| HashOps.Shrunk | lib/typesafe.c:61-94 | corrected shrink: shrinking: no buckets once empty, else half as many |
| HashOps.ShrunkKeeps | lib/typesafe.c:61-94 | the corrected shrink keeps the table placed and its items |
| HashOps.ShrinkIfLow | lib/typesafe.h:347-349 | corrected shrink check of `_del` and `_pop`: a table not at the threshold is left as it is; otherwise it is halved or emptied (`DeletedKeeps` carries what it keeps) |
| HashOps.Deleted | lib/typesafe.h:333-350 | corrected value-level `_del`: an item the table does not hold changes nothing, and the table keeps, halves or loses its buckets (`DeletedKeeps` carries its meaning) |
| HashOps.GrowIfFull | lib/typesafe.h:306-308 | with the corrected grow, the grow check of `_add` leaves a table with buckets |
| HashOps.Added | lib/typesafe.h:304-317 | with the corrected grow, after `_add` the table has buckets |
| HashOps.AddedKeeps | lib/typesafe.h:304-317 | with the corrected grow, `_add` keeps the table placed and adds exactly the item |
| HashOps.AddedTableOk | lib/typesafe.h:304-317 | with the corrected grow, the result of `_add` is a sound table of one more item |
| HashOps.InsertedKeeps | lib/typesafe.h:309-316 | linking into the item's own bucket keeps it placed and adds exactly the item |
| HashOps.ElemsChange | lib/typesafe.h:304-350 | changing one chain changes the table's items the same way |
| HashOps.DeletedKeeps | lib/typesafe.h:333-350 | with the corrected shrink, `_del` keeps the table placed and removes exactly one occurrence of a held item |
| HashOps.NotHeld | lib/typesafe.h:333-344 | a placed table holds an item only in the bucket of its hash |
| HashOps.RemovedKeeps | lib/typesafe.h:345-347 | unlinking a held item keeps the table placed and removes exactly that item |
| HashOps.UnlinkFacts | lib/typesafe.h:345-349 | unlinking from a placed table of distinct items removes that item and adds nothing |
| HashOps.DeletedGone | lib/typesafe.h:333-350 | with distinct items, a deleted item is gone |
| HashOps.AddDelItems | lib/typesafe.h:304-350 | `_add` then `_del` restores the items of the table |
| HashOps.FindInTable | lib/typesafe.h:318-332 | looking only in the probe's bucket, `_find` succeeds exactly when the table holds an item with the probe's hash and key |
| HashOps.TableDistinct | lib/typesafe.h:366-384 | a placed linked table iterates each item once |
| HashOps.FlattenDrop | lib/typesafe.h:374-384 | iteration from chain i on is that chain, then the later ones |
| HashOps.SkipEmpty | lib/typesafe.h:366-384 | the bucket loop of `_first`, `_next` and `_pop`, for both classes: it stops at the first non-empty bucket, whose head is its entry; the skipped buckets hold nothing |
| HashOps.NextFrom | lib/typesafe.h:374-384 | `_next` follows the item's link, then the later buckets: the successor in the iteration order |
| HashOps.InsertKeeps | lib/typesafe.h:309-316 | the insertion keeps the chains linked, cached and placed |
| HashOps.InsertApart | lib/typesafe.h:309-316 | the item's chain shares nothing with the others and holds the item |
| HashOps.InsertCached | lib/typesafe.h:310 | caching the item's hash keeps every cached value right |
| HashOps.RemoveKeeps | lib/typesafe.h:345-346 | unlinking keeps the chains linked, cached and placed |
| HashOps.AllLinkedDomain | lib/typesafe.h:257-260 | every item on a linked chain has a link |
| HashOps.AllLinkedOne | lib/typesafe.h:304-350 | replacing one bucket's chain keeps the others linked |
| HashOps.CachedOne | lib/typesafe.h:310 | replacing a chain by a cached one keeps the table cached |
| HashOps.CachedSame | lib/typesafe.h:310 | chains with the same items as cached ones are cached |
| TypedHash.Hash.Init | lib/typesafe.h:293-296 | `_init` gives a table without buckets and with count 0 |
| TypedHash.Hash.Add | lib/typesafe.h:304-317 | with the corrected grow, the table becomes `Added` (the item is linked in its bucket in hash order, growing first if needed); only the new item's fields and the relinked chains change |
| TypedHash.Hash.Del | lib/typesafe.h:333-350 | with the corrected shrink, the table becomes `Deleted`: a held item is unlinked, its link cleared, and the table shrinks at the threshold; otherwise nothing changes |
| TypedHash.Hash.Pop | lib/typesafe.h:351-365 | with the corrected shrink, returns the first item in iteration order, removed as by `_del`; null on an empty table |
| TypedHash.Hash.Unlink | lib/typesafe.h:345-349 | with the corrected shrink, the common end of `_del` and `_pop` removes the k-th item of its chain and keeps the invariant |
| TypedHash.Hash.Find | lib/typesafe.h:318-332 | on the table the corrected resize keeps placed: returns the first item of the probe's chain with the probe's hash and key, and null only when none exists |
| TypedHash.Hash.First | lib/typesafe.h:366-373 | the head of the iteration order |
| TypedHash.Hash.Next | lib/typesafe.h:374-384 | the successor in the iteration order that `_first` starts |
| TypedHash.Hash.NextSafe | lib/typesafe.h:385-390 | like `_next`, with null for a null item |
| TypedHash.Hash.Count | lib/typesafe.h:391-394 | the stored count equals the number of items |
| TypedHash.Hash.Fini | lib/typesafe.h:297-303 | finalising an empty table frees the array and zeroes the head |
| TypedHash.GrowTable | lib/typesafe.c:26-59 | the corrected grow on the head fields links the chains `Grown` describes, at the size `GrowSize` picks |
| TypedHash.ShrinkTable | lib/typesafe.c:61-94 | the corrected shrink links the chains `Shrunk` describes, frees the array when empty |
| TypedHash.GrowIfFullTable | lib/typesafe.h:305-308 | with the corrected grow, after the grow check the table is in the band for one more item and keeps its items |
| TypedHash.ShrinkIfLowTable | lib/typesafe.h:347-349 | with the corrected shrink, after the shrink check the table is sound again |
| TypedHash.AddTable | lib/typesafe.h:304-317 | with the corrected grow, `_add` on the head fields yields a sound table holding `Added` |
| TypedHash.UnlinkTable | lib/typesafe.h:345-349 | with the corrected shrink, the unlinking end of `_del` yields a sound table holding `Deleted` |
| TypedHash.InsertEntry | lib/typesafe.h:309-316 | linking changes only the item's chain, into `InsertByHash` |
| TypedHash.InsertReady | lib/typesafe.h:309-312 | before linking, the item's chain is linked and cached and does not hold the item |
| TypedHash.RemoveEntry | lib/typesafe.h:345-346 | unlinking changes only the item's chain, cutting out position k, and clears the item's link |
| TypedHash.RemoveReady | lib/typesafe.h:345 | the chain is linked and the item has a link |
| TypedHash.AddFrame | lib/typesafe.h:304-317 | items off the table keep their links through `_add` |
| TypedHash.UnlinkFrame | lib/typesafe.h:333-350 | items off the table keep their links through `_del` |
| Links.LinkedCut | lib/typesafe.c:51 | clearing the link before the k-th item leaves two linked chains, the first k items and the rest |
| HashWritten.CutChain | lib/typesafe.c:47-56 | the inner loop of the written grow cuts chain i once, at `CutIndex`: the cut item starts bucket i + n and the item before it ends chain i; no other link changes |
| HashWritten.CutTurn | lib/typesafe.c:49-55 | one turn moves `apos` past the m-th item and cuts there exactly when it is the first whose new bucket is j or above |
| HashWritten.CutFrame | lib/typesafe.c:51 | the cut changes only the link of the item before it |
| HashWritten.CutDone | lib/typesafe.c:49-56 | at the end of the walk, bucket i links the part before the cut and bucket i + n the rest |
| HashWritten.GrowWritten | lib/typesafe.c:42-57 | the written grow on a table of n buckets links exactly the chains of `GrowAsWrittenSpec` in 2n buckets; no link off the table changes |
| HashWritten.CutOf | lib/typesafe.c:46-56 | the cut index of an old bucket is within its chain |
| HashWritten.CutMid | lib/typesafe.c:46-56 | after i buckets are cut, buckets below i and their partners hold the two parts, the rest are as before |
| HashWritten.CutMidStep | lib/typesafe.c:46-56 | cutting bucket i moves the grow on by one bucket |
| HashWritten.CutMidEnds | lib/typesafe.c:44-57 | before any cut: old chains plus empty buckets; after all cuts: `GrowAsWrittenSpec` |
| HashWritten.CutStart | lib/typesafe.c:42-45 | the zeroed new buckets link empty chains |
| HashWritten.CutBucket | lib/typesafe.c:46-56 | one turn of the bucket loop cuts bucket i; only that chain's links change |
| HashWritten.CutMidApart | lib/typesafe.c:46-56 | no other bucket of the growing array shares an item with old bucket i |
| HashWritten.CutRelinked | lib/typesafe.c:46-56 | after the cut of bucket i, all buckets are linked |
| HashWritten.ChainEnd | lib/typesafe.c:86-87 | the walk `while (*apos)` stops at the place after the chain's last item |
| HashWritten.AppendBucket | lib/typesafe.c:84-88 | storing chain j's start there links bucket i as the two chains one after the other; only that place changes |
| HashWritten.AppendMid | lib/typesafe.c:83-90 | after i joins, bucket j below i holds chain j followed by chain j + n |
| HashWritten.ShrinkWritten | lib/typesafe.c:83-92 | the written shrink from 2n buckets to n links exactly the chains of `ShrinkAsWrittenSpec`; no link off the table changes |
| HashWritten.AppendTurn | lib/typesafe.c:83-89 | one turn of the bucket loop appends chain i + n to chain i; only the link after chain i changes |
| HashWritten.AppendRelinked | lib/typesafe.c:83-89 | after the join of bucket i, all buckets still in use are linked |
| HashWrittenOps.LinkedChainsDistinct | lib/typesafe.h:257-260 | chains reached through `next` links repeat no item |
| HashWrittenOps.DisjointReplace | lib/typesafe.h:304-350 | replacing a chain by one sharing nothing with the others keeps the chains apart |
| HashWrittenOps.GrownAsWritten | lib/typesafe.c:26-59 | written grow: two buckets from none, else twice as many |
| HashWrittenOps.GrownAsWrittenKeeps | lib/typesafe.c:26-59 | the written grow keeps the chains apart and the items of the table |
| HashWrittenOps.GrownApart | lib/typesafe.c:46-56 | the two parts of a cut chain share no item, and no item is on two chains |
| HashWrittenOps.GrownElems | lib/typesafe.c:46-56 | every old chain is its two parts, so the items are kept |
| HashWrittenOps.GrownFrom | lib/typesafe.c:46-56 | an item of grown bucket a comes from old bucket a (before the cut) or a - n (from the cut on) |
| HashWrittenOps.ShrunkAsWritten | lib/typesafe.c:61-94 | written shrink: no buckets once empty, else half as many |
| HashWrittenOps.ShrunkAsWrittenKeeps | lib/typesafe.c:61-94 | the written shrink keeps the chains apart, the items and their number |
| HashWrittenOps.ShrinkIfLowAsWritten | lib/typesafe.h:347-349 | the shrink check with the written shrink: a table not at the threshold is left as it is; otherwise it is halved or emptied |
| HashWrittenOps.UnlinkedAsWritten | lib/typesafe.h:345-349 | the common end of `_del` and `_pop`: the table keeps, halves or loses its buckets (`UnlinkedAsWrittenKeeps` carries what it removes) |
| HashWrittenOps.GrowIfFullAsWritten | lib/typesafe.h:306-308 | with the written grow, the grow check of `_add` leaves an even, non-zero number of buckets |
| HashWrittenOps.AddedAsWritten | lib/typesafe.h:304-317 | with the written grow, `_add` has the buckets the grow check leaves |
| HashWrittenOps.AddedAsWrittenKeeps | lib/typesafe.h:304-317 | with the written grow, `_add` of an item not held keeps the chains apart and adds exactly that item |
| HashWrittenOps.UnlinkedAsWrittenKeeps | lib/typesafe.h:345-349 | unlinking the k-th item of a chain and shrinking as written removes exactly that item and keeps the chains apart |
| HashWrittenOps.DeletedAsWrittenKeeps | lib/typesafe.h:333-350 | with the written shrink, `_del` removes the item exactly when its loops reach it, and otherwise changes nothing |
| HashWrittenOps.DeletedAsWritten | lib/typesafe.h:333-350 | value-level `_del` with the written shrink: an item the table does not hold changes nothing, and the table keeps, halves or loses its buckets |
| HashWrittenOps.DelFindsPlaced | lib/typesafe.h:337-344 | on a placed table the loops of `_del` reach an item exactly when the table holds it |
| HashWrittenOps.FirstFull | lib/typesafe.h:354-355 | the bucket loop of `_pop` stops at the first bucket that has an item; those before are empty |
| HashWrittenOps.FirstFullHead | lib/typesafe.h:354-357 | that bucket's head is the first item in iteration order, or there is none |
| HashWrittenOps.PoppedAsWrittenKeeps | lib/typesafe.h:351-365 | with the written shrink, `_pop` removes exactly the first item in iteration order and leaves an empty table as it is |
| HashWrittenOps.PoppedAsWritten | lib/typesafe.h:351-365 | value-level `_pop` with the written shrink: a table with only empty buckets is left as it is, and the table keeps, halves or loses its buckets |
| HashWrittenOps.AddAsWrittenStrands | lib/typesafe.h:304-332 | a placed table [[0], [5, 9], [], []] (low 32 bits as hash): after `_add` of 2 grows it as written, the table holds 9 but neither `_find` nor `_del` reaches it |
| HashWrittenOps.StrandsExample | lib/typesafe.c:46-56 | that table is placed, holds three items and is grown as shown |
| HashWrittenOps.StrandsPlaced | lib/typesafe.h:304-317 | every item of that table is in the bucket of its hash, chains ordered |
| HashWrittenOps.StrandsGrown | lib/typesafe.c:46-56 | the written grow puts 5 and 9 together in bucket 5 of 8 |
| HashWrittenOps.StrandsRest | lib/typesafe.c:46-56 | after that `_add`, 0 stays in bucket 0, 2 sits alone in bucket 2, and buckets 1, 3 and 4 are empty |
| HashWrittenOps.NextAfter | lib/typesafe.h:374-384 | the step of `_next`: the item's link, else the head of the first non-empty bucket after the bucket of its hash value; what it returns is always an item of the table (`NextAfterPlaced` and `IterationCycles` say which) |
| HashWrittenOps.NextAfterPlaced | lib/typesafe.h:374-384 | on a placed table, `_next`'s link-or-restart step (`NextAfter`) gives the item after it in the iteration order |
| HashWrittenOps.IterationCycles | lib/typesafe.h:374-384 | on the table after that `_add`, `_first` gives 0 and `_next` goes 0, 2, 5, 9 and then back to 2, because the restart after 9 uses bucket 1 of its hash: iteration never reaches null |
| HashWrittenOps.CycleSteps | lib/typesafe.h:366-384 | on any table of eight buckets starting [0], [], [2], [], [], [5, 9], `_first` and `_next` take the steps above |
| HashWrittenOps.HeadFrom | lib/typesafe.h:379-383 | the bucket scan from i finds the head of bucket i if it has one, else scans on |
| HashWrittenOps.LocateWritten | lib/typesafe.h:374-378 | an item of a linked, apart and cached table sits at exactly one place, holds its hash value cached and links to the rest of its chain |
| TypedHashWritten.HashAsWritten.Init | lib/typesafe.h:293-296 | `_init` gives a table without buckets and with count 0 |
| TypedHashWritten.HashAsWritten.Add | lib/typesafe.h:304-317 | with the written grow, the table becomes `AddedAsWritten` and gains exactly the item; only the new item's fields and the relinked chains change |
| TypedHashWritten.HashAsWritten.Del | lib/typesafe.h:333-350 | with the written shrink, the table becomes `DeletedAsWritten`: the item is removed and its link cleared exactly when the loops of `_del` reach it |
| TypedHashWritten.HashAsWritten.Pop | lib/typesafe.h:351-365 | with the written shrink, returns and removes the first item in iteration order, its link cleared; null and no change on an empty table |
| TypedHashWritten.HashAsWritten.Unlink | lib/typesafe.h:345-349 | the common end of `_del` and `_pop` removes the k-th item of its chain and keeps the invariant |
| TypedHashWritten.HashAsWritten.Find | lib/typesafe.h:318-332 | the lookup in the probe's bucket: the first item of that chain with the probe's hash and key, or null; sound but, without placement, not complete |
| TypedHashWritten.HashAsWritten.Count | lib/typesafe.h:391-394 | the stored count equals the number of items |
| TypedHashWritten.HashAsWritten.First | lib/typesafe.h:366-373 | the head of the iteration order |
| TypedHashWritten.HashAsWritten.Next | lib/typesafe.h:374-384 | the item's link, else the head of the first non-empty bucket after the bucket of its cached hash value (`NextAfter`), which on a stranded table is not the successor in iteration order |
| TypedHashWritten.HashAsWritten.NextSafe | lib/typesafe.h:385-390 | like `_next`, with null for a null item |
| TypedHashWritten.HashAsWritten.Fini | lib/typesafe.h:297-303 | finalising an empty table with the written shrink frees the array and zeroes the head |
| TypedHashWritten.GrowTableAsWritten | lib/typesafe.c:26-59 | the written grow on the head fields links the chains `GrownAsWritten` describes, at the size `GrowSize` picks, keeping the items |
| TypedHashWritten.ShrinkTableAsWritten | lib/typesafe.c:61-94 | the written shrink links the chains `ShrunkAsWritten` describes, and frees the array when empty |
| TypedHashWritten.GrowIfFullTableAsWritten | lib/typesafe.h:305-308 | with the written grow, after the grow check the table is in the band for one more item and keeps its items |
| TypedHashWritten.ShrinkIfLowTableAsWritten | lib/typesafe.h:347-349 | with the written shrink, after the shrink check the table is sound again |
| TypedHashWritten.AddTableAsWritten | lib/typesafe.h:304-317 | `_add` on the head fields yields a sound table holding `AddedAsWritten` |
| TypedHashWritten.UnlinkTableAsWritten | lib/typesafe.h:345-349 | the unlinking end of `_del` yields a sound table holding `UnlinkedAsWritten` |
| TypedHashWritten.InsertEntryAsWritten | lib/typesafe.h:309-316 | linking changes only the item's chain, into `InsertByHash` |
| TypedHashWritten.InsertKeepsAsWritten | lib/typesafe.h:309-316 | the insertion keeps the chains linked, apart and cached |
| TypedHashWritten.InsertApartAsWritten | lib/typesafe.h:309-316 | the chain the item joins shares no item with the others |
| TypedHashWritten.RemoveEntryAsWritten | lib/typesafe.h:345-346 | unlinking changes only the item's chain, cutting out position k, and clears the item's link |
| TypedHashWritten.RemoveKeepsAsWritten | lib/typesafe.h:345-346 | unlinking keeps the chains linked, apart and cached |
| TypedSkip.Levels | lib/typesafe.c:97-125 | a node's level pointers as one array: the three embedded ones, then the fourth field or the overflow block; its length is the node's height |
| TypedSkip.LevelGet | lib/typesafe.c:97-110 | `sl_level_get` reads level l of that array, through the overflow block when the fourth field is tagged |
| TypedSkip.LevelSet | lib/typesafe.c:112-125 | `sl_level_set` replaces exactly entry l of that array, through the overflow block when tagged, and keeps the node's shape |
| TypedSkip.LevelSetOther | lib/typesafe.c:112-125 | it leaves every other level unchanged |
| TypedSkip.NewLevel | lib/typesafe.c:138-140 | the new level is between 1 and SKIPLIST_MAXDEPTH, ctz + 1 when that fits |
| TypedSkip.Fresh | lib/typesafe.c:135-148 | the prepared item is zeroed and has room for `newlevel` levels, with a tagged overflow block above SKIPLIST_EMBED |
| TypedSkip.Cmp | lib/typesafe.h:434-439 | the comparison's sign says which item sorts first |
| TypedSkip.Rank | lib/typesafe.c:150-176 | the number of leading items that sort before x: where `add` links x in |
| TypedSkip.Added | lib/typesafe.c:127-177 | `add` keeps the number of levels |
| TypedSkip.Deleted | lib/typesafe.c:208-242 | `del` keeps the number of levels |
| TypedSkip.Inserted | lib/typesafe.c:163-175 | one level after `add`: the level gains exactly x, placed at its rank |
| TypedSkip.Unlinked | lib/typesafe.c:216-234 | one level after `del`: a level without x is unchanged; otherwise it loses one x or nothing |
| TypedSkip.PosOf | lib/typesafe.c:150-162 | the position after a place on a level is within the level |
| TypedSkip.LevelMapSet | lib/typesafe.c:112-125 | storing one level pointer of an item changes that level's map at that item only |
| TypedSkip.Successor | lib/typesafe.c:151 | reading level l after a place yields the rest of the level |
| TypedSkip.StepFacts | lib/typesafe.c:150-162 | one step of a level walk reads the next item of the level |
| TypedSkip.SettledBefore | lib/typesafe.c:150-162 | every item before the walk's place sorts before x |
| TypedSkip.StopRank | lib/typesafe.c:150-162 | a walk that stops before an item not below x stops at x's rank |
| TypedSkip.NoneEqual | lib/typesafe.c:190-205 | a walk that stops before an item above x has passed every item equal to x |
| TypedSkip.LinkChains | lib/typesafe.c:163-164 | the two stores of `add` link x in after the place at level l |
| TypedSkip.UnlinkChains | lib/typesafe.c:222-226 | the store of `del` unlinks the item after the place at level l |
| TypedSkip.DetachChains | lib/typesafe.c:235-241 | zeroing an item leaves alone every level that does not visit it |
| TypedSkip.NestedDown | lib/typesafe.c:201-202 | an item linked at some level is linked at level 0 |
| TypedSkip.NotLinked | lib/typesafe.c:127-177 | an item not on level 0 is on no level |
| TypedSkip.InsertedMembers | lib/typesafe.c:163-175 | inserting adds exactly x to a level |
| TypedSkip.SortedPair | lib/typesafe.c:150-176 | on a sorted level no later item sorts before an earlier one |
| TypedSkip.InsertedSorted | lib/typesafe.c:163-175 | inserting at the rank keeps a level sorted |
| TypedSkip.UnlinkedMembers | lib/typesafe.c:216-234 | unlinking removes nothing but x |
| TypedSkip.UnlinkedSorted | lib/typesafe.c:216-234 | unlinking keeps a level sorted |
| TypedSkip.UnlinkedFirst | lib/typesafe.h:460-467 | the first item is always unlinked when it is the one deleted (so `_pop` works) |
| TypedSkip.RankAt | lib/typesafe.c:216-234 | with ties broken by identity, an item's rank is its position |
| TypedSkip.UnlinkedStrict | lib/typesafe.c:208-242 | with a strict comparison, `del` unlinks x from a level exactly when x is there |
| TypedSkip.UnlinkedMissesDuplicate | lib/typesafe.c:208-242 | with two items that compare equal, `del` of the second leaves it linked |
| TypedSkip.AddedNone | lib/typesafe.c:127-177 | adding at no level changes nothing |
| TypedSkip.AddedStep | lib/typesafe.c:166-176 | linking at one more level extends `Added` by one level |
| TypedSkip.DeletedNone | lib/typesafe.c:208-242 | unlinking from no level changes nothing |
| TypedSkip.DeletedBelow | lib/typesafe.c:216-234 | levels not yet visited by `del` are unchanged |
| TypedSkip.DeletedStep | lib/typesafe.c:216-234 | one more level of `del` extends `Deleted` by one level |
| TypedSkip.AddedOk | lib/typesafe.c:127-177 | after `add` every level is sorted and nested, and x is on exactly the levels below `newlevel` |
| TypedSkip.DeletedOk | lib/typesafe.c:208-242 | after `del` every level is sorted, and nested once x has left every level |
| TypedSkip.DeletedStrict | lib/typesafe.c:208-242 | with a strict comparison, `del` removes x from every level |
| TypedSkip.SkipList.Init | lib/typesafe.h:440-445 | `_init` gives empty levels, count 0, and the head tagged with its overflow array |
| TypedSkip.SkipList.Store | lib/typesafe.c:112-125 | `sl_level_set` on the head or an item changes that node only |
| TypedSkip.SkipList.Add | lib/typesafe.c:127-177 | the levels become `Added` for `NewLevel(ctz)`: sorted, nested, and x on exactly the levels below its new level |
| TypedSkip.SkipList.LinkTop | lib/typesafe.c:163-164 | linking `item` after `prev` at level `newlevel - 1` yields `Added` down to that level, with the item's height and tag kept |
| TypedSkip.SkipList.LinkAll | lib/typesafe.c:163-176 | linking at the top level and then each level below yields `Added` |
| TypedSkip.SkipList.LinkBelow | lib/typesafe.c:166-176 | one turn of the second loop links x at the next level down |
| TypedSkip.SkipList.Prepare | lib/typesafe.c:135-148 | the item is zeroed with room for its levels; the lists are unchanged |
| TypedSkip.SkipList.Descend | lib/typesafe.c:150-162 | the first loop stops at level `newlevel - 1`, just before x's rank |
| TypedSkip.SkipList.DescendTurn | lib/typesafe.c:150-162 | one turn moves right or down, keeping the walk settled |
| TypedSkip.SkipList.Walk | lib/typesafe.c:168-172 | the inner loop of `add` stops just before x's rank at its level |
| TypedSkip.SkipList.LinkLevel | lib/typesafe.c:174-175 | the two stores insert x at its rank on level l |
| TypedSkip.SkipList.Find | lib/typesafe.c:181-206 | returns an item on the list that compares equal to x, and null exactly when none does |
| TypedSkip.SkipList.FindTurn | lib/typesafe.c:190-204 | one turn moves right, down, or returns an equal item |
| TypedSkip.SkipList.Del | lib/typesafe.c:208-242 | the levels become `Deleted`, the item is zeroed; with a strict comparison the item leaves every level |
| TypedSkip.SkipList.UnlinkAll | lib/typesafe.c:216-234 | the loop of `del` yields `Deleted` |
| TypedSkip.SkipList.UnlinkTurn | lib/typesafe.c:216-234 | one turn moves right, down, or unlinks and goes down |
| TypedSkip.SkipList.UnlinkAt | lib/typesafe.c:223-224 | the item after the place leaves level l |
| TypedSkip.SkipList.Pop | lib/typesafe.h:460-467 | returns the first item and removes it as `del` does; null on an empty list |
| TypedSkip.SkipList.First | lib/typesafe.h:468-472 | the first item, one no item sorts before, or null |
| TypedSkip.SkipList.Next | lib/typesafe.h:473-477 | the successor on level 0, which does not sort before the item |
| TypedSkip.SkipList.NextSafe | lib/typesafe.h:478-483 | like `_next`, with null for a null item |
| TypedSkip.SkipList.Count | lib/typesafe.h:484-487 | returns the stored count field |
| TypedSkip.SkipList.CountItems | lib/typesafe.h:484-487 | the intended count: the number of items on level 0 |
| TypedSkip.CountAfterAdd | lib/typesafe.c:127-177 | after one `_add` to a fresh list, `_count` still answers 0 |
| Northbound.OperationIsValid | lib/northbound.c:947-1095 | for each operation, exactly the schema-node kinds and flags for which the callback is needed |
| Northbound.CreateModifyExclusive | lib/northbound.c:954-993 | no leaf needs both a `create` and a `modify` callback |
| Northbound.OptionValidateCb | lib/northbound.c:157-176 | an error exactly when a needed, non-optional callback is missing; the "unneeded" and "missing" reports match their conditions |
| Northbound.Strcmp | lib/northbound.c:643 | `strcmp` on the bytes of two C strings before their NUL, none of them 0, is a sign |
| Northbound.StrcmpAntisymmetric | lib/northbound.c:643 | swapping the arguments negates it |
| Northbound.StrcmpZero | lib/northbound.c:643 | it is zero exactly for equal strings |
| Northbound.StrcmpTransitive | lib/northbound.c:643 | it is transitive |
| Northbound.StrcmpPrefix | lib/northbound.c:639-643 | a proper prefix sorts first |
| Northbound.ChangeCompare | lib/northbound.c:630-644 | changes sort by priority first |
| Northbound.ChangeCompareAntisymmetric | lib/northbound.c:630-644 | the order is antisymmetric |
| Northbound.ChangeCompareZero | lib/northbound.c:630-644 | two changes compare equal exactly when priority and XPath agree |
| Northbound.ChangeCompareTransitive | lib/northbound.c:630-644 | the order is transitive, so the tree order is well defined |
| Northbound.ChangeCompareParentFirst | lib/northbound.c:639-643 | at equal priority, a parent node's XPath sorts before its children's |
| Northbound.ParentChangeFirst | lib/northbound.c:639-647 | in the change tree's order, a change to a node comes before every change of equal priority to its descendants |
| Northbound.MarkPreparedSorted | lib/northbound.c:722-738 | marking changes as prepared keeps the tree's order |
| Northbound.Callback | lib/northbound.c:584-628 | the four configuration operations call their callback; any other operation returns NB_ERR |
| Northbound.PrepareStop | lib/northbound.c:734-739 | PREPARE stops at the first change whose callback fails; all before it succeeded |
| Northbound.MarkPrepared | lib/northbound.c:738 | exactly the first k changes get `prepare_ok` |
| Northbound.MarkPreparedStep | lib/northbound.c:738 | marking one more change extends the marking |
| Northbound.AbortCalls | lib/northbound.c:729-733 | ABORT calls back exactly the prepared changes |
| Northbound.Dedup | lib/northbound.c:750-757 | the list keeps every value once, nothing else |
| Northbound.Finishers | lib/northbound.c:751-752 | the non-null `apply_finish` callbacks of the changes |
| Northbound.EachChange | lib/northbound.c:722-733 | one callback per change, in order |
| Northbound.FinishCalls | lib/northbound.c:764-772 | one call per collected `apply_finish`, in order |
| Northbound.AbortCallsStep | lib/northbound.c:729-733 | one more change adds its call exactly when it was prepared |
| Northbound.FinishListStep | lib/northbound.c:750-757 | one more change adds its callback exactly when it is non-null and new |
| Northbound.ProcessNext | lib/northbound.c:722-758 | one turn keeps the number of changes |
| Northbound.ProcessUpTo | lib/northbound.c:722-758 | the loop keeps the number of changes |
| Northbound.ProcessUpToAhead | lib/northbound.c:722-758 | changes not yet reached are unchanged |
| Northbound.ProcessUpToPrepare | lib/northbound.c:734-739 | PREPARE over i changes calls each and marks them prepared |
| Northbound.ProcessUpToAbort | lib/northbound.c:729-743 | ABORT changes nothing and calls the prepared changes |
| Northbound.ProcessUpToApply | lib/northbound.c:740-757 | APPLY calls each change and collects the distinct `apply_finish` callbacks in order |
| Northbound.CopyComment | lib/northbound.c:663-665 | `strlcpy` keeps a prefix shorter than 80 bytes, and the whole comment when it fits |
| Northbound.Transaction.constructor | lib/northbound.c:661-667 | a new transaction has the given client, comment and config, and no changes, which are trivially in the tree's order |
| Northbound.Transaction.RunFinishCallbacks | lib/northbound.c:764-772 | the closing loop calls each collected `apply_finish` once, in order |
| Northbound.Transaction.Process | lib/northbound.c:711-775 | PREPARE marks changes up to the first failure and returns its error; ABORT calls only prepared changes; APPLY calls every change, then each distinct `apply_finish`; only PREPARE changes the transaction, and the changes stay in the tree's order, so (`ParentChangeFirst`) a parent's callback is called before its descendants' |
| Northbound.Northbound.constructor | lib/northbound.c:88 | no transaction is in progress at start |
| Northbound.Northbound.TransactionNew | lib/northbound.c:649-670 | null while a transaction is in progress; otherwise a fresh transaction, and the lock is taken |
| Northbound.Northbound.TransactionFree | lib/northbound.c:672-683 | the changes are drained and the lock is released |
| Northbound.SingleTransaction | lib/northbound.c:649-683 | a second transaction cannot start until the first is freed |
| IsisPdu.PduSize | isisd/isis_pdu.c:1378-1406 | exactly the ten known types have a size: their header length plus the fixed header |
| IsisPdu.FixedHeader | isisd/isis_pdu.c:1567-1582 | the eight header bytes: discriminator, length, versions, type, zero ID length and max areas |
| IsisPdu.Stream.constructor | isisd/isis_pdu.c:1567-1582 | an empty stream of the given capacity |
| IsisPdu.Stream.Putc | isisd/isis_pdu.c:1567-1582 | appends one byte |
| IsisPdu.Stream.FillFixedHdr | isisd/isis_pdu.c:1567-1582 | appends exactly `FixedHeader(t)` |
| IsisPdu.Stream.PduLenValidate | isisd/isis_pdu.c:539-550 | rejects a length below the read position, above the MTU or past the data; otherwise cuts the data to that length |
| IsisPdu.HandlePdu | isisd/isis_pdu.c:1412-1530 | each header check of the dispatcher, in order, with its error or warning: too short, not IS-IS, version 1, ID length, unknown type, header length, short PDU, version 2, passive circuit, area-address count; a PDU that passes every check goes to the handler of its type unless fabricd refuses that type; a PDU reaches a handler only when every check passed |
| IsisPdu.FixedHeaderAccepted | isisd/isis_pdu.c:1412-1582 | a header written by `fill_fixed_hdr` passes the dispatcher's checks and reaches the handler for its type |
| IsisPdu.PassiveWarns | isisd/isis_pdu.c:1484-1488 | a passive circuit answers every well-formed header with a warning |
| IsisPdu.Holdtime | isisd/isis_pdu.c:1601-1607 | a product that fits in 32 bits is clamped to 0xffff; a larger one gives what its value modulo 2^32 gives, as in 32-bit arithmetic |
| IsisPdu.HoldtimeWraps | isisd/isis_pdu.c:1601-1602 | a product of 2^32 or more wraps before the clamp: 2 * 2^31 gives 0 |
| IsisPdu.GetMaxLspCount | isisd/isis_pdu.c:1824-1840 | the counted entries, with two header bytes per TLV, fit in the given size |
| IsisPdu.LspSizeSplit | isisd/isis_pdu.c:1831-1835 | a size is whole 255-byte TLVs plus a remainder |
| IsisPdu.GetMaxLspCountMonotonic | isisd/isis_pdu.c:1824-1840 | more room never fits fewer entries |
| IsisPdu.LastTlvEntriesMonotonic | isisd/isis_pdu.c:1835-1837 | the last TLV's count grows with the remainder and stays at most 15 |
| IsisPdu.LastBelowFF | isisd/isis_pdu.c:1949-1955 | the last byte below 0xff, or none when every byte is 0xff |
| IsisPdu.AdvanceStartAsWritten | isisd/isis_pdu.c:1947-1955 | the written advance copies `stop` and adds one to its last byte below 0xff, leaving the later 0xff bytes; it loops exactly when such a byte exists |
| IsisPdu.AdvanceSkipsIds | isisd/isis_pdu.c:1947-1955 | from `..01 ff` the written advance yields a value 256 above `stop`, not 1 |
| IsisPdu.Increment | isisd/isis_pdu.c:1943-1946 | adding one to a big-endian LSP ID keeps its length |
| IsisPdu.IncrementValue | isisd/isis_pdu.c:1943-1946 | bumping the last byte below 0xff and zeroing the rest adds exactly one |
| IsisPdu.AdvanceStart | isisd/isis_pdu.c:1943-1956 | corrected advance: loops exactly when `stop` is not all 0xff, and then the next start is `stop` + 1 |

## Left out

- Memory allocation is not modelled:
  - `XREALLOC` and `XFREE` of the bucket array;
  - `XMALLOC` and `XFREE` of the skip-list overflow block;
  - `XCALLOC` and `XFREE` of transactions and changes.

  Arrays are sequences that are replaced. Freed blocks simply drop out of the model. A fresh overflow block
  starts with null pointers.
- Hash `maxsize` and `minsize`: nothing in this version sets them (`_init` zeroes the head and `_fini` clears
  `minsize`), so the class keeps them 0. Their capping appears only in `GrowSize` and `ShrinkSize`. The
  `newsize == tabsize` early return of both resize functions is therefore never taken in the load band the
  model keeps, and it is not modelled.
- The bit-smearing that rounds the count up to a power of two is modelled by its value (`Pow2Above`). The
  bit operations themselves are not modelled.
- TypedHash.Hash.Add: requires `count + 1 < 2^31`, so that the 32-bit count and table size cannot wrap.
- TypedHashWritten.HashAsWritten.Add: the same bound on the count.
- TypedHash.Hash.Add, TypedHash.Hash.Del, TypedHash.Hash.Pop, TypedHash.Hash.Unlink: these run the corrected
  grow and shrink, not those of `lib/typesafe.c:46-56` and `lib/typesafe.c:83-90`. The source's resize is
  modelled by `TypedHashWritten.HashAsWritten` (see Findings).
- TypedHash.Hash.Find: complete only on the placed table that the corrected resize keeps. On the table as
  written it is sound only (`TypedHashWritten.HashAsWritten.Find`).
- TypedHash.GrowTable, TypedHash.ShrinkTable, TypedHash.GrowIfFullTable, TypedHash.ShrinkIfLowTable,
  TypedHash.AddTable, TypedHash.UnlinkTable: corrected resize. The as-written halves are the members of the
  same names with `AsWritten` in `TypedHashWritten`.
- HashOps.Grown, HashOps.GrownKeeps, HashOps.Shrunk, HashOps.ShrunkKeeps, HashOps.GrowIfFull, HashOps.Added,
  HashOps.AddedKeeps, HashOps.AddedTableOk, HashOps.DeletedKeeps: corrected resize. The as-written halves are
  in `HashWrittenOps`. They keep the items and the chains apart, but not placement.
- TypedHashWritten.HashAsWritten.Next: `_next` restarts its bucket scan after the bucket of the item's cached
  hash value, not after the bucket the item sits in. On a table the written resize has stranded, iteration
  revisits items and may never end (`HashWrittenOps.IterationCycles`); the model states the step, not a
  bound on the walk.
- HashWritten.ShrinkWritten: the loop over j of `typesafe_hash_shrink` is modelled for a halving, where it
  runs once (j = i + n). The load band only ever halves the table.
- `random()` in `typesafe_skiplist_add` becomes a parameter: the count of trailing zeros it yields.
  `__builtin_ctz(0)` is undefined in C and is not modelled.
- TypedSkip.SkipList.Del: the invariant `Valid()` is proved after the call only for a strict comparison
  (ties broken by identity). With a comparison that lets items compare equal, an item that `del` fails to
  unlink (see Findings) stays on some levels.
- TypedSkip.SkipList.Pop: `Valid()` after the call is proved only for a strict comparison (ties broken by
  identity). The invariant does not record that every level orders equal items alike, and the general case
  would need that.
- TypedList.SList.AddAfterAsWritten: a null anchor dereferences a null pointer in the written code. The
  model requires a non-null anchor.
- IsisPdu.Stream.FillFixedHdr: an unknown PDU type is an assertion failure in the daemon and is excluded by its
  precondition.
- The daemon headers that define the IS-IS constants are not part of this model: `isisd/isis_pdu.h` and
  `isisd/isis_constants.h`. The values used are those of ISO/IEC 10589 (section 9)
  and RFC 7356. The LSP entries TLV limit is taken as 255 bytes.
- The field widths of the hello multiplier and interval (16 and 32 bits) come from `isisd/isis_circuit.h`,
  which is not part of this model.
- Handler bodies are not modelled: `process_hello`, `process_lsp` and `process_snp` become verdicts of
  `HandlePdu`.
- The rest of `send_csnp` and of the PDU builders is not modelled. Only the start-ID advance is.
- Configuration callbacks are code outside this model: the result each one returns is a field of the
  change.
- YANG data trees, XPath rendering (`lyd_path`) and the change red-black tree are not modelled:
  - the changes of a transaction are the tree's in-order sequence;
  - `nb_transaction_add_change` and `nb_transaction_del_change` appear only as that sequence growing and
    draining.
- Logging (`zlog_*`, debug dumps) and concurrency are not modelled.

## Findings

| source | as written | input that shows it | evidently intended | confidence | as-written member | corrected member |
|---|---|---|---|---|---|---|
| lib/typesafe.h:199-210 | `cmpval = cmpfn(...) < 0` binds the comparison's truth value, so the loop stops at the first item not below the probe, and `cmpval > 0` is never true | list [5], lookup of key 3 returns 5 | return only an item that compares equal | not executed | TypedSort.FindAsWrittenReturnsLarger | TypedSort.SortList.Find |
| lib/typesafe.h:90-100 | `after ? &first : &after->next` is inverted: a non-null anchor inserts at the head, and a null anchor dereferences null | list [1, 2]: adding 3 after 2 gives [3, 1, 2] | insert after the anchor, or at the head for null | not executed | TypedList.SList.AddAfterAsWritten | TypedList.SList.AddAfter |
| lib/typesafe.c:46-56 | chains are ordered by full hash value, but the split moves the whole tail from the first item of the upper bucket on | hashes 5 and 9 in bucket 1 of a table of 4: both end in bucket 5 of 8, and a lookup of 9 misses it | split each chain by bucket, in order | not executed | HashSpec.GrowAsWrittenMisplaces | HashSpec.GrowSpecPlaced |
| lib/typesafe.h:304-332 | `_add` grows the table with the written split, which strands an item off the bucket of its hash | table [[0], [5, 9], [], []] with hash = value: `_add` of 2 grows it to 8 buckets with 5 and 9 in bucket 5; `_find` and `_del` of 9 then look in bucket 1 and miss it | every item stays in the bucket of its hash | not executed | HashWrittenOps.AddAsWrittenStrands | TypedHash.Hash.Add |
| lib/typesafe.h:374-384 | `_next` restarts after the bucket of the item's hash value, which after the written grow is not always the item's bucket | the table above after `_add` of 2: `_next` goes 0, 2, 5, 9, 2, 5, 9, ... and `frr_each` never ends | each item is visited once, in bucket order | not executed | HashWrittenOps.IterationCycles | TypedHash.Hash.Next |
| lib/typesafe.c:82-89 | chain i + n is appended to chain i, breaking the hash order that `_find` and `_del` rely on | hashes 8 and 4 in buckets 0 and 4 of 8 become [8, 4] in bucket 0 of 4; a lookup of 4 misses it | merge the two chains by hash value | not executed | HashSpec.ShrinkAsWrittenUnsorts | HashSpec.ShrinkSpecPlaced |
| lib/typesafe.c:216-234 | `del` unlinks the item only where it is the first item not sorting before it; an equal-comparing item in front hides it | items 1 and 2 with equal keys on level [1, 2]: deleting 2 leaves it linked | reject duplicates, or walk past equal items | not executed | TypedSkip.UnlinkedMissesDuplicate | TypedSkip.DeletedStrict |
| lib/typesafe.h:484-487 | `count` is never updated by `add` or `del` | one `_add` to a fresh list, then `_count` is 0 | count the items | not executed | TypedSkip.CountAfterAdd | TypedSkip.SkipList.CountItems |
| isisd/isis_pdu.c:1947-1955 | the start ID is `stop` with its last byte below 0xff incremented; the trailing 0xff bytes are not reset to 0 | `stop` = 00 00 00 00 00 00 01 ff gives start 00 00 00 00 00 00 02 ff, skipping 255 LSP IDs | start at `stop` + 1 | not executed | IsisPdu.AdvanceSkipsIds | IsisPdu.AdvanceStart |
