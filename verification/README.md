# A verified model of TRURLib's containers

TRURLib is a C library of containers and small utilities. This project models the parts of it that carry
the most state, together with the two vendored containers its benchmark drives, and proves what they are
for. Nothing was executed: every statement below is a Dafny contract.

- **Robin Hood hash table** (`noash.c`): an open-addressing table whose slots hold a hash, a probe length,
  a key length and an index into a side array of dentries. `RobinHood` treats the slot array alone,
  `OashSpec` the table as a value, `Oash` the operations on the arrays, `OashRuns` whole sequences of
  operations, `OashCopy` duplication, `OashCopyFails` a table that cannot be duplicated, and `OashStore` the
  stream format.
- **Chained quadratic table** (`perftests/v/verstable.h`): `Triangular` and `Probing` treat the probe sequence,
  `Chains` the linked structure threaded through the buckets by quadratic displacements, `VerstableSpec` the
  effect of each write, `VerstableLimits` what the displacement limit can do, `Verstable` the code.
- **Ordered map** (`perftests/v/cc.h`): `RbTrees` has red-black trees as values and the heaps of nodes that
  draw them, `OrderedLists` the sorted association lists that the map computes, `OrderedMap` the pointer code.
- **Obstack** (`lib/obstack.c`, `lib/obstack.h`): `Obstack`, over one array of bytes as the address space.
- **Chained hash table with alternate slots** (`n_hash_put.c`, `n_hash_get.c`, `n_hash_remove.c`): `ChainedHash`.
- **Sorting and searching** (`n_array_sorts.c`, `ntuple.c`): `Sorts`.
- **Quoting tokenizer** (`nstr_tokl.c`): `Tokenizer`, in `TokenText` which quoted and escaped items come back, and in
  `TokenLines` what whole lines are taken apart into.
- **String interning** (`nmalloc.c`): `Interning`, on top of `Oash`.

`Words` has the fixed-width words, the keys and the masks that all tables share.

## How the model is built

Objects that the C code updates in place are classes with the same fields; arrays are arrays; loops are
loops. A method is proved against a function or predicate on values, and the laws are lemmas about that
value. Ghost fields record what the C code leaves implicit: the tree that the nodes draw, the chain that the
links form, the cell of each key. Where a method of the model is a part of one C function, the split is only
there to keep proofs short, and the row cites the lines of the part.

Hash functions are arbitrary functions of the key. Comparison functions are arbitrary total preorders. An
allocation that may fail is a parameter that says whether it is granted, or where the memory lies.

## What the proofs found

- **An insertion into the Robin Hood table can fail its own assertion.** After a swap `n_oash_put_entry`
  carries a displaced entry, compares that entry's hash and length with the slot in the way, but compares the
  bytes of the *new* key with the slot's key, over the slot's key length (`noash.c:275-277`). If two stored keys have
  the same 32-bit hash and length and the second is a proper prefix of the new key, the test succeeds and
  `n_assert(re == NULL)` fires. `Oash.Table.Put` fails exactly for an absent key that `Clashes`: the chain
  that starts at the key's home displaces one of two such entries and carries it into the other.
  `OashSpec.ClashNeedsTwins` says what a caller can check beforehand, and `OashSpec.ClashExample` is a
  table of four slots in which it happens. Everywhere else the table refines a finite map.
- **A valid table need not have a copy.** `n_oash_dup` puts the entries into the new table in the order of the
  slots (`noash.c:753-768`), not in the order in which they came. Entries that wrapped round to the first slots
  then come first, take the places of others, and are displaced again, so that the copy can run into the same
  failing assertion although the table was built without one. `OashCopyFails.CopyFails` puts four keys into a
  table of four slots, all four puts succeed, and the copy fails. `OashCopy.Dup` fails exactly if the
  next insertion clashes in the slots that the copy has at that moment, which the insertions before it
  determine (`Copies`, `Begins`). It cannot fail if slot 0 is free or holds an entry at home: then nothing wraps
  round, no entry is displaced, and the copy has the same slots as the table (`OashCopy.CopyMirrors`).
- **A failed eviction cuts a key off, and the next insertion of the same key need not end.** `_evict` unlinks
  the key before it looks for a new bucket (`perftests/v/verstable.h:1083-1089`). It fails exactly if the 2046
  probes from the home of that key are all taken (`Verstable.Table.Evict`); an insertion cuts a key off exactly
  if the load allows it, its home bucket holds a key of another chain, and that chain has no room
  (`State.CutsOff`, in `InsertRaw` and `Insert`). `VerstableLimits.EvictionFails` is a table of 4096 buckets and
  2047 keys in which it happens. `Verstable.Table.Sound` allows any set of cut-off buckets: `Get` and `Erase`
  treat their keys as absent, although they are still counted, and the next rehash links them again. If the
  allocation for that rehash is refused, two kinds of later insertions go wrong. One into a cut-off bucket makes
  `_evict` search a chain that no longer leads there (`VerstableLimits.CutOffUnmet`); in the example it goes back
  and forth between two buckets for ever (`VerstableLimits.EvictionNeverEnds`). One of the cut-off key
  itself, as soon as it is not refused, stores the key in a second bucket (`VerstableSpec.StoredTwice`); while it
  is refused, for want of room or of load, it only asks for the rehash that links the key again, and that
  insertion succeeds (`Insert`). In a table of up to 2048 buckets none of this can happen.
- **Refused growth can switch growth off in the chained table.** `n_hash_put` subtracts 32-bit words
  (`n_hash_put.c:190`), so it asks for growth exactly while the table is at least two thirds full and has no
  more items than slots (`ChainedHash.GrowthWindow`). A refused allocation is ignored, so refusals can take it
  beyond that, and from then on no put enlarges it, until removals bring it back. `ChainedHash.Outgrown` takes
  a table of four slots to six items; the last put would have been granted an enlargement and asks for none.
- **An obstack forgets an allocation failure only when a later allocation succeeds.** `Obstack.Obstack.Reserve`:
  after a failure, requests that would fit into the current chunk are refused too; `Obstack.RefusedByte` is such
  an obstack.
- **Several escapes at the beginning of a token are read differently from several escapes within one.** The
  first is kept by itself, the others are then taken in pairs (`nstr_tokl.c:246-259`). It makes a difference
  exactly if a special character follows (`TokenText.DoubleEscapeDiffers`). As a consequence escaping the special
  characters of an item is undone exactly if every run of escapes in front of a special character or the end
  is even, but a run that begins the item odd, and in front of the end more than one
  (`TokenText.EscapingComesBack`, `TokenText.Survives`).

## Model

| member | source | states |
|---|---|---|
| Words.MaskIsRemainder | noash.c:42 | masking a hash with a power of two minus one is the remainder, whatever the width |
| RobinHood.MaskedStep | noash.c:292 | the masked increment is the cyclic successor |
| RobinHood.ProbePath | noash.c:268-292 | from the home of an entry up to its slot every slot is occupied by an entry at least as far from its own home |
| RobinHood.Settle | noash.c:265-290 | putting a carried entry into an empty or less displaced slot keeps every probe length the cyclic distance from home, at most one more than before it |
| RobinHood.RoomAhead | noash.c:291-292 | while a slot is empty a carried entry never reaches a probe length of the capacity, so the chain ends |
| RobinHood.ChainEnd | noash.c:262-296 | a whole swap chain adds exactly one entry to the multiset of old entries and the returned slot holds the new one |
| RobinHood.TwinMet | noash.c:275-277 | when a displaced entry agrees with the slot in its way on hash and length, the chain has displaced one of two twins into the other |
| RobinHood.BoundStep | noash.c:283-292 | a chain bound for such a meeting cannot avoid it |
| RobinHood.ShiftEnd | noash.c:715-733 | after a removal with backward shift all probe lengths are right, some slot is a stop, and exactly the removed entry is gone |
| RobinHood.ShiftWraps | noash.c:715-733 | a shift that goes all the way round, as it can in a full table, stops at the entry it moved first |
| RobinHood.ShiftedFits | noash.c:715-733 | every slot after the shift satisfies the invariant |
| OashSpec.SameIsPrefix | noash.c:275 | comparing with strncmp over one key's length asks whether that key is a prefix of the other |
| OashSpec.HashOf | noash.c:174-183 | a computed hash is never zero, and is otherwise the hash of the key |
| OashSpec.OneSlot | noash.c:41-43 | the data index, the key and the slot determine each other |
| OashSpec.FreeCell | noash.c:338-350 | with fewer keys than cells some cell is empty, so the search for one ends |
| OashSpec.Job.Start | noash.c:253-256 | the insertion loop starts within its invariant |
| OashSpec.Job.Stop | noash.c:265-271 | at an empty slot the insertion succeeds and no clash lies ahead |
| OashSpec.Job.Match | noash.c:275-281 | a slot that passes the key test holds the key, unless an entry is carried; then there is a clash |
| OashSpec.Job.NotThere | noash.c:275 | a slot that fails the key test is not the one the insertion is bound for |
| OashSpec.Job.Forward | noash.c:283-292 | both ways of going on keep the loop invariant |
| OashSpec.Job.Straight | noash.c:262-292 | as long as the insertion only skips slots it has not passed the slot it is straight to |
| OashSpec.Job.StraightNoClash | noash.c:262-292 | an insertion into a free slot, behind entries at least as far from home, displaces nothing and does not clash |
| OashSpec.StateInsert | noash.c:396-403 | placing an entry and its dentry extends the map by the key |
| OashSpec.StateRemove | noash.c:703-745 | shifting back and clearing the cell removes exactly the key |
| OashSpec.Search.Begin | noash.c:565-580 | the early-exit search starts without having passed the key |
| OashSpec.Search.GiveUp | noash.c:581-607 | each early exit means that the key is in no slot |
| OashSpec.Search.Hit | noash.c:594-599 | a matching slot is the slot of the key |
| OashSpec.Search.Scan | noash.c:565-608 | a key that is not in the map is in no slot |
| OashSpec.PslDiff | noash.c:549-562 | the computed difference of index and home is the cyclic distance, in the wrapped case too |
| OashSpec.StateRehashed | noash.c:519-547 | when all old slots have been reinserted the new table stands for the same map |
| OashSpec.ShiftingOn | noash.c:715-733 | the backward shift never makes a full turn, because some slot is empty or holds an entry at home |
| OashSpec.CleanEnd | noash.c:772-790 | emptying slot after slot and cell after cell leaves the empty table |
| OashSpec.ClashNeedsTwins | noash.c:275-277 | an insertion can only fail if two stored keys agree on hash and length and one is a proper prefix of the new key |
| OashSpec.ClashExample | noash.c:275-277 | a table of four slots in which inserting a two-byte key fails the assertion |
| Oash.Table.constructor | noash.c:62-98 | a new table is empty and its capacity the least power of two from four up that holds the requested size |
| Oash.RoundedUp | noash.c:90-98 | the doubling loop ends at the least power of two that is at least the size, and at least four |
| Oash.Table.Ctl | noash.c:195-203 | flags are added exactly while the table is empty |
| Oash.Table.GetEntry | noash.c:565-608 | finds exactly the keys of the map and ends within one turn and one probe, full table or not |
| Oash.Table.PutEntry | noash.c:243-296 | finds the key and changes nothing, adds exactly one entry, or fails; it fails if and only if there is a clash |
| Oash.Table.PutDentry | noash.c:338-350 | returns a cell that was empty, wherever the hint points |
| Oash.Table.ReallocData | noash.c:510-517 | doubles the cells and keeps every dentry in its cell |
| Oash.Table.Rehash | noash.c:519-547 | doubles the table; every key keeps its dentry object and its cell |
| Oash.Table.FinishInsert | noash.c:400-407 | links a new dentry to its slot and grows the table when it is two thirds full |
| Oash.Table.Put | noash.c:352-427 | inserts, keeps or replaces as the mode says; a present key, or a full table, changes nothing else; with the rehash flag more than a third of the slots stays free, so the full-table branch is never reached; fails if and only if the key is absent and clashes |
| Oash.Table.Keep | noash.c:408-427 | a present key keeps its dentry, whose element only a replacement overwrites |
| Oash.Table.Get | noash.c:610-628 | the element, or NULL for an absent key |
| Oash.Table.ShiftBack | noash.c:715-733 | closes the gap in place and keeps the invariant even if no slot is empty |
| Oash.Table.Remove | noash.c:703-745 | removes exactly the key and returns its element |
| Oash.Table.TakeOut | noash.c:715-744 | the key of a slot goes with its dentry, and every other key keeps its dentry |
| Oash.Table.Clean | noash.c:772-790 | empties the table and keeps its capacity |
| OashRuns.Store | noash.c:352-427 | one insertion or replacement is the same operation on the finite map; a full table that does not grow refuses a new key; it fails if and only if the key is new and clashes, and then it has room and stands before twins |
| OashRuns.Drop | noash.c:703-745 | one removal is the same operation on the finite map |
| OashRuns.Look | noash.c:610-656 | a lookup changes nothing and answers as the map does |
| OashRuns.Wipe | noash.c:772-790 | cleaning empties the map |
| OashRuns.LookupAfter | noash.c:352-790 | what a lookup finds after each operation: new keys only while there is room, replacements unless they are forbidden, and no other key touched |
| OashRuns.Answered | noash.c:429-481 | when an operation on the finite map says that it has stored the key, and which element it gives |
| OashRuns.Replaced | noash.c:458-472 | the same for the replacing put, which a NOREPLACE table refuses without doing anything |
| OashRuns.Apply | noash.c:429-481 | each operation has the effect and the answer of the finite map, in which a table that does not grow takes as many keys as it has slots and a NOREPLACE table is not overwritten; it fails if and only if it inserts a new key that clashes |
| OashRuns.Run | noash.c:352-790 | every run of insert, replace, get-or-insert, lookup, remove and clean, on growing, fixed and NOREPLACE tables, gives the answers and the final map of the finite map, across all rehashes and refusals; if it stops, it stops at the insertion of a new key that clashes in a table of the map reached so far, and all answers before it are those of the map |
| OashRuns.ClashesNeedTwins | noash.c:275-277 | the same condition for the table object |
| OashCopy.Dup | noash.c:747-770 | the copy has the same keys, NULL for NULL and otherwise what the callback makes of the element, the same capacity and the flags without NOCPKEY, and never grows; it fails if and only if the next insertion in slot order clashes in the partial copy; if no entry wraps round it does not fail and has the same slots |
| OashCopy.CopyStart | noash.c:747-752 | rounding up the capacity of a table gives that capacity, so the copy starts at the right size |
| OashCopy.CopyBegins | noash.c:747-752 | the copy begins with no insertion and an empty table |
| OashCopy.CopyRoom | noash.c:753-768 | a copy in progress always has room and never has to grow |
| OashCopy.KeysToEnd | noash.c:753-768 | going through all slots meets exactly the keys of the table |
| OashCopy.CopyMirrors | noash.c:753-768 | if slot 0 is free or holds an entry at home, inserting in slot order rebuilds the slots one by one and displaces none |
| OashCopy.NoClashInOrder | noash.c:753-768 | then no insertion of the copy clashes |
| OashCopyFails.CopyFails | noash.c:747-770 | a table that four successful puts have built, and whose copy fails |
| OashCopyFails.CopyClashes | noash.c:753-768 | whenever three of the four slots of such a table have been copied the fourth clashes |
| OashStore.Be16 | include/trurl/nstream.h:126-131 | network order: of two bytes the first counts 256 times as much as the second |
| OashStore.Be32 | include/trurl/nstream.h:133-138 | network order: of four bytes each counts 256 times as much as the next |
| OashStore.Be16RoundTrip | include/trurl/nstream.h:85-131 | a 16-bit number reads back as itself |
| OashStore.Be32RoundTrip | include/trurl/nstream.h:98-138 | a 32-bit number reads back as itself |
| OashStore.FlagsRoundTrip | noash.c:796-845 | the flag bits read back, without NOCPKEY |
| OashStore.HeaderBytes | noash.c:800-805 | the header byte by byte: the version, the capacity, the flag word with bits 4 and 8 for growing and not replacing, and the number of entries |
| OashStore.RecordBytes | noash.c:812-819 | a record byte by byte: the number of the slot, the hash, the probe length, the key length, the cell, and the key |
| OashStore.Stream.Read | include/trurl/nstream.h:85-109 | takes what is there and no more off the stream |
| OashStore.Store | noash.c:796-828 | the bytes of the header, then for every occupied slot in turn its record and what the callback makes of its element; the number of entries, or 0 exactly if a callback fails or the table is empty |
| OashStore.ReadEntry | noash.c:846-866 | one record goes into the slot and the cell it names |
| OashStore.LoadingMore | noash.c:846-866 | as long as entries are missing the stream has records of later slots |
| OashStore.LoadingEnd | noash.c:846-868 | once every entry is read all slots and cells are as stored |
| OashStore.Restore | noash.c:830-873 | NULL unless the stream begins with the version; from a stored table the same table slot by slot, with the hint left at zero |
| OashStore.RoundTrip | noash.c:796-873 | storing and restoring gives a table that is the same slot by slot and maps the same keys to the same elements, with its invariant intact |
| Sorts.Partition | n_array_sorts.c:26-47 | one partition rearranges its range around the returned position and stays in bounds |
| Sorts.Qsort | n_array_sorts.c:22-62 | sorts a permutation in place for every total preorder; nested calls go no deeper than the logarithm of the size |
| Sorts.Deeper | n_array_sorts.c:52-60 | a call for the smaller side is one level deeper and at most half as large |
| Sorts.InsertOne | n_array_sorts.c:74-91 | one element moves down past everything greater and nothing that compares equal |
| Sorts.Isort | n_array_sorts.c:64-93 | sorts in place and keeps elements that compare equal in their order |
| Sorts.AlikeAt | ntuple.c:90-111 | the elements that compare equal to one, at exactly the positions where they do and in the order of those |
| Sorts.ExchangeNeighbours | n_array_sorts.c:83-86 | moving an element past a different neighbour keeps the order of equals |
| Sorts.Tuple.Sort | ntuple.c:90-111 | either algorithm sorts a permutation; up to ten elements are sorted stably by default |
| Sorts.Tuple.Bsearch | ntuple.c:128-153 | some position that compares equal, or -1 exactly when none does |
| Sorts.Tuple.BsearchIdx | ntuple.c:156-184 | the first position that compares equal, or -1 exactly when none does |
| Sorts.FirstEqual | ntuple.c:169-175 | an equal element whose left neighbour differs is the first |
| Probing.ProbesDiffer | perftests/v/verstable.h:470-473 | no two of the first n quadratic probes meet in a table of n buckets, n a power of two |
| Probing.ProbesReachAll | perftests/v/verstable.h:466-473 | the triangular numbers are a permutation of the buckets: every bucket is probed at exactly one displacement below n |
| Chains.FollowedExactly | perftests/v/verstable.h:1443-1461 | from any bucket on, following the links meets exactly the keys of the same home at no smaller displacement, in order of displacement |
| Chains.ChainOfHome | perftests/v/verstable.h:1443-1461 | from an occupied home bucket the links meet exactly the keys that belong there, by strictly increasing displacement |
| Chains.LinkNames | perftests/v/verstable.h:1070-1080 | a link leads to a bucket exactly when it holds that bucket's displacement, so searching by place is safe |
| Chains.Join | perftests/v/verstable.h:1232-1240 | linking a free bucket between two displacements keeps all chains |
| Chains.Unlink | perftests/v/verstable.h:1083-1084 | passing over a bucket keeps all chains of the others |
| Chains.Head | perftests/v/verstable.h:1156-1160 | a new head does not disturb other chains, for no key of its home was stored |
| Chains.Behead | perftests/v/verstable.h:1485-1495 | emptying a chain of one keeps all other chains |
| VerstableSpec.SearchedInVain | perftests/v/verstable.h:1009-1030 | the search for an empty bucket fails only if at least 2047 keys are stored, or as many as there are buckets |
| VerstableSpec.MoveWritten | perftests/v/verstable.h:1092-1102 | moving an evicted key to a bucket of its own chain changes no mapping |
| VerstableSpec.LastWritten | perftests/v/verstable.h:1535-1550 | moving the last key of a chain over an erased one removes exactly the erased key |
| VerstableSpec.EndWritten | perftests/v/verstable.h:1516-1530 | unlinking and emptying the last bucket of a chain removes exactly its key |
| VerstableSpec.WalkEnds | perftests/v/verstable.h:1455-1458 | a key not met up to the end of its chain is not stored, or has been cut off |
| VerstableSpec.NoChain | perftests/v/verstable.h:1431-1435 | without the in-home flag no reachable key belongs to the bucket |
| VerstableSpec.StoredTwice | perftests/v/verstable.h:1232-1240 | a cut-off key that is stored again, as a head or behind another key, is in two occupied buckets |
| VerstableSpec.Metadatum | perftests/v/verstable.h:1144-1160 | a metadatum shows the highest four bits of the hash, and the in-home flag only in the bucket that the lowest bits name |
| VerstableLimits.CrowdedNeeds | perftests/v/verstable.h:1319-1331 | only a table of more than 2048 buckets can be too crowded for a map, and only for more than 2047 keys |
| VerstableLimits.RefusedFor | perftests/v/verstable.h:1218-1227 | below the maximum load a key is refused only in a table of at least 2047 keys |
| VerstableLimits.AttemptEnd | perftests/v/verstable.h:1379-1386 | the size after an insertion: the old one, or at least 8 buckets for the first key and twice the bucket count for others; with fewer than 2047 keys exactly that, if the key was absent and the load reached |
| VerstableLimits.CutOffUnmet | perftests/v/verstable.h:1070-1080 | the links from the reachable keys lead to no key that was cut off |
| VerstableLimits.EvictionFails | perftests/v/verstable.h:1083-1089 | a valid table of 4096 buckets and 2047 keys in which an insertion evicts a key in vain |
| VerstableLimits.EvictionNeverEnds | perftests/v/verstable.h:1070-1080 | in that table, after the failed eviction, the search of the next eviction of the same bucket never meets it |
| Verstable.Table.FindFirstEmpty | perftests/v/verstable.h:1009-1030 | the first empty probe from displacement 1 to 2046, or that all of them are occupied |
| Verstable.Table.FindInsertLocation | perftests/v/verstable.h:1036-1052 | the last key of the chain that is nearer than the displacement |
| Verstable.Table.Evict | perftests/v/verstable.h:1065-1104 | vacates the bucket without changing the map; fails exactly if all probes from displacement 1 to 2046 of the key in it are taken, and then cuts off exactly that key |
| Verstable.Table.InsertRaw | perftests/v/verstable.h:1128-1250 | inserts or finds the key; refuses it exactly if it is absent or cut off and the load is reached, its chain has no room, or the key in its home bucket finds none; cuts a key off exactly in the last case; a refusal changes no mapping |
| Verstable.Table.InsertHead | perftests/v/verstable.h:1145-1172 | a key whose home bucket holds no head becomes one, after an eviction if need be; refused exactly if that fails |
| Verstable.Table.InsertTail | perftests/v/verstable.h:1218-1249 | a key of an existing chain goes into the first empty probe and into its place in the chain; refused exactly if there is none |
| Verstable.Table.PlaceTail | perftests/v/verstable.h:1230-1240 | a new key goes into the free bucket and between the keys of its chain that are nearer and farther |
| Verstable.Table.Search | perftests/v/verstable.h:1183-1215 | comparing only where four hash bits agree finds every reachable key |
| Verstable.Table.Init | perftests/v/verstable.h:908-923 | the table without an allocation is a valid empty table |
| Verstable.Table.Reinsert | perftests/v/verstable.h:1302-1317 | all keys arrive, the cut-off ones too, or the new size is too crowded: a table of that size with a part of the map has no place for another key of it |
| Verstable.Table.Rehash | perftests/v/verstable.h:1268-1346 | the same map in a valid table of the asked size or a doubling of it; every size passed over is too crowded for a part of the map; nothing changes exactly if the size it stops at is refused |
| Verstable.Table.Grow | perftests/v/verstable.h:1370-1386 | after a refusal the table grows without cut-off keys, or growth was refused at a size that was asked for |
| Verstable.Table.Insert | perftests/v/verstable.h:1355-1421 | insert and get-or-insert update the finite map, also for a cut-off key that is refused until a rehash has linked it; they end in vain exactly if the last table refuses the key, which is then the old table or a larger one whose growth was refused at a size that was asked for; with fewer than 2047 keys exactly if the key is absent or cut off, the load reached and the doubled size refused; says exactly when a key is cut off; the table changes its size only after a refusal, to at least 8 buckets for the first key and at least twice as many for others |
| Verstable.Table.Get | perftests/v/verstable.h:1426-1462 | finds a stored key and its value exactly when no failed eviction has cut it off |
| Verstable.Table.EraseItrRaw | perftests/v/verstable.h:1473-1562 | erases exactly the key, in a table with cut-off keys too; the keys from the reported next position on are exactly those that were behind it |
| Verstable.Table.Erase | perftests/v/verstable.h:1566-1574 | removes the key from the finite map and says whether it was there; a cut-off key counts as absent |
| Verstable.Table.EraseChosen | perftests/v/verstable.h:387-389 | a loop over the buckets that erases any chosen keys visits every key exactly once and leaves exactly the others |
| RbTrees.PlugGood | perftests/v/cc.h:3900-3932 | a tree is red-black exactly if the subtree and the path to it meet their shares of the conditions |
| RbTrees.Shallow | perftests/v/cc.h:3900-3932 | a red-black tree of n nodes has at most 2 log2(n + 1) levels |
| RbTrees.RotatedInorder | perftests/v/cc.h:3874-3897 | a rotation keeps the order of the nodes |
| RbTrees.RotateWritten | perftests/v/cc.h:3880-3896 | the pointer writes of a rotation, at most four nodes, draw the rotated tree |
| RbTrees.RecoloredBelow | perftests/v/cc.h:3910-3916 | recolouring parent, uncle and grandparent leaves at most one red-red pair, two levels higher |
| RbTrees.StraightBelow | perftests/v/cc.h:3919-3923 | rotating an inner grandchild out keeps black heights and the single red-red pair |
| RbTrees.LiftedBelow | perftests/v/cc.h:3925-3927 | recolouring and rotating the grandparent removes the red-red pair |
| RbTrees.InsertSettled | perftests/v/cc.h:3931 | when the loop ends, painting the root black gives a red-black tree |
| RbTrees.LoweredShort | perftests/v/cc.h:4098-4104 | a red sibling is replaced by a black one, the place still one black node short |
| RbTrees.PassedUp | perftests/v/cc.h:4106-4111 | reddening the sibling makes the parent the short place |
| RbTrees.NearUpShort | perftests/v/cc.h:4114-4120 | rotating the near nephew up gives the sibling a red far child |
| RbTrees.BorrowedDone | perftests/v/cc.h:4122-4126 | the last rotation restores all conditions |
| RbTrees.DetachedGood | perftests/v/cc.h:4156-4166 | taking out a red node breaks nothing; taking out a black one leaves its place one black node short |
| RbTrees.SuccessorTakesOver | perftests/v/cc.h:4170-4191 | taking out the successor and giving it the place of the erased node erases exactly that node |
| OrderedLists.PutLookup | perftests/v/cc.h:3940-4026 | after an insertion the key and its equals have the new element, or keep the old one if asked to, and all other keys their own |
| OrderedLists.DropLookup | perftests/v/cc.h:4206-4224 | after an erasure the key and its equals are gone and all other keys as before |
| OrderedLists.PutDropAscending | perftests/v/cc.h:3940-4026 | both keep the entries strictly ascending |
| OrderedMap.Compare | perftests/v/cc.h:3974-3999 | one comparison of the search puts everything on the other side out of question |
| OrderedMap.Map.Rotate | perftests/v/cc.h:3874-3897 | rotates in place; the nodes draw the rotated tree and the sentinel is not written |
| OrderedMap.Map.PostInsertFixup | perftests/v/cc.h:3900-3932 | restores a red-black tree with the same nodes in the same order |
| OrderedMap.Map.Get | perftests/v/cc.h:4029-4049 | the node with an equal key and its element, or NULL exactly when no node has one, after at most 2 log2(n + 1) comparisons |
| OrderedMap.Map.FindPlace | perftests/v/cc.h:3974-3999 | the node with an equal key, or the place where a new one keeps the order, with its parent and its side |
| OrderedMap.Map.Insert | perftests/v/cc.h:3940-4026 | the map update; a red-black tree again; the node it returns has the new key and element unless an old entry was to stay, and every other node keeps its own; NULL exactly for a new key without memory |
| OrderedMap.Map.PostEraseFixup | perftests/v/cc.h:4087-4132 | restores a red-black tree from a place one black node short, even when the place is the sentinel, which is never written |
| OrderedMap.Map.EraseRaw | perftests/v/cc.h:4135-4201 | erases exactly the node; all others keep their order, key and element |
| OrderedMap.Map.Erase | perftests/v/cc.h:4206-4224 | erases the entry with an equal key and says whether there was one |
| OrderedMap.Map.FirstOrLast | perftests/v/cc.h:3768-3782 | the first node in order for one direction, the last for the other, or the end |
| OrderedMap.Map.Iterate | perftests/v/cc.h:3802-3832 | the node right behind in order, or right before, or the end, through parent pointers |
| OrderedMap.Map.EraseItr | perftests/v/cc.h:4230-4244 | erases the node and returns its in-order successor, which is still in the tree |
| Obstack.Separate | lib/obstack.h:456-475 | finished objects share no address with each other or with a chunk header |
| Obstack.Untouched | lib/obstack.h:365-376 | writes above the finished objects of the current chunk, or outside all chunks, change none of them |
| Obstack.Deserted | lib/obstack.c:267-271 | if the growing object starts its chunk and no empty object is announced, no finished object is in that chunk |
| Obstack.OnlyItsChunk | lib/obstack.c:360-364 | the address test holds for the chunk of an object and no other, even for an empty object at its very end |
| Obstack.Unwound | lib/obstack.c:364-378 | cutting the chain at an object keeps every older object where it is |
| Obstack.AlignUpAligns | lib/obstack.h:466-468 | rounding with the mask gives a multiple of the alignment |
| Obstack.AlignUpFirst | lib/obstack.h:466-468 | rounding stops at the first multiple |
| Obstack.NewSize | lib/obstack.c:229-231 | the new chunk has room for the object, the request, and more than a header |
| Obstack.Obstack.Stands | lib/obstack.h:456-475 | every finished object lies in its chunk, behind the header, and has its bytes |
| Obstack.Obstack.Begin | lib/obstack.c:106-155 | a fresh obstack is empty, with a chunk of 4072 bytes and an alignment of 8 for zero |
| Obstack.Obstack.CopyObject | lib/obstack.c:245-262 | copying units from the end and then the odd bytes copies exactly the object |
| Obstack.Obstack.NewChunk | lib/obstack.c:216-278 | the growing object moves unchanged to a chunk with room, of the object, the request, an eighth of the object and 100 more bytes, or the chunk size; the old chunk goes if the growing object starts it and no empty object is announced, and then nothing finished is in it; a refusal changes nothing else |
| Obstack.Obstack.Reserve | lib/obstack.h:365-370 | a request that fits changes nothing, also after an earlier failure, which is only forgotten by an allocation; any other takes a new chunk, or nothing |
| Obstack.Obstack.FailureSticks | lib/obstack.h:365-376 | after a refused request one that fits changes nothing either |
| Obstack.RefusedByte | lib/obstack.h:365-376 | an obstack with room for 48 bytes that refuses one |
| Obstack.Obstack.Grow | lib/obstack.h:365-376 | appends exactly the bytes to the growing object, or nothing on failure; it stays where it is if they fit, and else begins the new chunk |
| Obstack.Obstack.Blank | lib/obstack.h:426-434 | lengthens the growing object and keeps what it had, or shortens it and keeps the rest; it stays where it is if the request fits, and else begins the new chunk |
| Obstack.Obstack.Finish | lib/obstack.h:456-475 | the growing object becomes the newest finished one at its address; the next starts at the first aligned address, or at the limit if that comes first; an empty object is announced |
| Obstack.Obstack.Alloc | lib/obstack.h:436-440 | a new finished object of the length, or NULL; in the current chunk if it fits, and else at the beginning of a new one |
| Obstack.Obstack.Copy | lib/obstack.h:442-446 | a new finished object with the bytes, or NULL; in the current chunk if it fits, and else at the beginning of a new one |
| Obstack.Obstack.Free | lib/obstack.h:477-483 | frees the object and everything newer and exactly the newer chunks; the growing object can be discarded alone; every older object keeps its address and bytes; an empty object is announced if chunks were freed |
| Obstack.Obstack.FindChunk | lib/obstack.c:360-372 | going back by addresses alone ends at the chunk of the object, finished or growing |
| Obstack.Obstack.FreeAll | lib/obstack.c:352-382 | the address NULL frees every chunk |
| Tokenizer.Parse | nstr_tokl.c:168-298 | a scan ends, passes at least one character unless it ends a token at a separator, and never collects more characters than it passes |
| Tokenizer.LpState.StoreChr | nstr_tokl.c:143-151 | stores below the size and drops above it |
| Tokenizer.LpState.ScanEscape | nstr_tokl.c:243-273 | the escape branch, with its index stepping back, makes exactly one move of the scan |
| Tokenizer.LpState.LpParse | nstr_tokl.c:168-298 | terminates on every line, returns exactly the token of the scan, with the token length below the buffer size, so no character is dropped |
| Tokenizer.Etokl | nstr_tokl.c:301-343 | emits exactly the tokens and break strings of the line; the default sets are space and tab, semicolon and bar, and both quotes |
| Tokenizer.TokensOf | nstr_tokl.c:325-340 | the strings of a line are those of its first scan and then those of the rest |
| Tokenizer.TokensFromLine | nstr_tokl.c:325-340 | the emitted strings put together are a subsequence of the line |
| TokenText.RunParse | nstr_tokl.c:243-273 | within a token or a quote a run of escapes is kept, except that the last of an odd run in front of a special character gives way to it |
| TokenText.NoEscapes | nstr_tokl.c:243-273 | items without escapes come back both ways |
| TokenText.QuotingComesBack | nstr_tokl.c:204-219 | items put between quotes come back exactly if their runs of escapes in front of special characters and at the end are even; break characters and separators included |
| TokenText.EscapingComesBack | nstr_tokl.c:243-273 | items with every special character escaped come back exactly if they survive, which is a condition on their runs of escapes |
| TokenText.DoubleEscapeDiffers | nstr_tokl.c:246-259 | what a scan makes of several escapes at the beginning of a token and within one, and that the two differ exactly if a special character follows them |
| TokenLines.LineTokens | nstr_tokl.c:168-343 | a line of tokens in bare and quoted parts, each followed by a separator or a break character, gives the texts of the tokens in order and every break character outside quotes as a string of its own in its place; the last quote may stay open |
| TokenLines.EveryLine | nstr_tokl.c:168-298 | every line without escapes is such a line |
| TokenLines.NextString | nstr_tokl.c:191-197 | a token without special characters, and the break character behind it, come before the strings of the rest |
| TokenLines.NextQuoted | nstr_tokl.c:204-219 | the same for a token with quotes in its middle, which join what is around them |
| TokenLines.NextEscaped | nstr_tokl.c:243-273 | an escape in a token gives way to a special character and is kept in front of any other |
| TokenLines.UsualSets | nstr_tokl.c:305-307 | an example: a;"b c"d f gives a, ;, b cd and f |
| ChainedHash.Shift | n_hash_int.h:59 | the distance to the alternate slots is the length plus the signed last character, or a 32-bit word if that is negative |
| ChainedHash.RoundTrip | n_hash_remove.c:54-64 | adding and subtracting the distance leads back to the home slot under wrap-around |
| ChainedHash.Prepended | n_hash_put.c:217-246 | a new bucket in a candidate chain keeps every key in one chain at one of its three slots |
| ChainedHash.TakenOut | n_hash_remove.c:15-30 | taking a bucket out of its chain removes exactly its key |
| ChainedHash.CutLinked | n_hash_remove.c:20-25 | relinking past a bucket keeps all chains |
| ChainedHash.WaitingStep | n_hash_put.c:36-45 | relinking a moved bucket disturbs neither the rest of its old chain nor the later ones |
| ChainedHash.HashTable.constructor | n_hash_new.c:34-43 | a new table is empty and its size the least power of two from four up that holds the requested size |
| ChainedHash.HashTable.GetBucketLl | n_hash_get.c:51-64 | the bucket of the key in one chain, or NULL |
| ChainedHash.HashTable.GetBucket | n_hash_get.c:67-93 | looking at three slots finds every key of the table |
| ChainedHash.HashTable.Get | n_hash_get.c:95-114 | the element of the key, or none |
| ChainedHash.HashTable.FindFreeSlot | n_hash_put.c:161-178 | the first empty alternate slot, or the home slot; always a candidate of the key |
| ChainedHash.HashTable.PickSlot | n_hash_put.c:213-240 | a new key goes to its empty home slot, else to the first empty alternate slot, and into a taken slot only if all three are taken |
| ChainedHash.HashTable.PutNode | n_hash_put.c:48-76 | reinserts a bucket at its new home slot and never finds it there already |
| ChainedHash.HashTable.Rehash | n_hash_put.c:10-45 | quadruples the table with the same buckets for the same keys; a refused allocation changes nothing |
| ChainedHash.HashTable.MakeRoom | n_hash_put.c:190-193 | tries to grow exactly by the test on 32-bit words, which below 2^32 items means from two thirds of the slots up to all of them; the map stays |
| ChainedHash.GrowthWindow | n_hash_put.c:190 | that test asks for growth exactly while the items are between two thirds of the slots and all of them |
| ChainedHash.HashTable.Put | n_hash_put.c:180-246 | the map update; stops exactly when a present key may not be replaced; with growth granted a growing table quadruples exactly while its items are between two thirds of the slots and all of them; otherwise a new key goes to its home slot or the first free alternate one |
| ChainedHash.Outgrown | n_hash_put.c:190 | a table of four slots with six items that the last put did not try to enlarge |
| ChainedHash.HashTable.RemoveBucketLl | n_hash_remove.c:7-32 | takes exactly the key's bucket out of the chain, or changes nothing |
| ChainedHash.HashTable.RemoveAt | n_hash_remove.c:46-66 | takes the key out of the chain of one of its slots and counts it, or changes nothing |
| ChainedHash.HashTable.Remove | n_hash_remove.c:34-72 | removes the key from whichever slot it is in and returns its element |
| Interning.Pool.AllocStr | nmalloc.c:224-272 | equal strings get the same object, a new string a new one; every earlier string keeps its object however the table grows |
| Interning.FirstUse | nmalloc.c:232-236 | the first string never fails |
| Interning.GetInsert | noash.c:438-441 | the dentry of the key, without an element if it is new |

## Left out

- OashSpec.ClashNeedsTwins: one direction only. The exact condition is `Clash`, which follows the chain through the slots; the pair of twins is what a caller can see without knowing the slots.
- OashRuns.ClashesNeedTwins: one direction only, as above.
- OashRuns.Run: the clash at which a run stops is stated for a table of the map reached so far; which of the tables of that map it is follows from the run. A growing table is confined to 65536 slots, so every map on the way has at most 43690 keys. Get-or-insert on a full fixed table answers that there is no dentry; `n_oash_get_insert`, which takes the address of its element, is not modelled there.
- OashRuns.Replaced: on a NOREPLACE table the code calls `trurl_die`, which aborts the program unless a hook is set that returns (`ndie.c:48-70`); the answer here is the one behind such a hook.
- OashCopy.Dup: the exact condition follows the partial copies; that slot 0 is free or holds an entry at home is what a caller can check, and it is sufficient only.
- Oash.Table.constructor: sizes above 65536 are excluded, because the probe length is a 16-bit field (`noash.c:19`) and would wrap; likewise `Oash.Table.Put` and `Interning.Pool.AllocStr` where the table would grow beyond that.
- OashStore.RoundTrip: keys of at most 511 bytes, the size of the reader's buffer, and element callbacks that are inverse to each other.
- OashStore.Restore: a stream that begins with the version must have been written by a store; the code does not check what it reads after that.
- Interning.Pool.AllocStr: the length must fit the requested field and one string must not be asked for at both widths; the C code has one function for both.
- Verstable.Table.InsertRaw: below the maximum load the home bucket of the key must not hold a cut-off key, and a key that is cut off itself must be refused: otherwise the code searches a chain for a key that is not in it, or stores the key twice (`State.Spoiled`). `Verstable.Table.Insert` has the same precondition.
- Verstable.Table.EraseItrRaw: an iterator at a cut-off key is excluded, because the code then searches its chain for it.
- Verstable.Table.Rehash: that a size passed over was too crowded is stated for a part of the map in the order in which the buckets were moved; another order may have found room, so the size reached need not be the least possible.
- The load test of the chained quadratic table is exact arithmetic; the double comparison agrees with it below 2^52 buckets.
- Verstable.Table.Insert: allocations above 2^60 buckets count as refused.
- ChainedHash.HashTable.Put: a granted growth keeps the size below 2^32, as its field requires, and the number of items stays below that; NOREPLACE tables, which may hold duplicates, and sizes that are not powers of two are not modelled.
- Obstack.Obstack.Begin: a chunk size between 1 and 15 is excluded, since the header would not fit. The int arithmetic of sizes is unbounded here.
- Obstack.Obstack.Blank: the object is not shortened beyond its beginning, which would run into older ones.
- Obstack.Obstack.Free: the address must be that of an object; aborting on a foreign address is not modelled, nor are copying with a terminator and growing by words.
- TokenText.QuotingComesBack: items that contain their own quote; putting such an item between quotes as it is ends the quote early.
- OrderedMap.Map.Insert: the placeholder header of an empty map is not modelled; the sentinel stands for it. Placing nodes and their payload in one block is not either.
- Bucket iteration in the chained quadratic table reads four metadata at a time behind a stopper; `Verstable.Table.EraseChosen` looks at one after the other. Reserve, shrink, clone and clear are easy members.
- Keys are non-empty byte strings without NUL of fewer than 65535 bytes; that NOCPKEY tables borrow the caller's bytes is not modelled, so a key never changes.
- Element destructors, reference counts, statistics, dumps, iterators over the hash tables, the stream back ends, the bodies of the hash functions and `printf`-style helpers are I/O, foreign code or easy members.
- Timsort rests on vendor/sort.h, which is not part of this model; `n_list`, `n_array` as a sequence, the plain tokenizer and the other containers of `cc.h` are left out.
- Allocation failure in `noash.c`, `nmalloc.c` and the node of `n_hash_put` ends the program in the C code and is not modelled.
