# Models of ROSE's containers, tutorial pass and configuration reader

This project models five parts of the ROSE repository in Dafny and proves what they are for.

- **The hash table** (`config/rose_specific_GNU_6_1_hashtable.h`): one singly linked node list runs through all
  elements, and a bucket array holds for each bucket the node *before* its first node. `HashNodes.dfy` has the nodes
  and the bucket invariant, `HashGroups.dfy` the groups of equal keys, `Hashtable.dfy` the table as a class whose
  methods relink nodes and slots in place, `HashtableRuns.dfy` whole runs. Keys are compared through a map to
  equivalence classes and hashed by an arbitrary function of class and bucket count, so equal keys have equal hashes
  and nothing else is known of the hash. The rehash policy is an arbitrary answer at every insertion, and an arbitrary
  pair of functions with the documented contract for an explicit rehash. `spine` is a ghost sequence: the
  before-begin node and then the elements in list order.
- **The deque** (`config/rose_specific_GNU_6_1_stl_deque.h`): `DequeIterator.dfy` has the iterator with its
  hand-made floor division, for every buffer size of at least 1, `Deque.dfy` the map of nodes and the ends, with a
  ghost set of the nodes allocated and not yet freed, `DequeRuns.dfy` whole runs and the laws of iterators.
- **The global-variable transformation** (`tutorial/CharmSupport.C`): `CharmMeaning.dfy` gives expressions a meaning
  over stores, `CharmTree.dfy` is the tree of nodes with parent and child fields and the pass that rewrites `x` to
  `AMPI_globals.x` in it, `CharmDecls.dfy` the move of the declarations into the class, and `CharmTransform.dfy` both
  together. An expression yields a value and, if it is an object, where the object is: a variable, or a member or an
  element of another object. Values may be pointers. The operators are arbitrary functions of their operands' values
  and places; they may yield an object, as indexing, dereference and arrow do, and store to their first operand, or copy a whole
  object there.
  All that is asked of them is that they do not see where an object lives (`CharmMeaning.Blind`), since the pass moves
  the globals. `CharmOperators.dfy` proves this of operators in the manner of C, and gives one that does look and for
  which meaning is lost.
- **The list** (`config/rose_specific_GNU_6_1_stl_list.h`): `List.dfy` has the ring of nodes through a sentinel, its
  relinkings and the stored size, `ListRuns.dfy` runs on two lists.
- **The configuration reader** (`src/rose-config.C`): `LibraryPaths.dfy` has the tokenizer with its quotes,
  `ConfigFile.dfy` the key and alias table, `ConfigLines.dfy` what lines and tables are, said without the steps that
  find it out, `CStrings.dfy` the reading of a string up to its first NUL.

Assumptions, all about code that the repository calls but does not contain:

- `_M_hook`, `_M_unhook` and `_M_transfer` of a list node have no body in the repository. `List.Relink`, `List.Hook`
  and `List.Unhook` write out the relinking that the comment at line 1754 of the list header describes.
- `_M_clear` of a list frees the nodes and leaves the ring to be set up again.
- `NodeQuery::querySubTree` lists each variable reference of the tree once, in any order. The constructor of a dot
  expression and `set_operand`, `set_lhs_operand` and `set_rhs_operand` set the parent of the new operand.
  `append_member` leaves the scope recorded with each variable as it was.
- `replace_statement` and `remove_statement` act on the first occurrence of the statement; `remove_statement` of a
  statement that is no longer there does nothing (this is the case when one declaration declares two variables).

Places where the code does not do what one might expect, each with the exact condition:

- Moving the global variables conserves declarations if and only if no declaration declares two variables
  (`CharmDecls.DeclarationsConserved`): a declaration is appended to the class once for each of its variables, as
  `CharmDecls.TwoVariables` shows.
- Every rewritten reference names a member of the class if and only if every global reference is to a variable listed
  from the file's global declarations (`CharmTransform.TransformGlobalVariablesToUseStruct`). A variable declared
  `extern` in a block only is in global scope and is not listed.
- The colon-separated list of search paths can be split back if and only if it has a path and none holds a colon
  (`LibraryPaths.SplitsBack`, and `LibraryPaths.DoNotSplitBack` for two lists that cannot). Escaped strings come back
  from the tokenizer if and only if none is empty and none holds a NUL (`LibraryPaths.RoundTrip`, and
  `LibraryPaths.DoNotComeBack` for two that do not).

## Model

| member | source | states |
|---|---|---|
| HashNodes.BucketContiguous | config/rose_specific_GNU_6_1_hashtable.h:122-131 | the bucket invariant makes the nodes of each bucket one contiguous run of the list |
| HashNodes.BucketSlots | config/rose_specific_GNU_6_1_hashtable.h:122-131 | a slot is null exactly for an empty bucket, and otherwise holds the node before the bucket's first node |
| HashNodes.SlotsUnique | config/rose_specific_GNU_6_1_hashtable.h:122-131 | the node list determines the bucket array: two arrays that are right for one list are equal |
| HashNodes.BeginOfBucket | config/rose_specific_GNU_6_1_hashtable.h:1440-1462 | the node a slot holds, or the before-begin node for an empty bucket, is where a node goes to come before all others of its bucket |
| HashNodes.LinkAfter | config/rose_specific_GNU_6_1_hashtable.h:1442-1447 | the two assignments that insert a node keep the list acyclic and linked, with the node right behind the given one |
| HashNodes.InsertFirst | config/rose_specific_GNU_6_1_hashtable.h:1442-1448 | a node put in front of its non-empty bucket leaves every slot right as it is |
| HashNodes.InsertFront | config/rose_specific_GNU_6_1_hashtable.h:1449-1461 | a node of an empty bucket put at the front of the list needs just two slots changed: its own and that of the former first bucket |
| HashNodes.InsertInside | config/rose_specific_GNU_6_1_hashtable.h:1643-1656 | a node put behind one of its bucket needs the next bucket's slot changed exactly when it becomes the last of its bucket |
| HashNodes.InsertPending | config/rose_specific_GNU_6_1_hashtable.h:2019-2033 | while the check of the next bucket is pending, one late repair makes the array right however many nodes went in |
| HashNodes.CutBlock | config/rose_specific_GNU_6_1_hashtable.h:1840-1844 | the slot repairs for taking out a run of one bucket are right whether it starts, ends or fills the bucket |
| HashNodes.StartCutting | config/rose_specific_GNU_6_1_hashtable.h:1863-1867 | the state before the first bucket's share of a range erase |
| HashNodes.CutMore | config/rose_specific_GNU_6_1_hashtable.h:1868-1891 | each bucket's share of a range erase keeps the slots repairable, and right after the last share |
| HashNodes.AppendCopy | config/rose_specific_GNU_6_1_hashtable.h:977-985 | filling a slot only when it is still null makes the copied buckets right at every step of the copy |
| HashNodes.RehomedBuckets | config/rose_specific_GNU_6_1_hashtable.h:1147-1151 | a list taken over by another before-begin node needs only the slot of its first bucket changed |
| HashGroups.GroupSize | config/rose_specific_GNU_6_1_hashtable.h:1336-1339 | the group of a class has as many nodes as the class has in the list |
| HashGroups.GroupIsRun | config/rose_specific_GNU_6_1_hashtable.h:1336-1339 | where equal keys are adjacent, a maximal run of a class is all of its group |
| HashGroups.GroupedInsert | config/rose_specific_GNU_6_1_hashtable.h:1657-1662 | inserting a node where it parts no group keeps equal keys adjacent |
| HashGroups.LastMoved | config/rose_specific_GNU_6_1_hashtable.h:2019-2025 | the node moved last is the last of its class among the moved ones |
| HashGroups.MovedAfterLast | config/rose_specific_GNU_6_1_hashtable.h:2019-2025 | moving a node behind the one moved last keeps the order within its group |
| HashGroups.SameGroupsUnique | config/rose_specific_GNU_6_1_hashtable.h:1962-1992 | a list with the same groups has the same number of nodes, and unique keys if the other has |
| HashGroups.SameGroupsPermutation | config/rose_specific_GNU_6_1_hashtable.h:1962-1992 | lists with the same groups hold the same nodes, each as often |
| HashGroups.SameGroupsOrder | config/rose_specific_GNU_6_1_hashtable.h:1994-2082 | lists with the same groups have equal keys in the same order |
| HashGroups.GroupsCutRun | config/rose_specific_GNU_6_1_hashtable.h:1828-1845 | cutting out a group's run erases that class and leaves every other group as it was |
| HashGroups.ErasedMembers | config/rose_specific_GNU_6_1_hashtable.h:1799-1846 | what is left after a class has been erased is just what is not of it |
| Hashtable.OtherBuckets | config/rose_specific_GNU_6_1_hashtable.h:1412-1431 | a class has no node outside the run of its own bucket, so walking one bucket sees all of it |
| Hashtable.MovedInside | config/rose_specific_GNU_6_1_hashtable.h:2019-2033 | the multi-key rehash's insertion behind the previous node keeps groups, their order and adjacency |
| Hashtable.MovedToBegin | config/rose_specific_GNU_6_1_hashtable.h:2051-2064 | a first node of its class put in front of its bucket keeps groups and adjacency |
| Hashtable.BeginsBucket | config/rose_specific_GNU_6_1_hashtable.h:1865-1866 | a node is the first of its bucket exactly when the slot's successor is that node |
| Hashtable.Table.constructor | config/rose_specific_GNU_6_1_hashtable.h:1004-1012 | a new table is empty and well formed, with its single bucket |
| Hashtable.Table.Copy | config/rose_specific_GNU_6_1_hashtable.h:1108-1122 | the copy has new nodes with the same elements in the same order and is well formed; the source is unchanged |
| Hashtable.Table.MoveFrom | config/rose_specific_GNU_6_1_hashtable.h:1130-1154 | the new table holds exactly the source's nodes, and the source is left as the well-formed empty table |
| Hashtable.Table.TakeFrom | config/rose_specific_GNU_6_1_hashtable.h:1137-1151 | the source's list and buckets, single or not, make this table well formed with exactly the source's nodes |
| Hashtable.Table.Rehome | config/rose_specific_GNU_6_1_hashtable.h:1147-1151 | a list that has changed tables is well formed once its first bucket's slot holds the new before-begin node |
| Hashtable.Table.Reset | config/rose_specific_GNU_6_1_hashtable.h:1004-1012 | the table becomes the empty one with a single bucket |
| Hashtable.Table.AllocateBuckets | config/rose_specific_GNU_6_1_hashtable.h:338-347 | n empty slots: the embedded one for n = 1, otherwise a new array |
| Hashtable.Table.FindBeforeNode | config/rose_specific_GNU_6_1_hashtable.h:1412-1431 | null only if the key is nowhere in the list; otherwise the node before the first equal one of the whole list |
| Hashtable.Table.Find | config/rose_specific_GNU_6_1_hashtable.h:1292-1300 | finds the first element of the key's group, and end exactly if the group is empty |
| Hashtable.Table.Count | config/rose_specific_GNU_6_1_hashtable.h:1324-1347 | with its early break, the multiplicity of the key in the whole list |
| Hashtable.Table.EqualRange | config/rose_specific_GNU_6_1_hashtable.h:1356-1374 | the range is exactly the key's group, all of it in the list |
| Hashtable.Table.InsertBucketBegin | config/rose_specific_GNU_6_1_hashtable.h:1440-1462 | the list gains just the node, before all others of its bucket, or at the front of the list if the bucket is empty, and the bucket invariant is kept |
| Hashtable.Table.MoveToBucketBegin | config/rose_specific_GNU_6_1_hashtable.h:1970-1986 | one step of a rehash: the part built is well formed for the new buckets and the tracked bucket is that of its first node |
| Hashtable.Table.MoveAfterPrevious | config/rose_specific_GNU_6_1_hashtable.h:2019-2033 | one step behind the previous node: the part built is well formed but for the one slot still to be repaired |
| Hashtable.Table.RepairNextBucket | config/rose_specific_GNU_6_1_hashtable.h:2036-2049 | the late repair sets just the slot of the bucket that follows the previous node's |
| Hashtable.Table.StartRehash | config/rose_specific_GNU_6_1_hashtable.h:1964-1967 | the new buckets are empty and right for the empty list, and every node waits to be moved |
| Hashtable.Table.RehashUnique | config/rose_specific_GNU_6_1_hashtable.h:1962-1992 | the same node objects in a well-formed table with the new bucket count |
| Hashtable.Table.RehashMulti | config/rose_specific_GNU_6_1_hashtable.h:2003-2082 | the same node objects in a well-formed table; equal keys stay adjacent and in their order, despite slots that are stale meanwhile |
| Hashtable.Table.Rehash | config/rose_specific_GNU_6_1_hashtable.h:1917-1930 | for every lawful policy the groups are unchanged, and the bucket count is the policy's for the larger of n and what the elements need; list and slots stay as they are if that is the present count |
| Hashtable.Table.LinkMulti | config/rose_specific_GNU_6_1_hashtable.h:1641-1656 | insertion behind the hint, possibly the last of its bucket, or before the first equal node keeps the bucket invariant |
| Hashtable.Table.InsertUniqueNode | config/rose_specific_GNU_6_1_hashtable.h:1578-1606 | the node's class holds just the node and no other group changes; without a rehash answer the list only gains the node, first in its bucket, and with one it has the bucket count asked for |
| Hashtable.Table.Insert | config/rose_specific_GNU_6_1_hashtable.h:1682-1695 | inserts exactly if no equal key is present, keeping the order of the others unless the policy asks for a rehash, and otherwise returns the present element and changes nothing |
| Hashtable.Table.InsertMultiNode | config/rose_specific_GNU_6_1_hashtable.h:1617-1671 | for every valid hint the node joins its group right behind an equal hint, and else in front; no other group changes, equal keys stay adjacent, and without a rehash answer the list only gains the node, first in its bucket if no key is equal |
| Hashtable.Table.InsertHint | config/rose_specific_GNU_6_1_hashtable.h:1706-1718 | a new element with the given key and value joins its group, which grows by one; the others keep their order unless the policy asks for a rehash |
| Hashtable.Table.RemoveBucketBegin | config/rose_specific_GNU_6_1_hashtable.h:1471-1486 | which slots change when the first nodes of a bucket go, and that the before-begin node is relinked exactly if the emptied slot held it |
| Hashtable.Table.Detach | config/rose_specific_GNU_6_1_hashtable.h:1840-1844 | a run of one bucket leaves list and slots well formed, reading no link inside the run |
| Hashtable.Table.EraseNode | config/rose_specific_GNU_6_1_hashtable.h:1747-1766 | exactly that node goes, the table is well formed, and the next element is returned |
| Hashtable.Table.GetPreviousNode | config/rose_specific_GNU_6_1_hashtable.h:1495-1502 | the walk from the bucket's slot ends, at the node before the given one |
| Hashtable.Table.EraseAt | config/rose_specific_GNU_6_1_hashtable.h:1727-1738 | erasing by iterator removes exactly that element and returns its successor |
| Hashtable.Table.EraseUnique | config/rose_specific_GNU_6_1_hashtable.h:1775-1790 | the key's group goes, as a run of the list, and nothing else changes; returns how many there were |
| Hashtable.Table.EqualRunEnd | config/rose_specific_GNU_6_1_hashtable.h:1816-1826 | the end of the run of equal nodes, and the bucket of the node there |
| Hashtable.Table.DeallocateBlock | config/rose_specific_GNU_6_1_hashtable.h:1828-1838 | counts and frees exactly the run, reading each link before its node goes |
| Hashtable.Table.EraseRun | config/rose_specific_GNU_6_1_hashtable.h:1828-1845 | freeing and taking out one run of a bucket leaves a well-formed table without exactly that run |
| Hashtable.Table.EraseMulti | config/rose_specific_GNU_6_1_hashtable.h:1799-1846 | all equal elements, one run of the list, and nothing else go, and their number is returned |
| Hashtable.Table.EraseShare | config/rose_specific_GNU_6_1_hashtable.h:1868-1887 | one bucket's share of a range erase, up to its end or to last |
| Hashtable.Table.CloseGap | config/rose_specific_GNU_6_1_hashtable.h:1889-1892 | relinking past the erased nodes makes the table well formed once the slots are right |
| Hashtable.Table.EraseRange | config/rose_specific_GNU_6_1_hashtable.h:1855-1893 | over any number of buckets, ends with exactly prefix and suffix of the list in a well-formed table |
| Hashtable.Table.Clear | config/rose_specific_GNU_6_1_hashtable.h:1902-1908 | an empty, well-formed table |
| Hashtable.Table.AppendNode | config/rose_specific_GNU_6_1_hashtable.h:979-984 | one more copied node keeps the copy linked and its slots right |
| Hashtable.Table.SlotsForCopy | config/rose_specific_GNU_6_1_hashtable.h:868-910 | empty slots, as many as the source has, with the present storage freed first where the allocator is replaced |
| Hashtable.Table.Assign | config/rose_specific_GNU_6_1_hashtable.h:956-995 | into cleared slots of the same number, a well-formed copy of new nodes with the same elements in the same order |
| Hashtable.Table.EmptySlots | config/rose_specific_GNU_6_1_hashtable.h:900-910 | empty slots of the given number, the present array cleared where it fits |
| Hashtable.Table.CopyFrom | config/rose_specific_GNU_6_1_hashtable.h:862-946 | copy assignment, with or without a replaced allocator, yields the source's elements in order in new nodes, changes the source in nothing, and nothing at all for itself |
| Hashtable.Table.Swap | config/rose_specific_GNU_6_1_hashtable.h:1241-1283 | the two contents change places and both tables are well formed, in all four cases of single and heap buckets; a table swapped with itself is as it was |
| HashtableRuns.Run | config/rose_specific_GNU_6_1_hashtable.h:1412-1930 | every run of insert, the erases, rehash and clear, for any hash and policy, keeps the table well formed and changes the groups as each step says; only a rehash changes the order of elements that stay |
| HashtableRuns.EraseOneByOne | config/rose_specific_GNU_6_1_hashtable.h:1855-1893 | single erases over a range end in the list and count that range erase ends in |
| HashtableRuns.JoinedNodes | config/rose_specific_GNU_6_1_hashtable.h:1617-1671 | a node that joins a group is one node more in the list |
| HashtableRuns.StepSize | config/rose_specific_GNU_6_1_hashtable.h:1412-1930 | by how much each operation changes the number of elements |
| HashtableRuns.ModelIsGroups | config/rose_specific_GNU_6_1_hashtable.h:1682-1695 | a unique-key table read as a finite map: its keys are the classes present and its size the number of elements |
| HashtableRuns.ModelWithout | config/rose_specific_GNU_6_1_hashtable.h:1855-1893 | the map without a range of elements is the map without their keys |
| HashtableRuns.StepRefinesMap | config/rose_specific_GNU_6_1_hashtable.h:1682-1930 | each operation on a unique-key table is the finite map's operation; erasing an iterator or a range takes exactly the keys of the elements there |
| HashtableRuns.RunUnique | config/rose_specific_GNU_6_1_hashtable.h:1682-1930 | any run of a unique-key table refines the run of a finite map, step by step along the elements in list order, and the stored count is the map's size |
| HashtableRuns.Lookup | config/rose_specific_GNU_6_1_hashtable.h:1292-1300 | find hits exactly the keys of the map and returns their entry |
| HashtableRuns.CopiesEntries | config/rose_specific_GNU_6_1_hashtable.h:956-995 | a copy has the keys and values of the original in order, and means the same map |
| DequeIterator.BufSize | config/rose_specific_GNU_6_1_stl_deque.h:88-91 | a node holds as many elements as fit the limit, and one if none does |
| DequeIterator.NodeOffsetRoundsDown | config/rose_specific_GNU_6_1_stl_deque.h:206-222 | the hand-made division rounds down for offsets of either sign, so the remainder lies in the node |
| DequeIterator.PlaceOrder | config/rose_specific_GNU_6_1_stl_deque.h:291-295 | comparing nodes and then offsets is comparing positions |
| DequeIterator.Iterator.SetNode | config/rose_specific_GNU_6_1_stl_deque.h:251-257 | moves node, first and last together and leaves cur |
| DequeIterator.Iterator.Swap | config/rose_specific_GNU_6_1_stl_deque.h:577-578 | two iterators change places, one with itself too |
| DequeIterator.Iterator.Increment | config/rose_specific_GNU_6_1_stl_deque.h:165-175 | the position grows by one, across node ends too |
| DequeIterator.Iterator.Decrement | config/rose_specific_GNU_6_1_stl_deque.h:185-195 | the position shrinks by one, across node ends too |
| DequeIterator.Iterator.Advance | config/rose_specific_GNU_6_1_stl_deque.h:205-222 | the position grows by n of either sign and cur stays inside its node |
| DequeIterator.Iterator.Retreat | config/rose_specific_GNU_6_1_stl_deque.h:231-233 | the position shrinks by n |
| DequeIterator.Iterator.Minus | config/rose_specific_GNU_6_1_stl_deque.h:348-356 | the difference of two iterators is the difference of their positions |
| DequeIterator.Iterator.Less | config/rose_specific_GNU_6_1_stl_deque.h:290-295 | the order of iterators is the order of their positions |
| DequeIterator.Iterator.Equals | config/rose_specific_GNU_6_1_stl_deque.h:264-268 | equality of cur is equality of positions |
| Deque.WindowDrop | config/rose_specific_GNU_6_1_stl_deque.h:2039-2045 | dropping whole nodes and moving the start drops that many elements of the sequence |
| Deque.WindowTake | config/rose_specific_GNU_6_1_stl_deque.h:2049-2056 | dropping whole nodes and moving the finish keeps that many elements of the sequence |
| Deque.Deque.constructor | config/rose_specific_GNU_6_1_stl_deque.h:492-494 | n places in nodes of the computed size, a spare map slot at each end, and exactly the nodes in use allocated |
| Deque.Deque.InitializeMap | config/rose_specific_GNU_6_1_stl_deque.h:680-714 | establishes the class invariant with size n, a map of at least 8 slots and a spare slot at each end |
| Deque.NumNodes | config/rose_specific_GNU_6_1_stl_deque.h:682-683 | just enough nodes for n elements and the place after the last one |
| Deque.Deque.AllocateNode | config/rose_specific_GNU_6_1_stl_deque.h:596-601 | a new node, live and counted among those allocated |
| Deque.Deque.DeallocateNode | config/rose_specific_GNU_6_1_stl_deque.h:603-608 | only a live node can be freed, and that is recorded once more |
| Deque.Deque.CreateNodes | config/rose_specific_GNU_6_1_stl_deque.h:719-732 | exactly the map slots of the range get nodes, all new and different |
| Deque.Deque.DestroyNodes | config/rose_specific_GNU_6_1_stl_deque.h:737-742 | frees exactly the nodes of the range, each of them live until then |
| Deque.Deque.Destroy | config/rose_specific_GNU_6_1_stl_deque.h:659-667 | no node is left allocated, and the nodes freed are those ever allocated, each once |
| Deque.Deque.Size | config/rose_specific_GNU_6_1_stl_deque.h:1264-1265 | the iterator difference is the number of elements |
| Deque.Deque.ElementAt | config/rose_specific_GNU_6_1_stl_deque.h:791-817 | the i-th element is in the node and at the offset of the place i after start |
| Deque.Deque.PushBack | config/rose_specific_GNU_6_1_stl_deque.h:1517-1525 | away from a node's end, appends the element and keeps the invariant |
| Deque.Deque.PushFront | config/rose_specific_GNU_6_1_stl_deque.h:1484-1492 | away from a node's start, prepends the element and keeps the invariant |
| Deque.Deque.PopFront | config/rose_specific_GNU_6_1_stl_deque.h:1549-1557 | away from a node's end, drops the first element and keeps the invariant |
| Deque.Deque.PopBack | config/rose_specific_GNU_6_1_stl_deque.h:1571-1579 | away from a node's start, drops the last element and keeps the invariant |
| Deque.Deque.EraseAtBegin | config/rose_specific_GNU_6_1_stl_deque.h:2039-2045 | keeps the elements from the position on and frees just the nodes before its own |
| Deque.Deque.EraseAtEnd | config/rose_specific_GNU_6_1_stl_deque.h:2049-2056 | keeps the elements before the position and frees just the nodes after its own |
| Deque.Deque.Clear | config/rose_specific_GNU_6_1_stl_deque.h:1797-1799 | no elements, and exactly one node left |
| Deque.Deque.Release | config/rose_specific_GNU_6_1_stl_deque.h:2164-2168 | clearing and then freeing the one node left frees all nodes ever allocated, each once |
| Deque.Deque.ReplaceMap | config/rose_specific_GNU_6_1_stl_deque.h:2157-2171 | the elements and nodes of the new object take the place of the old ones, which are all freed |
| Deque.Deque.SwapData | config/rose_specific_GNU_6_1_stl_deque.h:574-581 | iterators, map and nodes of two deques change places; a deque swapped with itself is as it was |
| DequeRuns.Run | config/rose_specific_GNU_6_1_stl_deque.h:791-817 | any run refines the run on a sequence, places move as elements come and go, and the nodes freed up to the end of the destructor are exactly those allocated, each once |
| DequeRuns.NextIs | config/rose_specific_GNU_6_1_stl_deque.h:1484-1582 | which pushes and pops are within a node, and what they and the erases do to the sequence |
| DequeRuns.Sums | config/rose_specific_GNU_6_1_stl_deque.h:205-240 | (x + n) - x is n, (x + n) + m and x + (n + m) are the same place, and x < x + n exactly for n > 0 |
| CharmMeaning.RelocateInjective | tutorial/CharmSupport.C:244-259 | the move of the globals into the struct keeps different objects apart |
| CharmMeaning.WritesCorrespond | tutorial/CharmSupport.C:244-259 | a store to an object and the same store to the object it has moved to leave corresponding stores |
| CharmMeaning.CopiesCorrespond | tutorial/CharmSupport.C:244-259 | copying an object with all its parts, and copying where they have moved, leave corresponding stores |
| CharmMeaning.ReadCopy | tutorial/CharmSupport.C:244-259 | a copy has the parts of the object copied, and nothing else has changed |
| CharmMeaning.MovedStoreCorresponds | tutorial/CharmSupport.C:244-259 | moving the globals of any store into the struct, and the pointers with them, gives a corresponding store |
| CharmMeaning.MeaningPreserved | tutorial/CharmSupport.C:235-314 | for any operators that do not see where objects live, rewritten expressions, stores through any of them included, have the same value at the object that has moved, or fail alike, and leave corresponding stores |
| CharmMeaning.OperandsInOrder | tutorial/CharmSupport.C:262-289 | operands and expressions are evaluated in order: after x = v, x is v |
| CharmOperators.COperatorsBlind | tutorial/CharmSupport.C:262-289 | address-of, dereference, index, arrow, assignment of values and of structs, increments, pointer arithmetic, equality and anything computed on data do not see where objects live |
| CharmOperators.CMeaningPreserved | tutorial/CharmSupport.C:235-314 | with these operators the rewriting preserves the meaning of every source expression |
| CharmOperators.StoresThrough | tutorial/CharmSupport.C:262-289 | stores through an index, a dereference and an arrow have a meaning, and change just the object meant |
| CharmOperators.PeekingChangesMeaning | tutorial/CharmSupport.C:244-259 | an operator that tells a global from a member of the struct gives another result after the rewriting |
| CharmTree.WrappedIsRewrite | tutorial/CharmSupport.C:235-314 | wrapping exactly the global references of the tree is rewriting the expression |
| CharmTree.WrappedInPlace | tutorial/CharmSupport.C:262-284 | each wrapped reference hangs below its own dot, which took its place; every other edge is as it was |
| CharmTree.ReplaceOperand | tutorial/CharmSupport.C:262-284 | exactly the operand that was the reference is replaced, and the other one kept |
| CharmTree.Relink | tutorial/CharmSupport.C:249-284 | the new expression takes the reference's place with child and parent links agreeing |
| CharmTree.WrapReference | tutorial/CharmSupport.C:238-312 | wraps one reference once, and aborts exactly where its parent is no unary or binary operator |
| CharmTree.FixupReferences | tutorial/CharmSupport.C:235-314 | wraps each listed reference once in any order; aborts exactly if some parent is no unary or binary operator |
| CharmTree.GlobalReferences | tutorial/CharmSupport.C:67-102 | exactly the references whose variable is declared in global scope, each once; a local that shadows a global is not among them |
| CharmTree.EdgesOperate | tutorial/CharmSupport.C:262-289 | an expression is rewritable exactly if every edge to a global reference comes from a unary or a binary operator |
| CharmTree.ParentsOperate | tutorial/CharmSupport.C:243-247 | an expression is rewritable exactly if the parent of every listed reference is such an operator |
| CharmTree.TransformReferences | tutorial/CharmSupport.C:67-102 | aborts exactly if the expression has a reference to a global directly below something that is no unary or binary operator; else the linked tree left means the same once the globals live in the struct, for any operators that do not see where, and exactly the global references are wrapped |
| CharmDecls.BuildListOfGlobalVariables | tutorial/CharmSupport.C:8-36 | the variables of all variable declarations, in order |
| CharmDecls.GlobalsInOrder | tutorial/CharmSupport.C:8-36 | the list has each declaration's variables in its order, one declaration after another |
| CharmDecls.ReplaceFirst | tutorial/CharmSupport.C:184-214 | class and instance take the place of the first variable declaration |
| CharmDecls.TakeOut | tutorial/CharmSupport.C:175-224 | one variable's declaration leaves the scope, and the first gives way to class and instance |
| CharmDecls.KeptOrder | tutorial/CharmSupport.C:218-224 | what stays behind are just the declarations of no variable, each once, in their order |
| CharmDecls.ScopeReplaced | tutorial/CharmSupport.C:168-231 | the scope up to the first variable declaration is as it was, there stand class and instance, and then what declares no variable in its order |
| CharmDecls.PutGlobalVariablesIntoClass | tutorial/CharmSupport.C:168-231 | the class members are the owners of the variables in order; the scope is unchanged up to the first of them, has class and then instance in its place, and behind them exactly the declarations of no variable in their order |
| CharmDecls.GlobalsOwners | tutorial/CharmSupport.C:8-36 | the owners of the global variables are the declarations that declare one, and the first variable is of the first of them |
| CharmDecls.OwnersOnce | tutorial/CharmSupport.C:226-228 | the class gets each declaration once, in order, exactly when none declares two variables |
| CharmDecls.DeclarationsConserved | tutorial/CharmSupport.C:168-231 | class and scope together hold the original declarations, the class and its instance, if and only if no declaration declares two variables |
| CharmDecls.TwoVariables | tutorial/CharmSupport.C:226-228 | one declaration of two variables becomes two members, so declarations are not conserved |
| CharmDecls.MembersDeclare | tutorial/CharmSupport.C:168-231 | the members of the class declare exactly the listed variables |
| CharmTransform.ListedAreMembers | tutorial/CharmSupport.C:67-102 | global references name members of the class exactly if their variables are among the listed ones |
| CharmTransform.TransformGlobalVariablesToUseStruct | tutorial/CharmSupport.C:319-361 | declarations are conserved exactly if none declares two variables, and keep their order around class and instance; what is rewritten names a member of the class exactly if every global reference is to a listed variable, and then, unless a global reference is directly below something that is no unary or binary operator, the instance is declared and every expression means what it meant |
| List.MovedInto | config/rose_specific_GNU_6_1_stl_list.h:1754-1757 | the links of a transfer make a ring that holds the moved block before the position |
| List.MovedOut | config/rose_specific_GNU_6_1_stl_list.h:1754-1757 | the links of a transfer leave the other ring without the block |
| List.SwappedRing | config/rose_specific_GNU_6_1_stl_list.h:1754-1757 | a transfer within one ring exchanges two neighbouring blocks |
| List.Transfer | config/rose_specific_GNU_6_1_stl_list.h:1754-1757 | the range moves before the position from another ring, and both are rings |
| List.TransferWithin | config/rose_specific_GNU_6_1_stl_list.h:1754-1757 | the range moves before the position in its own ring, also when the position is the range's end |
| List.Hook | config/rose_specific_GNU_6_1_stl_list.h:1771-1776 | the node goes in before the position and the ring stays one |
| List.Unhook | config/rose_specific_GNU_6_1_stl_list.h:1780-1784 | the node goes out and the ring stays one |
| List.Distance | config/rose_specific_GNU_6_1_stl_list.h:311-322 | the counting loop ends, with the number of nodes in the range |
| List.List.constructor | config/rose_specific_GNU_6_1_stl_list.h:401-403 | a new list is empty, its sentinel linked to itself |
| List.List.MoveFrom | config/rose_specific_GNU_6_1_stl_list.h:409-411 | exactly the source's nodes in order, and an empty source |
| List.List.Init | config/rose_specific_GNU_6_1_stl_list.h:447-453 | the ring is the sentinel alone and the size 0 |
| List.List.MoveNodes | config/rose_specific_GNU_6_1_stl_list.h:422-437 | exactly the source's nodes, order and size, and an empty source, whether the source was empty or not |
| List.List.MoveAssign | config/rose_specific_GNU_6_1_stl_list.h:1809-1826 | exactly the source's nodes, order and size, and an empty source |
| List.List.Empty | config/rose_specific_GNU_6_1_stl_list.h:953-954 | the sentinel follows itself exactly when there are no elements |
| List.List.Insert | config/rose_specific_GNU_6_1_stl_list.h:1769-1777 | one new node before the position; ring and stored size agree |
| List.List.Erase | config/rose_specific_GNU_6_1_stl_list.h:1779-1793 | just that node goes; ring and stored size agree |
| List.List.SpliceAll | config/rose_specific_GNU_6_1_stl_list.h:1394-1411 | all of the other list's nodes in order before the position, the other list empty, both sizes right |
| List.List.SpliceOne | config/rose_specific_GNU_6_1_stl_list.h:1432-1459 | the one node moves before the position, between two lists or in one, with both sizes right; nothing happens where it already is |
| List.List.SpliceRange | config/rose_specific_GNU_6_1_stl_list.h:1491-1525 | the range moves before the position, between two lists or in one, with both sizes right |
| ListRuns.SpliceConserves | config/rose_specific_GNU_6_1_stl_list.h:1394-1525 | every form of splice keeps all nodes of the two lists, each once |
| ListRuns.Run | config/rose_specific_GNU_6_1_stl_list.h:1394-1826 | any run of insert, erase, splice and move on two lists ends in two well-formed rings without a common node, each step changes the node sequences as stated, and the stored sizes are the numbers of elements |
| ListRuns.StepIs | config/rose_specific_GNU_6_1_stl_list.h:1394-1826 | what insert, erase, whole splice and move do to the two sequences, the others keeping their order |
| ListRuns.SpliceOneIs | config/rose_specific_GNU_6_1_stl_list.h:1432-1459 | the one element ends right before the place, and all others keep their order |
| ListRuns.SpliceRangeIs | config/rose_specific_GNU_6_1_stl_list.h:1491-1525 | the range ends right before the place, in its order, and all others keep theirs |
| ListRuns.RunBalance | config/rose_specific_GNU_6_1_stl_list.h:1394-1826 | at every point of a run the two sizes add up to the nodes inserted, less those erased or freed by a move assignment |
| List.RingUndoes | config/rose_specific_GNU_6_1_stl_list.h:80-83 | every node's neighbours are in the ring and point back to it |
| CStrings.CStrWhole | src/rose-config.C:282-282 | what is read is the string up to its first NUL, and the whole string exactly if it has none |
| LibraryPaths.LexAt | src/rose-config.C:283-304 | what one character means, in and out of quotes and after a backslash |
| LibraryPaths.Tokenize | src/rose-config.C:278-310 | the pointer loop finds the words of the lexed string, and the quote left open at its end |
| LibraryPaths.MakeLibrarySearchPaths | src/rose-config.C:274-318 | the words with colons between them, and the failed assertion exactly when a quote is left open |
| LibraryPaths.TokensNonEmpty | src/rose-config.C:312-316 | no token is empty, so the test for an empty result is true exactly at the first token |
| LibraryPaths.TokenChars | src/rose-config.C:283-304 | every character of a token is in the string |
| LibraryPaths.EscapedSpells | src/rose-config.C:284-285 | a backslash before every character writes any text, wherever it stands outside quotes |
| LibraryPaths.QuotedSpells | src/rose-config.C:286-293 | quotes around a text without backslashes or that quote write it, spaces and the other quote included |
| LibraryPaths.PlainSpells | src/rose-config.C:302-304 | text without spaces, quotes and backslashes writes itself |
| LibraryPaths.GapBetween | src/rose-config.C:294-301 | any whitespace outside quotes, however long, ends a word that is not empty and adds none |
| LibraryPaths.SpelledPieces | src/rose-config.C:268-318 | however each string is written, with spaces between them exactly those that are not empty come back, with no quote left open |
| LibraryPaths.OpenQuote | src/rose-config.C:286-309 | whatever was written before, a quote that is not closed makes the assertion fail |
| LibraryPaths.RoundTrip | src/rose-config.C:268-318 | escaped strings joined with spaces are the tokens again if and only if none is empty and none holds a NUL |
| LibraryPaths.DoNotComeBack | src/rose-config.C:268-318 | an empty string is lost by the tokenizer, and so is what follows a NUL |
| LibraryPaths.SplitsBack | src/rose-config.C:312-317 | the colon-separated list splits back into its paths if and only if there is one and none holds a colon |
| LibraryPaths.DoNotSplitBack | src/rose-config.C:312-317 | no path at all becomes one empty path, and a path with a colon becomes two |
| LibraryPaths.PathsRoundTrip | src/rose-config.C:268-318 | both together, from strings to the list of paths and back, and when the way back fails |
| ConfigFile.Find | src/rose-config.C:210-213 | the first place of a character, or the length |
| ConfigFile.EntryAdded | src/rose-config.C:220-230 | an entry can be added exactly if neither its key nor its old name is taken |
| ConfigFile.RequiredName | src/rose-config.C:235-240 | a required key can only be found as a key, never as an old name |
| ConfigFile.Stopped | src/rose-config.C:214-230 | lines at which the reading stops are not acceptable, whatever follows |
| ConfigFile.ReadConfigFile | src/rose-config.C:185-245 | accepted exactly if every line is well formed, keys and old names are pairwise distinct and all required keys occur; the table then maps each key and its old name to the key's value and holds nothing else; otherwise the first reason in line order, or the keys missing |
| ConfigFile.OneTable | src/rose-config.C:220-230 | the lines determine the table |
| ConfigFile.AnyOrder | src/rose-config.C:185-245 | acceptance and table do not depend on the order of the lines |
| ConfigLines.TrimIs | src/rose-config.C:205-213 | what is trimmed off is whitespace, and what stays has none at its ends |
| ConfigLines.TrimOf | src/rose-config.C:205-213 | whitespace around a text without any at its ends is trimmed off, all of it |
| ConfigLines.KeyMatches | src/rose-config.C:192-192 | the key test is a letter and then letters, digits and underscores |
| ConfigLines.ParseWritten | src/rose-config.C:204-218 | a line of a key, an equal sign and a value, with any whitespace around them, gives that key and that value |
| ConfigLines.ParseSpaced | src/rose-config.C:204-218 | the same for every such line without NUL |
| ConfigLines.ParseIs | src/rose-config.C:204-218 | exactly which lines are skipped, which give which key and value, and which are syntax errors |
| ConfigLines.CleanIs | src/rose-config.C:220-230 | lines are clean exactly if none is a syntax error, keys are long enough, and no two lines have a key or a lower-cased rest of a key in common |
| ConfigLines.AcceptableIs | src/rose-config.C:185-245 | lines are acceptable exactly if they are so and each of the eight required keys is there |
| ConfigLines.TableIs | src/rose-config.C:220-230 | the table has just the keys and their lower-cased rests, both with the key's value |
| ConfigLines.StopIs | src/rose-config.C:214-230 | reading stops at the first harmful line, for the first of its faults |
| ConfigLines.LowerIs | src/rose-config.C:109-115 | each capital letter moves by the same distance and all else stays |
| ConfigLines.OldNames | src/rose-config.C:109-115 | ROSE_CC becomes cc and ROSE_PREFIX becomes prefix |
| ConfigLines.RequiredNames | src/rose-config.C:86-93 | which the eight required keys are |

## Left out

- The hash table's exception paths, allocators, restored policy state and cached hash codes; an index is always recomputed from the key.
- Hashtable.Table.CopyFrom: every node of the copy is new; the node generator that reuses old ones is not part of this repository.
- Hashtable.Table.RehashUnique: the step that both rehashes share (lines 1972-1985 and 2051-2064) is one method here.
- Freed nodes of the hash table: nothing is known of their links afterwards, but their objects stay in the heap.
- The sentinel of the hash table is a node whose element is never read.
- Emplace, bucket iterators, bucket sizes, the policy's own numbers and insertion of ranges: they add no other change to the structure.
- Move assignment of the hash table and of the deque, where the call that does the work is commented out, and `operator=` of the list for the same reason; only `_M_move_assign` of the list, whose body is there, is modelled.
- Deque pushes and pops that change nodes, growth of the map, insertion and erasure in the middle: their bodies are not in the repository. In `DequeRuns.Run` such a push or pop is passed over.
- Construction and destruction of the deque's elements; elements are values, and those of a new deque are arbitrary.
- Deque.Deque.ReplaceMap: the null map between freeing and swapping is an empty map here; freeing the map array itself is not modelled.
- The integer widths of sizes and differences; they are unbounded here.
- The list's sort, merge, unique and reverse, whose bodies are not in the repository, and its swap.
- List.List.SpliceAll: a list spliced whole into itself is excluded, as its documentation does.
- The transformation's symbol tables, file information, printing, initializers, control flow and calls; statements are operators over expressions, and all operands of an operator but short-circuit ones are evaluated in order.
- CharmTransform.TransformGlobalVariablesToUseStruct: where some global reference is to no listed variable, only the declarations and the shape of the tree are stated; without any listed variable the program goes on with a null symbol.
- CharmMeaning.MeaningPreserved: operators that order or convert the addresses of different objects are outside `Blind`; C leaves open what they yield.
- The project-wide list of global variables (lines 40-64 of `tutorial/CharmSupport.C`), which the program does not use.
- The command line, the search for the configuration file, input errors and the escaping of output in `src/rose-config.C`.
- The whitespace test is a parameter; `ConfigLines` asks of it that no key character, equal sign or hash mark is whitespace. Letters, digits and lower case are those of ASCII.
- ConfigFile.ReadConfigFile: a key with fewer than five characters makes the program read outside the string; the model stops with an outcome of its own there.
