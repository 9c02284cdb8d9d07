# fm::SkipList in Dafny

A model of the skip-list ordered map `fm::SkipList` from `SkipList.h`, together with its nodes
(`SkipNode`) and its forward iterator (`SkipListIterator`), and proofs that every operation does
to the map what an ordered map promises.

The container is modelled as a class over an arena of nodes:

- `keys[x]`, `vals[x]` and `next[x]` are the key, the value and the level links of node `x`.
  The height of a node is `|next[x]|`. Slot 0 is the head sentinel, whose height is
  `MaxLevel` = kMaxHeight = 16. `Null` (-1) stands for the null pointer.
- `currentHeight` and `size` are `current_height_` and `size_`.
- The ghost `chain` lists the live nodes in level-0 order.
- `Valid()` is the invariant every operation keeps:
  - the keys along the chain strictly increase;
  - every node's height lies in 1..16;
  - on every level h, each node taking part in that level (the head included) links to the next
    chain node whose height exceeds h, or to null;
  - `size` is the length of the chain;
  - `currentHeight` is the height of the tallest node.

  Lemmas derive the rest from this: each level is sorted (`LevelIncreasing`), levels are nested
  (`LevelsNested`), keys are unique (`IteratorIdentity`), and no link leads to a node that is off
  the chain (`OffChainUnlinked`).
- `Contents()` is the map the container stands for. Each operation is proved against the
  corresponding map operation, such as `Contents() == old(Contents())[key := value]`.

Keys are `int` and the comparator is `<`. Two keys are equal when neither is less than the other,
and the code tests exactly that. The value type is generic. `Value{}` is the constructor parameter
`blank`.

The engine draws of one call of `getRandomHeight` are the parameter `rolls`: draw j is `rolls(j)`.
`DrawnHeight` states which height a given sequence of draws yields.

### Module layout

| module | contents |
|---|---|
| `Seqs` | sequence edits (insert or remove at a position) and reading an array along the chain |
| `Heights` | searches over the sequence of node heights along the chain |
| `Ordered` | increasing key sequences, lower bounds, and the map the chain stands for |
| `Links` | the link invariant of one level |
| `Relink` | the invariants of the relinking loops |
| `Fm` | the iterator, the container class, and the operations of emplace and erase on the arena |

## Model

| member | source | states |
|---|---|---|
| Fm.GetRandomHeight | SkipList.h:245-251 | the height is in 1..kMaxHeight; every draw before the last one taken is divisible by kBranching = 4; below the cap, the last draw is not |
| Fm.DrawnHeightUnique | SkipList.h:245-251 | the draws determine the height |
| Fm.SkipList.constructor | SkipList.h:88-93 | a live, empty container of height 0 and size 0, with one head slot |
| Fm.SkipList.MoveFrom | SkipList.h:104-113 | the new container takes over rhs's nodes, height and size; rhs is left with no head, height 0 and size 0 |
| Fm.SkipList.MoveAssign | SkipList.h:115-121 | self-assignment changes nothing; otherwise this gets rhs's nodes, height and size, and rhs is left moved-from |
| Fm.SkipList.Swap | SkipList.h:218-225 | exchanges exactly the nodes, height and size; a no-op on self |
| Fm.SkipList.FindLessThan | SkipList.h:235-243 | returns node: the last node whose key is below `key` (the head when none); the head or a smaller key; its level-0 link leads to the key's lower bound; for every level h, `prev[h]` is the level-h predecessor, is on level h, is the head or has a smaller key, and links to null or to a chain node whose key is at least `key` |
| Fm.Descend | SkipList.h:235-243 | the top-down descent ends at the level-0 predecessor and records the level-h predecessor in `prev[h]` for all 16 levels |
| Fm.SearchLevel | SkipList.h:238-239 | the walk along one level stops at the last node of that level whose key is below `key` |
| Fm.SkipList.Emplace | SkipList.h:136-165 | inserted exactly when the key is absent; a duplicate leaves the whole state unchanged and returns end(); otherwise the map gains key ↦ value and the size grows by 1; the returned node is on the chain and holds key and value; its height is the drawn height; the container's height becomes max(old height, new height); the new slot enters the chain at the key's lower bound; every other node keeps its key, value and height |
| Fm.EmplaceArena | SkipList.h:136-165 | on the arena: inserted iff the key is absent; then the new arena is live with the node at the lower bound and the grown height, and only the new slot's height is added |
| Fm.InsertNode | SkipList.h:150-162 | the new node enters a fresh slot at the end of the arena with the drawn height; no other slot's height changes; the arena stays shaped; the height becomes max(height, new height) |
| Fm.LinkNewNode | SkipList.h:151-162 | after the two relinking loops, every level is linked along the chain with the new node at its position; no other height changes |
| Fm.SetNext | SkipList.h:28-31 | exactly one link changes, to the given target; no height changes |
| Fm.AppendKeepsLinks | SkipList.h:151-152 | adding a fresh slot to the arena keeps every level linked |
| Fm.InsertedShape | SkipList.h:154-162 | after the splice, the arena is shaped and the heights along the chain gain the new height at the insertion point |
| Fm.InsertedKeys | SkipList.h:154-160 | the new key enters the key sequence at its lower bound, which keeps it strictly increasing |
| Fm.InsertedContents | SkipList.h:136-165 | the map after emplace is the old map with key bound to value |
| Fm.SkipList.Insert | SkipList.h:167-171 | everything emplace states for the pair: the map outcome, the returned node, its drawn height, the container's height, the chain position and the unchanged other nodes |
| Fm.SkipList.Erase | SkipList.h:173-196 | removed exactly when the key is present; an absent key changes nothing; otherwise the key leaves the map, the size drops by 1, the node at the key's lower bound leaves the chain while every other node stays on it, no node's key, value or height changes, and the container stays live (including the lowered height) |
| Fm.EraseArena | SkipList.h:173-196 | on the arena: removed iff the key is present; then the arena without that node is live with the recomputed height, and no slot's height changes |
| Fm.UnlinkNode | SkipList.h:185-188 | after the breaking loop, every level is linked along the chain without the node; no height changes |
| Fm.RemovedShape | SkipList.h:185-189 | after the unlink, the arena is shaped and the heights along the chain lose the erased node's height |
| Fm.RemovedContents | SkipList.h:173-196 | the map after erase is the old map without the key |
| Fm.LowerHeight | SkipList.h:193-194 | the shrinking loop ends at the height of the tallest remaining node |
| Fm.EmptyTop | SkipList.h:193 | the head's level-h link is null exactly when no node reaches level h |
| Fm.MaxOfBound | SkipList.h:124 | the container's height never exceeds kMaxHeight |
| Fm.LevelZeroLink | SkipList.h:143-147 | the level-0 link of the position before the lower bound leads to the lower bound |
| Fm.SkipList.EraseAt | SkipList.h:198-200 | erasing through an iterator on a live node removes that node's key and shrinks the size by 1; exactly that node's position leaves the chain, every other node stays on it, and no key, value or height changes |
| Fm.SkipList.Index | SkipList.h:202-208 | returns the value slot of `key`, which is on the chain; a present key changes nothing; an absent key is inserted with `Value{}` into a fresh slot at its lower bound, with the drawn height, the container's height becomes max(old height, new height), the size grows by 1 and every other node keeps its key, value and height |
| Fm.SkipList.SetValue | SkipList.h:40 | writing through `value()` rebinds that node's key in the map and changes nothing else |
| Fm.ValueUpdated | SkipList.h:40 | a value write keeps the container live and updates the map at that key only |
| Fm.SkipList.Find | SkipList.h:210-216 | not end() exactly when the key is in the map, and then on a live node holding that key |
| Fm.SkipList.Contains | SkipList.h:227 | true exactly when the key is in the map |
| Fm.SkipList.Counts | SkipList.h:228 | 0 or 1; 1 exactly when the key is in the map |
| Fm.SkipList.Size | SkipList.h:231 | the number of entries of the map; 0 on a moved-from container |
| Fm.SkipList.Empty | SkipList.h:232 | true exactly when the map is empty; true on a moved-from container |
| Fm.SkipList.SizeCounts | SkipList.h:231-232 | `size` counts the map's entries in a live container and is 0 in a moved-from one |
| Fm.SkipList.PositionOf | SkipList.h:176-181 | a live node sits at the lower bound of its key, and no other chain position holds it |
| Fm.Iterator.NonNull | SkipList.h:69 | true exactly on iterators other than end() |
| Fm.End | SkipList.h:230 | end() is on no arena slot |
| Fm.SkipList.Begin | SkipList.h:229-230 | end() exactly when the map is empty; otherwise a live node holding the smallest key |
| Fm.SkipList.FirstIsLeast | SkipList.h:229 | the first chain node holds the least key; the chain is empty iff the map is |
| Fm.SkipList.Advance | SkipList.h:52-63 | `++` moves to the next chain node, or to end() after the last; the key strictly grows |
| Fm.SkipList.AdvanceLive | SkipList.h:52-56 | a live node's level-0 link leads to its chain successor, with a larger key |
| Fm.SkipList.IteratorIdentity | SkipList.h:65-66 | on live nodes, iterator equality (node identity) coincides with key equality |
| Fm.SkipList.KeyOf | SkipList.h:38 | the key of a live node is in the map, bound to that node's value |
| Fm.SkipList.ValueOf | SkipList.h:39 | the value of a live node is the map's value for its key |
| Fm.SkipList.KeyOfLive | SkipList.h:38-39 | a live node is a real slot, and its key and value form an entry of the map |
| Fm.SkipList.LevelIncreasing | SkipList.h:154-160 | each level is strictly increasing: a live link leads to a chain node with a larger key |
| Fm.SkipList.LevelsNested | SkipList.h:154-160 | the levels are nested: a link on level h + 1 implies one on level h, no further along, and the node reached is tall enough |
| Fm.SkipList.OffChainUnlinked | SkipList.h:185-189 | no live link leads to a slot off the chain, so the destroyed node is unreachable |
| Links.LinksAscend | SkipList.h:154-160 | along every level, links lead to later chain nodes with larger keys |
| Links.LinksNested | SkipList.h:154-160 | the link on level h + 1 reaches no nearer than the one on level h |
| Links.PredecessorBrackets | SkipList.h:238-240 | the level-h predecessor of the lower bound is the head or below `key`, and its link is null or at least `key` |
| Links.SearchStart | SkipList.h:237-238 | entering level h from the level-(h + 1) predecessor starts the walk in front of the level-h predecessor |
| Links.SearchStep | SkipList.h:238-239 | one step of the walk stays in front of the key and moves to the next node on the level |
| Links.IncreasingDistinct | SkipList.h:143-146 | strictly increasing keys make the chain free of repeats |
| Links.LinksStayInChain | SkipList.h:189 | only chain nodes are linked to |
| Links.SpliceLevel | SkipList.h:155-160 | splicing the new node into one level keeps it linked along the longer chain |
| Links.UnspliceLevel | SkipList.h:186-187 | unlinking the node from one level keeps it linked along the shorter chain |
| Relink.LinkStep | SkipList.h:154-160 | one iteration of either relinking loop of emplace extends the linked levels by one |
| Relink.LinkDone | SkipList.h:154-162 | levels at and above the new node's height need no change |
| Relink.EmptyAbove | SkipList.h:158-160 | above the container's height the head links to null and is every position's predecessor |
| Relink.UnlinkStep | SkipList.h:185-188 | one iteration of erase's loop extends the unlinked levels by one |
| Relink.UnlinkDone | SkipList.h:185-188 | the loop's break at the node's height leaves the higher levels linked already |
| Relink.PredLink | SkipList.h:186 | the level-h predecessor links to the node exactly when the node is on level h, which is when erase's loop runs |
| Ordered.LowerBound | SkipList.h:235-243 | the number of keys below `key`: all before it are smaller; the key there is at least `key` |
| Ordered.LowerBoundSplits | SkipList.h:143-146 | in an increasing sequence, a key is present exactly when it sits at its lower bound |
| Ordered.InsertKeepsIncreasing | SkipList.h:154-160 | an absent key inserted at its lower bound keeps the keys strictly increasing |
| Ordered.MapOf | SkipList.h:16 | the map of the chain: its keys are exactly the chain's keys, each bound to its value (built over the keys themselves, through IndexOf) |
| Ordered.MapOfInsert | SkipList.h:136-165 | inserting into the chain binds the new key in the map |
| Ordered.MapOfRemove | SkipList.h:173-196 | removing from the chain removes the key from the map |
| Ordered.MapOfUpdate | SkipList.h:40 | changing a value rebinds its key only |
| Ordered.MapOfSize | SkipList.h:231 | the map has as many entries as the chain has nodes |
| Heights.FirstAbove | SkipList.h:238-239 | a position from `from` on whose node takes part in level h, or the end |
| Heights.FirstAboveGap | SkipList.h:238-239 | no position the search passes over takes part in level h, so FirstAbove is the first such position |
| Heights.FirstAboveInsert | SkipList.h:154-160 | how every level-h successor shifts when a node enters the chain |
| Heights.LastBelowInsert | SkipList.h:154-160 | predecessors in front of the insertion point do not depend on the inserted node |
| Heights.SkipToUpto | SkipList.h:238-239 | searching from the level-h predecessor finds the same successor as searching from the target position |
| Heights.EmptyLevel | SkipList.h:193 | level h is empty exactly when every height is at most h |
| Heights.MaxOfInsert | SkipList.h:158-162 | inserting a node of height x makes the maximal height max(old, x) |
| Heights.MaxOfRemove | SkipList.h:193-194 | removing a node does not raise the maximal height |

## Left out

- The destructor (SkipList.h:95-102) and the node allocator (SkipList.h:126, 254-267). `createNode`
  appends a slot to the arena. `destroyNode` leaves the slot in place but unreachable, as
  `OffChainUnlinked` states. Slots are never reused.
- GetRandomHeight: the engine and its seeding (SkipList.h:90, 129, 248) are not modelled. The draws are
  a parameter, so the geometric distribution and the expected logarithmic cost lie outside the model.
- The relinking loops of emplace and erase, and `setNext` inside them, update a value copy of the link
  arena. The class installs the result in one step. Pointer aliasing between nodes is not modelled:
  a node is its arena index.
- Fm.SkipList.FindLessThan: `prev_arr` is a returned sequence rather than a caller's array. The
  null-`prev_arr` call of `find` is modelled by the caller ignoring it.
- The moved-from state: after a move the container has no head node, and `begin()`, `find`,
  `contains`, `counts`, `operator[]`, `emplace`, `insert` and `erase` would dereference the null
  `head_`. The model gives these operations `Valid()` as a precondition, which a moved-from
  container does not meet. `size()`, `empty()`, `swap` and the move operations read no node and
  also accept a moved-from container. A moved-from container
  whose `begin()` equals `end()` would be the natural expectation, but the code at SkipList.h:229
  dereferences `head_`; the model follows the code.
- `SizeType` is `size_t`. The model's `size` is an unbounded `nat`; 2^64 nodes cannot be allocated,
  so wrap-around never arises.
- The comparator and allocator template parameters, perfect forwarding and `std::pair` mechanics.
  Keys are `int` under `<`.
- The `const` overloads and `getNext`. `getNext` is plain indexing `next[x][h]`. The iterator's
  `!=`, `->` and `*` are the negation of `==`, `KeyOf` and `ValueOf`.
- main.cpp, a demonstration driver that does only I/O.
