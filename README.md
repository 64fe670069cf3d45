# SkipListSet, modelled in Dafny

`SkipListSet` is an ordered set without duplicates, kept as a skip list. Every
item has a random tower height and one forward and one backward link per level
of its tower. Two valueless sentinels, `head` and `tail`, close every level.
The set keeps a `size` counter and a `currentTopLevel` that never decreases.
`add`, `contains` and `remove` share one descent: start at `head` on the top
level, move right while the next value is smaller, and drop a level when it is
larger or when the next item is `tail`. Ordered traversals (the iterator,
`toArray`, `retainAll`, `subSet`) walk level 0.

## How the model is built

- **Arena.** Items live in an arena addressed by slot, with `head` in slot
  `HEAD` and `tail` in slot `TAIL`. The class `SkipList.SkipListSet` holds the
  arena as fields updated in place:
  - `value` and `level`, one entry per slot;
  - `next` and `back`, the per-slot link rows;
  - `hasHead` (in the source, `head != null`), `size` and `currentTopLevel`.

  An unset (`null`) link is `NIL`.
- **Ghost abstraction.** `elems` is the strictly increasing sequence of values,
  `nodes` their slots and `heights` their tower heights.
- **Levels and links** (modules `Levels` and `Links`):
  - Level l is the sub-chain of the positions whose height is at least l.
  - `NextPos` and `PrevPos` are that chain's successor and predecessor.
  - `LinkedAt` says that level l of the arena is wired exactly as that chain.
- **Representation invariant.** `Arena.Rep` states, for every level `0..currentTopLevel`:
  - the arena is rectangular and the item slots are distinct;
  - the values increase;
  - every level is wired as `LinkedAt` says.

  `SkipListSet.Valid` adds `size == |elems|` and `currentTopLevel <= MAX_LEVEL`.
- **Proof modules.**
  - `Splice` proves that one splice or one unlink on one level keeps that level wired.
  - `Arena` lifts this to the whole tower.
  - `Sorted` holds the facts about sorted sequences: rank by `CountLess`,
    insertion and deletion at the rank, the filter of `retainAll` and the range
    of `subSet`.
- **Loops.** Every loop of the source except one is a `while` loop in a
  method, with its invariants. The exception is the item constructor's loop
  that fills both link rows with `null` (SkipListSet.java:55-58). It is modelled
  by the function `Links.Repeat`, whose result is that filled row. The loops:
  - the descents of `add`, `contains` and `remove`;
  - the level loops of `handlePlacingNewNode`, `handleDeletingNode`,
    `changeHeaderAndTailLevel` and `coinFlipForLevel`;
  - the level-0 walks;
  - the per-element loops of `addAll`, `containsAll`, `removeAll` and `retainAll`.
- **Randomness.** `java.util.Random` is replaced by a coin sequence. `coinFlipForLevel`
  reads flip i from `coins`; flips past its end come up tails. The operations
  that add several values take one coin sequence per value (`flips`).
- **Nulls and exceptions.**
  - A `null` argument of `add`, `subSet`, `removeAll` or `retainAll` is `None`.
  - The exceptions the source throws are `Failure(...)` results.
- **Defects.** Where the source has a defect, the main model does what the code
  evidently means, and a `Correction:` comment marks the place. Module
  `Defects` models each defect as written and exhibits an input on which it
  goes wrong (see Findings).

The model follows the code in three places where the code departs from the
java.util contracts it implements:
- `first()` and `last()` return `null` (here `None`) for an empty set instead of throwing.
- The iterator's `remove()` removes the item the cursor stands on. That is the
  value the next call to `next()` will return, not the last one returned.
  `next()` still returns that value afterwards, because the detached item keeps
  its level-0 link.
- `remove()` is allowed before any call to `next()`.

## Model

| member | source | states |
|---|---|---|
| SkipList.SkipListSet.constructor | SkipListSet.java:32-36 | a new set has no sentinels, no items, size 0 and top level 0, and satisfies the invariant |
| SkipList.SkipListSet.AddNewLevel | SkipListSet.java:75-79 | the item gains exactly one unset link on each side and its height grows by one; no other slot changes |
| SkipList.SkipListSet.ChangeLevel | SkipListSet.java:69-73 | the item's height becomes max(old height, newLevel), with one unset link per added level on each side |
| SkipList.LinkNewLevels | SkipListSet.java:656-664 | head's forward row and tail's backward row keep levels 0..oldHeight; every level above points at the other sentinel |
| SkipList.SkipListSet.ChangeHeaderAndTailLevel | SkipListSet.java:656-664 | both sentinels grow to max(old, newHeight); each new level is head -> tail; items and lower levels are untouched; the list stays wired at the new height |
| SkipList.Heads | SkipListSet.java:551-582 | the height a coin run produces: the heads before the first tails, capped at MAX_LEVEL |
| SkipList.SkipListSet.CoinFlipForLevel | SkipListSet.java:551-582 | returns Heads(coins, 10) <= MAX_LEVEL; currentTopLevel becomes max(old, result), never lower; sentinels grow with it when they exist; the items are unchanged |
| SkipList.LinkFirst | SkipListSet.java:195-201 | first insertion: head and tail link to the new item and it links to them on levels 0..h; above h head links to tail (corrected) |
| SkipList.FirstArena | SkipListSet.java:188-203 | the arena of the first insertion holds the one-item list [v] and satisfies the representation invariant |
| SkipList.SkipListSet.AddFirst | SkipListSet.java:188-203 | with no sentinels, adding v creates them at currentTopLevel and leaves exactly [v] with height lvl |
| SkipList.SkipListSet.InsertDescent | SkipListSet.java:206-235 | the descent reports v absent iff v is not in the set, and then stops at the item just before v's rank (or head) |
| SkipList.FindNeighbours | SkipListSet.java:625-652 | the neighbours used on level i, from behind or from a scan from head, are the level-i predecessor of the new position and its successor |
| SkipList.SkipListSet.HandlePlacingNewNode | SkipListSet.java:619-654 | after splicing the new slot into levels 0..h at its rank, every level is wired for the list with the item inserted, back links included (corrected) |
| SkipList.SkipListSet.InsertAfter | SkipListSet.java:219-225 | a fresh slot holding v is spliced in at position k; elems and heights gain v and lvl at k; the invariant holds |
| SkipList.SkipListSet.AddAtLevel | SkipListSet.java:184-238 | add(T, int): true iff v was absent; then v is inserted at its rank with height lvl; otherwise nothing changes, for any lvl when v is present |
| SkipList.SkipListSet.Add | SkipListSet.java:174-181 | add(null) is false and changes nothing; otherwise it is true iff v was absent, the members become old members plus v, and v is inserted at its rank with height Heads(coins, 10); for a duplicate, the values, towers and slots stay as they were; currentTopLevel becomes max(old, that height) in both cases |
| Sorted.InsertAtRank | SkipListSet.java:206-225 | inserting an absent value at its rank keeps the sequence increasing and adds exactly that value |
| SkipList.SkipListSet.Contains | SkipListSet.java:273-307 | true iff v is in the set (false without sentinels) |
| SkipList.SkipListSet.RemoveDescent | SkipListSet.java:376-405 | the descent finds the slot and position of v iff v is in the set, and otherwise walks to tail |
| SkipList.SkipListSet.HandleDeletingNode | SkipListSet.java:612-618 | after unlinking the found slot from every level of its tower, each with that level's own neighbours, the list without the item is wired (corrected) |
| SkipList.SkipListSet.DeleteAt | SkipListSet.java:394-398 | the item at position q leaves elems, nodes and heights at q; size drops by one; the invariant holds |
| SkipList.SkipListSet.Remove | SkipListSet.java:370-406 | true iff v was present; then v is deleted at its rank and the detached slot keeps its forward and backward links; otherwise nothing changes |
| Sorted.DeleteAtRank | SkipListSet.java:394-398 | deleting a present value at its rank keeps the sequence increasing and removes exactly that value |
| Sorted.InsertThenDelete | SkipListSet.java:370-406 | a remove(v) after a successful add(v) restores the sequence of values |
| SkipList.SkipListSet.Size | SkipListSet.java:546-548 | size() is the number of items |
| SkipList.SkipListSet.IsEmpty | SkipListSet.java:459-463 | corrected isEmpty(): true iff there are no items |
| SkipList.SkipListSet.IsEmptyAsWritten | SkipListSet.java:459-463 | isEmpty() as written: true iff the set is NOT empty |
| SkipList.SkipListSet.First | SkipListSet.java:134-140 | None iff the set is empty; otherwise the smallest value |
| Sorted.Least | SkipListSet.java:134-140 | the first value of an increasing sequence is below or equal to all of its values |
| SkipList.SkipListSet.Last | SkipListSet.java:141-147 | None iff the set is empty; otherwise the largest value, read through tail's back link |
| Sorted.Greatest | SkipListSet.java:141-147 | the last value of an increasing sequence is above or equal to all of its values |
| SkipList.SkipListSet.Clear | SkipListSet.java:452-457 | the sentinels go, the set is empty, size is 0, and currentTopLevel is kept |
| SkipList.SkipListSet.ToArray | SkipListSet.java:465-478 | NullPointerException without sentinels; otherwise a fresh array holding exactly the values in ascending order |
| Arena.RepWalkable | SkipListSet.java:469-475 | with sentinels, level 0 from head visits the items in order and reaches tail after the last one |
| SkipList.SkipListSet.ContainsAll | SkipListSet.java:309-319 | true iff every value of c is in the set |
| SkipList.SkipListSet.AddAll | SkipListSet.java:240-246 | always true; the members become old members plus the values of c; currentTopLevel does not decrease |
| SkipList.SkipListSet.FromCollection | SkipListSet.java:165-172 | the new set holds exactly the values of c and has sentinels iff c is non-empty |
| SkipList.SkipListSet.RemoveAll | SkipListSet.java:432-450 | null gives false and no change; otherwise true iff some value of c was present, and the members become old members not in c |
| SkipList.SkipListSet.RetainAll | SkipListSet.java:345-368 | null or no sentinels: false and no change; otherwise the values become the old values kept by c, in order, and the result is true iff some value was dropped; currentTopLevel is unchanged |
| SkipList.SkipListSet.RetainWalk | SkipListSet.java:352-366 | the level-0 walk leaves exactly the filter of the values by c and reports whether it dropped any; currentTopLevel is unchanged |
| SkipList.SkipListSet.RetainOne | SkipListSet.java:354-365 | one step of the walk drops the current value iff it is not in c and moves to the next item; currentTopLevel is unchanged |
| Sorted.KeepContents | SkipListSet.java:345-368 | the retained values are exactly those in both the set and c |
| Sorted.KeepShorter | SkipListSet.java:357-360 | the filter loses a value iff some value of the set is not in c |
| SkipList.SkipListSet.SubSet | SkipListSet.java:507-539 | null bound: NullPointerException; from > to: IllegalArgumentException; otherwise a fresh valid set holding exactly the values v with from <= v < to; the receiver is unchanged |
| SkipList.SkipListSet.SubSetStart | SkipListSet.java:518-525 | the first walk stops at the first item not below from, at position CountLess(elems, from) |
| SkipList.SkipListSet.Collect | SkipListSet.java:527-536 | the second walk adds the values from that position while they are below to, and stops at the first value not below to |
| Sorted.RangeSlice | SkipListSet.java:518-536 | the slice between those two positions holds exactly the values in [from, to) |
| SkipList.SkipListSet.Iterator | SkipListSet.java:126-129 | NullPointerException without sentinels; otherwise a fresh iterator whose remaining values are all the values in ascending order |
| SkipList.SkipListSetIterator.constructor | SkipListSet.java:93-95 | the cursor starts at head's level-0 successor: all values remain |
| SkipList.SkipListSetIterator.HasNext | SkipListSet.java:98-101 | true iff some value remains |
| SkipList.SkipListSetIterator.Next | SkipListSet.java:104-112 | NoSuchElementException when nothing remains; otherwise the first remaining value, which is then consumed |
| SkipList.SkipListSetIterator.Remove | SkipListSet.java:115-122 | IllegalStateException at tail; otherwise the value under the cursor leaves the set and the remaining values are unchanged; the set's currentTopLevel is unchanged |
| Levels.NextPrevInverse | SkipListSet.java:619-654 | on every level the backward link undoes the forward link |
| Levels.SubChain | SkipListSet.java:619-654 | each level is a sub-chain of the level below |
| Levels.EmptyLevel | SkipListSet.java:656-664 | a level above every tower links head directly to tail |
| Splice.LinkedAtSplice | SkipListSet.java:645-650 | splicing a slot in between its level-l predecessor and successor, with all four links set, leaves level l wired for the list with the item inserted |
| Splice.LinkedAtUnlink | SkipListSet.java:612-618 | linking the level-l neighbours of an item to each other leaves level l wired for the list without it |
| Arena.GrowSentinels | SkipListSet.java:656-664 | growing the sentinels, with each new level head -> tail, keeps the invariant at the new height |
| Defects.LinkFirstAsWritten | SkipListSet.java:195-201 | the first-insertion loop as written leaves head's and tail's links above h unset |
| Defects.FirstInsertLeavesTopUnset | SkipListSet.java:191-201 | when the sentinels are taller than the first item, that arena's top level is not wired |
| Defects.PlaceLinksAsWritten | SkipListSet.java:633-650 | the splice as written, in either branch (predecessor found by the scan from head, or the item the descent stopped at), sets the new item's links and the predecessor's forward link, and no other backward link |
| Defects.PlaceLeavesTailBackStale | SkipListSet.java:645-650 | adding 5 after 1: tail's back link still names 1, level 0 is not wired, and last() reads 1 |
| Defects.HandleDeletingNodeAsWritten | SkipListSet.java:612-618 | the unlink as written links the same behind/infront pair on every level of the found item |
| Defects.RemoveLosesSmallerItem | SkipListSet.java:612-618 | removing 2 (height 1) from {1, 2} as written links head to tail on level 0, losing 1 |
| Defects.RetainGuardNeverFails | SkipListSet.java:353 | retainAll's loop guard as written holds for every node, tail included |
| Defects.SubSetAsWritten | SkipListSet.java:507-539 | subSet as written throws NullPointerException on every set that has sentinels |

## Left out

- Main.java, a demo driver, is not part of this model.
- The trace output of add and `showTreeLevel`/`printTree` are left out; they are I/O.
- `java.util.Random` is left out. The coin flips are inputs (`coins`, `flips`).
- The `Object` overloads of `contains` and `remove`, with their `instanceof`
  and cast handling, are left out. They depend on Java's runtime typing.
- `toArray(E[])` and `equals(Object)` are left out. They use reflection or
  compare against arbitrary sets.
- `headSet`, `tailSet`, `comparator` and `getHeight` are left out. The first
  three only throw or return null; the last returns a field.
- The element type is `int` with its natural order, in place of a generic
  `Comparable<T>`.
- `size` and the heights are unbounded integers. Java's `int` overflow past
  2^31 - 1 items is not modelled.
- A removed item keeps its slot in the arena. Java's garbage collection of
  unreachable items is not modelled.
- Collections are sequences of `int`, so `addAll`, `containsAll` and the
  collection constructor cannot receive `null` or a collection holding `null`.
  Their `NullPointerException`, and `add(null)` inside `addAll`, are not modelled.
- SkipList.SkipListSet.AddAtLevel: requires `lvl <= currentTopLevel` unless
  the set has sentinels and already holds v. For a value already present, any
  `lvl >= 0` is covered: the descent returns false before it reads a link
  above currentTopLevel. The cases left out are these:
  - A taller tower for an absent value throws `IndexOutOfBoundsException`.
    Without sentinels the exception comes from the first-insert loop, after
    head, tail and the lower links are set (SkipListSet.java:191-201). With
    sentinels it comes from handlePlacingNewNode's first read of head's links
    at that level, before any link changes (SkipListSet.java:627-629).
  - `lvl` is a `nat`. A level of -2 or less throws `IllegalArgumentException`
    from the item constructor (SkipListSet.java:51), whatever the value.
  - A level of -1 creates an item with no links. Without sentinels, the
    sentinels are created with every link null. With sentinels and an absent
    value, handlePlacingNewNode's loop runs no step and links nothing (SkipListSet.java:624). Either
    way `size` grows and the result is true, but the value is not reachable,
    breaking `size == |elems|`.

  `add(T)`, the only caller in the repository, passes a level between 0 and
  currentTopLevel (SkipListSet.java:180).
- SkipList.SkipListSet.Contains, SkipList.SkipListSet.Remove: the argument is
  a plain `int`, so the `null` argument of `contains(T)` and `remove(T)` is
  not modelled. With sentinels and at least one item, the descent compares an
  item's value with null, and `compareTo(null)` throws `NullPointerException`
  (SkipListSet.java:289, 385, 593). With no items, or without sentinels, the
  result is false.
- SkipList.SkipListSetIterator.Valid: an iterator is modelled only while its
  set changes through that iterator. A set changed behind a live iterator is
  not modelled.

## Findings

| source | as written | input that shows it | evidently intended | confidence | as-written member | corrected member |
|---|---|---|---|---|---|---|
| SkipListSet.java:459-463 | `isEmpty` returns `size > 0` | any set holding one value: isEmpty() is true | true iff `size == 0` | not executed | SkipList.SkipListSet.IsEmptyAsWritten | SkipList.SkipListSet.IsEmpty |
| SkipListSet.java:633-650 | neither branch of the splice sets the successor's backward link | {1}, then add 5 at height 0: tail's back link still names 1, so last() returns 1 (Defects.PlaceLeavesTailBackStale) | the successor's backward link on each level points at the new item | not executed | Defects.PlaceLinksAsWritten | SkipList.SkipListSet.HandlePlacingNewNode |
| SkipListSet.java:612-618 | the unlink uses behind and infront from the level where the descent met the item, on every level | {1 at height 0, 2 at height 1}, remove(2): head links to tail on level 0 and 1 is lost (Defects.RemoveLosesSmallerItem) | each level links the item's own neighbours on that level | not executed | Defects.HandleDeletingNodeAsWritten | SkipList.SkipListSet.HandleDeletingNode |
| SkipListSet.java:353 | the guard, current is not tail OR current is not null, always holds | any set with an item and any non-null c: the walk passes tail and reads its null value (Defects.RetainGuardNeverFails) | stop at tail | not executed | Defects.RetainGuardAsWritten | SkipList.SkipListSet.RetainWalk |
| SkipListSet.java:191-201 | the first insertion links only levels 0..level of head, which is currentTopLevel high | after clear() with currentTopLevel 1, add a value with height 0: head's level-1 link is null and the next descent dereferences it (Defects.FirstInsertLeavesTopUnset) | head's levels above the item link to tail | not executed | Defects.LinkFirstAsWritten | SkipList.LinkFirst |
| SkipListSet.java:516-523 | the first walk of subSet starts at head, whose value is null | any non-empty set, subSet(1, 2): comparing head's null value throws NullPointerException | start at head's level-0 successor | not executed | Defects.SubSetAsWritten | SkipList.SkipListSet.SubSet |
