/**
 * SkipListSet: an ordered set of integers kept as a skip list.
 *
 * The items are held in an arena (`value`, `level`, `next`, `back`, all
 * indexed by slot); the `head` and `tail` sentinels occupy slots HEAD and TAIL
 * once the first value has been added (`hasHead`).  Every query and every
 * update runs the same descent: start at head on `currentTopLevel`, move right
 * while the next value is smaller, drop a level when it is larger or the next
 * item is tail.
 *
 * The ghost fields give the abstract value: `elems`, the values in ascending
 * order, `nodes`, the slots that hold them, and `heights`, their tower
 * heights.  Level l of the list is the sub-chain of items whose height is at
 * least l (see modules Levels and Links).
 */
module SkipList {
  import opened Levels
  import opened Links
  import opened Splice
  import opened Sorted
  import Arena

  /** The tallest tower a coin-flip sequence can produce. */
  const MAX_LEVEL := 10

  datatype Option<T> = None | Some(value: T)

  /** The exceptions the set's operations can raise. */
  datatype Error = NullPointer | IllegalArgument | NoSuchElement | IllegalState

  datatype Result<T> = Success(value: T) | Failure(error: Error)

  datatype Outcome = Pass | Fail(error: Error)

  /** The comparison helpers of the set, on integers with their natural order. */
  predicate LessThan(a: int, b: int) { a < b }
  predicate EqualTo(a: int, b: int) { a == b }
  predicate GreaterThan(a: int, b: int) { a > b }

  function Max(a: nat, b: nat): nat { if a < b then b else a }

  /** Flip i of a supplied coin sequence; flips beyond its end come up tails. */
  predicate Flip(coins: seq<bool>, i: nat) {
    i < |coins| && coins[i]
  }

  /**
   * The tower height that a run of coin flips produces: the number of heads
   * before the first tails, but never more than max.
   */
  function Heads(coins: seq<bool>, max: nat): (r: nat)
    ensures r <= max
    ensures forall i :: 0 <= i < r ==> Flip(coins, i)
    ensures r < max ==> !Flip(coins, r)
  {
    if max == 0 || !Flip(coins, 0) then 0
    else
      var r := 1 + Heads(coins[1..], max - 1);
      assert forall i :: 1 <= i <= |coins| ==> Flip(coins[1..], i - 1) == Flip(coins, i);
      r
  }

  /** The contract of Heads determines its value. */
  lemma HeadsIs(coins: seq<bool>, max: nat, r: nat)
    requires r <= max
    requires forall i :: 0 <= i < r ==> Flip(coins, i)
    requires r < max ==> !Flip(coins, r)
    ensures Heads(coins, max) == r
  {
  }

  /**
   * The loop of changeHeaderAndTailLevel on head's forward row and tail's
   * backward row: every level above oldHeight up to newHeight is set to point
   * at the other sentinel; the levels up to oldHeight keep their links.
   */
  method LinkNewLevels(headNext: seq<int>, tailBack: seq<int>, oldHeight: nat, newHeight: nat)
      returns (headNext': seq<int>, tailBack': seq<int>)
    requires |headNext| == |tailBack| == Max(oldHeight, newHeight) + 1
    ensures headNext' == headNext[..oldHeight + 1] + Repeat(TAIL, Max(oldHeight, newHeight) - oldHeight)
    ensures tailBack' == tailBack[..oldHeight + 1] + Repeat(HEAD, Max(oldHeight, newHeight) - oldHeight)
  {
    headNext', tailBack' := headNext, tailBack;
    var i := newHeight;
    while i > oldHeight
      invariant i < |headNext| && |headNext'| == |headNext| && |tailBack'| == |tailBack|
      invariant forall j :: 0 <= j < |headNext'| ==> headNext'[j] == if j <= i || j <= oldHeight then headNext[j] else TAIL
      invariant forall j :: 0 <= j < |tailBack'| ==> tailBack'[j] == if j <= i || j <= oldHeight then tailBack[j] else HEAD
    {
      headNext' := headNext'[i := TAIL];
      tailBack' := tailBack'[i := HEAD];
      i := i - 1;
    }
    ghost var d := Max(oldHeight, newHeight) - oldHeight;
    assert headNext' == headNext[..oldHeight + 1] + Repeat(TAIL, d) by {
      forall j | 0 <= j < |headNext'| ensures headNext'[j] == (headNext[..oldHeight + 1] + Repeat(TAIL, d))[j] {}
    }
    assert tailBack' == tailBack[..oldHeight + 1] + Repeat(HEAD, d) by {
      forall j | 0 <= j < |tailBack'| ensures tailBack'[j] == (tailBack[..oldHeight + 1] + Repeat(HEAD, d))[j] {}
    }
  }

  /**
   * The loop of the first insertion in add(T, int): head (height top) and the
   * new item n (height h) start with all links unset; on levels 0..h head
   * links forward to n, n back to head, n forward to tail and tail back to n.
   */
  method LinkFirst(top: nat, h: nat, n: int) returns (headNext: seq<int>, nodeBack: seq<int>,
                                                    nodeNext: seq<int>, tailBack: seq<int>)
    requires h <= top
    ensures headNext == Repeat(n, h + 1) + Repeat(TAIL, top - h)
    ensures tailBack == Repeat(n, h + 1) + Repeat(HEAD, top - h)
    ensures nodeBack == Repeat(HEAD, h + 1) && nodeNext == Repeat(TAIL, h + 1)
  {
    headNext, nodeBack, nodeNext, tailBack := Repeat(NIL, top + 1), Repeat(NIL, h + 1), Repeat(NIL, h + 1), Repeat(NIL, top + 1);
    var i := 0;
    while i < h + 1
      invariant 0 <= i <= h + 1 && |headNext| == |tailBack| == top + 1 && |nodeBack| == |nodeNext| == h + 1
      invariant forall j :: 0 <= j <= top ==> headNext[j] == (if j < i then n else NIL)
      invariant forall j :: 0 <= j <= top ==> tailBack[j] == (if j < i then n else NIL)
      invariant forall j :: 0 <= j <= h ==> nodeBack[j] == (if j < i then HEAD else NIL)
      invariant forall j :: 0 <= j <= h ==> nodeNext[j] == (if j < i then TAIL else NIL)
    {
      headNext := headNext[i := n];
      nodeBack := nodeBack[i := HEAD];
      nodeNext := nodeNext[i := TAIL];
      tailBack := tailBack[i := n];
      i := i + 1;
    }
    // Correction: the source stops here, so after clear() the levels of head
    // and tail above h stay unset when currentTopLevel > h and the next
    // descent follows an unset link.  They are linked head -> tail, as on
    // every level that holds no item.
    while i < top + 1
      invariant h + 1 <= i <= top + 1 && |headNext| == |tailBack| == top + 1
      invariant forall j :: 0 <= j <= top ==> headNext[j] == (if j <= h then n else if j < i then TAIL else NIL)
      invariant forall j :: 0 <= j <= top ==> tailBack[j] == (if j <= h then n else if j < i then HEAD else NIL)
    {
      headNext := headNext[i := TAIL];
      tailBack := tailBack[i := HEAD];
      i := i + 1;
    }
    assert headNext == Repeat(n, h + 1) + Repeat(TAIL, top - h);
    assert tailBack == Repeat(n, h + 1) + Repeat(HEAD, top - h);
  }

  /**
   * The arena of the first insertion: head and tail in slots HEAD and TAIL
   * with height top, the new item in slot 2 with height h, wired by
   * LinkFirst.  It holds the one-item list of v.
   */
  method FirstArena(top: nat, h: nat, v: int) returns (value: seq<int>, level: seq<nat>,
                                                     next: seq<seq<int>>, back: seq<seq<int>>)
    requires h <= top
    ensures Arena.Rep(value, level, next, back, true, [2], [h], [v], top)
    ensures value == [0, 0, v] && level == [top, top, h]
  {
    var headNext, nodeBack, nodeNext, tailBack := LinkFirst(top, h, 2);
    value, level := [0, 0, v], [top, top, h];
    next := [headNext, Repeat(NIL, top + 1), nodeNext];
    back := [Repeat(NIL, top + 1), tailBack, nodeBack];
    Arena.FirstRep(top, h, v);
  }

  /** The coin flips used for the j-th of several additions. */
  function CoinsFor(flips: seq<seq<bool>>, j: nat): seq<bool> {
    if j < |flips| then flips[j] else []
  }

  /**
   * The neighbours of the new slot n on level i, as handlePlacingNewNode
   * finds them: behind (the item at position k - 1, where the descent
   * stopped) when its tower reaches level i, otherwise the last item of a
   * scan along level i from head whose successor is tail or above the new
   * value.  The result is the level-i predecessor of position k and that
   * item's successor.
   */
  method FindNeighbours(value: seq<int>, ghost level: seq<nat>, next: seq<seq<int>>, back: seq<seq<int>>,
                        ghost nodes: seq<int>, ghost heights: seq<nat>, ghost elems: seq<int>,
                        ghost k: int, n: int, ghost h: nat, ghost top: nat, i: nat, behind: int, behindLevel: nat)
      returns (pred: int, succ: int)
    requires 0 <= n < |value| && Arena.NewSlot(value, level, nodes, heights, elems, k, n, value[n], h, top)
    requires Arena.Placing(value, level, next, back, nodes, heights, k, n, h, top, i) && i <= h
    requires behind == Node(nodes, k - 1) && (k >= 1 ==> heights[k - 1] == behindLevel)
    ensures pred == Node(nodes, PrevPos(heights, k, i))
    ensures succ == Node(nodes, NextPos(heights, k - 1, i))
  {
    if i > behindLevel {
      // Scan level i from head for the last item below the new value.
      var curNode := HEAD;
      ghost var c := -1;
      while curNode != TAIL
        invariant -1 <= c < k && (c >= 0 ==> heights[c] >= i) && curNode == Node(nodes, c) && curNode != TAIL
        decreases k - c
      {
        ghost var r := Arena.ScanLink(value, level, next, back, nodes, heights, k, n, h, top, i, c);
        Arena.ScanOrder(value, nodes, heights, elems, k, value[n], i, c, r);
        var nextNode := next[curNode][i];
        if nextNode == TAIL || GreaterThan(value[nextNode], value[n]) {
          return curNode, nextNode;
        }
        curNode := nextNode;
        c := r;
      }
      assert false;
    } else {
      Arena.BehindFacts(value, level, next, back, nodes, heights, k, n, h, top, i, behind);
      pred, succ := behind, next[behind][i];
    }
  }

  class SkipListSet {
    // The arena: one slot per item ever allocated, sentinels at HEAD and TAIL.
    var value: seq<int>
    var level: seq<nat>
    var next: seq<seq<int>>
    var back: seq<seq<int>>
    /** head != null in the source: the sentinels exist. */
    var hasHead: bool
    var size: nat
    var currentTopLevel: nat

    ghost var nodes: seq<int>
    ghost var heights: seq<nat>
    ghost var elems: seq<int>

    /** The arena is rectangular: every slot has level+1 links on each side. */
    ghost predicate Shape()
      reads this
    {
      Arena.Rect(value, level, next, back)
    }

    /**
     * The link structure is that of the ghost lists, with sentinels of height t:
     * every level 0..t is wired as LinkedAt says, towers are at most t high and
     * the values increase along level 0.  The size counter is not part of it.
     */
    ghost predicate Wired(t: nat)
      reads this
    {
      Arena.Rep(value, level, next, back, hasHead, nodes, heights, elems, t)
    }

    ghost predicate Valid()
      reads this
    {
      Wired(currentTopLevel) && size == |elems| && currentTopLevel <= MAX_LEVEL
    }

    /** SkipListSet(): no sentinels, top level 0, size 0. */
    constructor ()
      ensures Valid() && !hasHead && elems == []
      ensures currentTopLevel == 0 && size == 0
    {
      value, level, next, back := [], [], [], [];
      hasHead := false;
      size := 0;
      currentTopLevel := 0;
      nodes, heights, elems := [], [], [];
    }

    /** SkipListSetItem.addNewLevel: one more (unset) link on each side of slot x. */
    method AddNewLevel(x: int)
      requires Shape() && 0 <= x < |next|
      modifies this`level, this`next, this`back
      ensures Shape()
      ensures level == old(level)[x := old(level[x]) + 1]
      ensures next == old(next)[x := old(next[x]) + [NIL]]
      ensures back == old(back)[x := old(back[x]) + [NIL]]
    {
      next := next[x := next[x] + [NIL]];
      back := back[x := back[x] + [NIL]];
      level := level[x := level[x] + 1];
    }

    /** SkipListSetItem.changeLevel: raise slot x to newLevel, adding unset links. */
    method ChangeLevel(x: int, newLevel: nat)
      requires Shape() && 0 <= x < |next|
      modifies this`level, this`next, this`back
      ensures Shape()
      ensures level == old(level)[x := Max(old(level[x]), newLevel)]
      ensures next == Extend(old(next), x, NIL, Max(old(level[x]), newLevel) - old(level[x]))
      ensures back == Extend(old(back), x, NIL, Max(old(level[x]), newLevel) - old(level[x]))
    {
      assert next[x] + Repeat(NIL, 0) == next[x] && back[x] + Repeat(NIL, 0) == back[x];
      while level[x] < newLevel
        invariant Shape() && |next| == old(|next|)
        invariant old(level[x]) <= level[x] && (level[x] == old(level[x]) || level[x] <= newLevel)
        invariant level == old(level)[x := level[x]]
        invariant next == Extend(old(next), x, NIL, level[x] - old(level[x]))
        invariant back == Extend(old(back), x, NIL, level[x] - old(level[x]))
        decreases newLevel - level[x]
      {
        ghost var m := level[x] - old(level[x]);
        AddNewLevel(x);
        assert old(next[x]) + Repeat(NIL, m) + [NIL] == old(next[x]) + Repeat(NIL, m + 1);
        assert old(back[x]) + Repeat(NIL, m) + [NIL] == old(back[x]) + Repeat(NIL, m + 1);
      }
    }

    /**
     * changeHeaderAndTailLevel: grow both sentinels to newHeight and wire each
     * new level directly head -> tail.  The items and the lower levels keep
     * their links.
     */
    method ChangeHeaderAndTailLevel(newHeight: nat)
      requires hasHead && 2 <= |level| && Wired(level[HEAD])
      modifies this`level, this`next, this`back
      ensures Wired(Max(old(level[HEAD]), newHeight))
      ensures var top := Max(old(level[HEAD]), newHeight);
        level == old(level)[HEAD := top][TAIL := top] &&
        next == Extend(Extend(old(next), HEAD, TAIL, top - old(level[HEAD])), TAIL, NIL, top - old(level[HEAD])) &&
        back == Extend(Extend(old(back), HEAD, NIL, top - old(level[HEAD])), TAIL, HEAD, top - old(level[HEAD]))
    {
      var oldHeight := level[HEAD];
      ghost var top := Max(oldHeight, newHeight);
      ghost var lv, nx, bk := level[HEAD := top][TAIL := top],
        Extend(Extend(next, HEAD, TAIL, top - oldHeight), TAIL, NIL, top - oldHeight),
        Extend(Extend(back, HEAD, NIL, top - oldHeight), TAIL, HEAD, top - oldHeight);
      Arena.GrowSentinels(value, level, next, back, nodes, heights, elems, oldHeight, top);
      ChangeLevel(HEAD, newHeight);
      ChangeLevel(TAIL, newHeight);
      var headNext, tailBack := LinkNewLevels(next[HEAD], back[TAIL], oldHeight, newHeight);
      next := next[HEAD := headNext];
      back := back[TAIL := tailBack];
      assert level == lv && next == nx && back == bk;
    }

    /**
     * coinFlipForLevel: flip coins until tails or MAX_LEVEL heads; every new
     * height above currentTopLevel raises it and, when the sentinels exist,
     * grows them to match.  The coin sequence stands for the random source.
     */
    method CoinFlipForLevel(coins: seq<bool>) returns (curLevel: nat)
      requires Valid()
      modifies this
      ensures Valid()
      ensures curLevel == Heads(coins, MAX_LEVEL) && curLevel <= MAX_LEVEL
      ensures currentTopLevel == Max(old(currentTopLevel), curLevel)
      ensures hasHead == old(hasHead) && size == old(size)
      ensures nodes == old(nodes) && heights == old(heights) && elems == old(elems)
    {
      curLevel := 0;
      var i := 0;
      while i < MAX_LEVEL
        invariant 0 <= i <= MAX_LEVEL && curLevel == i
        invariant forall j :: 0 <= j < i ==> Flip(coins, j)
        invariant Valid()
        invariant currentTopLevel == Max(old(currentTopLevel), curLevel)
        invariant hasHead == old(hasHead) && size == old(size)
        invariant nodes == old(nodes) && heights == old(heights) && elems == old(elems)
      {
        var isHead := i < |coins| && coins[i];
        if isHead {
          curLevel := curLevel + 1;
          if curLevel > currentTopLevel {
            currentTopLevel := curLevel;
            if hasHead {
              ChangeHeaderAndTailLevel(currentTopLevel);
            }
          }
          if curLevel == MAX_LEVEL {
            break;
          }
        } else {
          HeadsIs(coins, MAX_LEVEL, curLevel);
          return;
        }
        i := i + 1;
      }
      HeadsIs(coins, MAX_LEVEL, curLevel);
    }

    /**
     * add(T, int): insert v with a tower of height lvl.  The first value
     * creates head and tail at currentTopLevel; any later value is placed
     * after the item at which the descent reaches level 0 below v.  A value
     * already present leaves the set as it was, whatever lvl is: the descent
     * meets it before any link above currentTopLevel is read.
     */
    method AddAtLevel(v: int, lvl: nat) returns (added: bool)
      requires Valid() && (lvl <= currentTopLevel || (hasHead && v in elems))
      modifies this
      ensures Valid() && hasHead && currentTopLevel == old(currentTopLevel)
      ensures added <==> v !in old(elems)
      ensures elems == if added then Ins(old(elems), CountLess(old(elems), v), v) else old(elems)
      ensures added ==> heights == Ins(old(heights), CountLess(old(elems), v), lvl)
      ensures !added ==> unchanged(this)
    {
      if !hasHead {
        AddFirst(v, lvl);
        return true;
      }
      var behind, absent := InsertDescent(v);
      if !absent {
        return false;
      }
      InsertAfter(behind, CountLess(elems, v), v, lvl);
      return true;
    }

    /**
     * The descent of add(T, int): whether v is absent and, if so, the item
     * (or head) at which the descent reaches level 0 below v, the item just
     * before the rank of v.
     */
    method InsertDescent(v: int) returns (behind: int, absent: bool)
      requires Valid() && hasHead
      ensures absent <==> v !in elems
      ensures absent ==> behind == Node(nodes, CountLess(elems, v) - 1)
    {
      var currentSearchingLevel: nat := currentTopLevel;
      var curNode := HEAD;
      ghost var p := -1;
      SearchStart(v);
      absent := false;
      while curNode != TAIL
        invariant Searching(p, currentSearchingLevel, v) && curNode == Node(nodes, p)
        decreases currentSearchingLevel, |nodes| - p
      {
        ghost var r := StepFacts(p, currentSearchingLevel, v);
        var nextNode := next[curNode][currentSearchingLevel];
        if nextNode == TAIL || GreaterThan(value[nextNode], v) {
          if currentSearchingLevel != 0 {
            StepDown(p, currentSearchingLevel, v);
            currentSearchingLevel := currentSearchingLevel - 1;
          } else {
            Rank(p, v);
            absent := true;
            break;
          }
        } else if EqualTo(value[nextNode], v) {
          break;
        } else {
          StepRight(p, currentSearchingLevel, v);
          curNode := nextNode;
          p := r;
        }
      }
      behind := curNode;
    }

    /**
     * The first insertion of add(T, int): head and tail are created with
     * height currentTopLevel and the new item of height lvl is linked
     * between them on levels 0..lvl.
     */
    method AddFirst(v: int, lvl: nat)
      requires Valid() && !hasHead && lvl <= currentTopLevel
      modifies this
      ensures Valid() && hasHead && currentTopLevel == old(currentTopLevel)
      ensures elems == [v] && heights == [lvl]
    {
      var V, L, NX, BK := FirstArena(currentTopLevel, lvl, v);
      value, level, next, back, hasHead := V, L, NX, BK, true;
      nodes, heights, elems := [2], [lvl], [v];
      size := size + 1;
    }

    /**
     * The later insertions of add(T, int): a fresh slot holding v with a
     * tower of height lvl is appended to the arena and spliced in after
     * behind, the item at which the descent reached level 0 below v.
     */
    method InsertAfter(behind: int, ghost k: int, v: int, lvl: nat)
      requires Valid() && hasHead && lvl <= currentTopLevel
      requires v !in elems && k == CountLess(elems, v) && behind == Node(nodes, k - 1)
      modifies this
      ensures Valid() && hasHead && currentTopLevel == old(currentTopLevel)
      ensures elems == Ins(old(elems), k, v) && heights == Ins(old(heights), k, lvl)
    {
      ghost var V, L, NX, BK, N, H, E, top := value, level, next, back, nodes, heights, elems, currentTopLevel;
      assert Arena.Rep(V, L, NX, BK, true, N, H, E, top);
      var newNode := |value|;
      value, level := value + [v], level + [lvl];
      next, back := next + [Repeat(NIL, lvl + 1)], back + [Repeat(NIL, lvl + 1)];
      nodes, heights, elems := Ins(N, k, newNode), Ins(H, k, lvl), Ins(E, k, v);
      size := size + 1;
      HandlePlacingNewNode(behind, newNode, V, L, NX, BK, N, H, E, k, v, lvl, top);
    }

    /**
     * handlePlacingNewNode: splice slot infront into every level from its
     * height down to 0.  Where behind (the item the descent stopped at)
     * reaches the level, it is the predecessor; above behind's height the
     * predecessor is found by a scan along that level from head.
     */
    method HandlePlacingNewNode(behind: int, infront: int, ghost V: seq<int>, ghost L: seq<nat>,
                                ghost NX: seq<seq<int>>, ghost BK: seq<seq<int>>, ghost N: seq<int>,
                                ghost H: seq<nat>, ghost E: seq<int>, ghost k: int, ghost v: int,
                                ghost h: nat, ghost top: nat)
      requires Arena.Rep(V, L, NX, BK, true, N, H, E, top) && v !in E && h <= top
      requires value == V + [v] && level == L + [h] && infront == |V|
      requires next == NX + [Repeat(NIL, h + 1)] && back == BK + [Repeat(NIL, h + 1)]
      requires k == CountLess(E, v) && behind == Node(N, k - 1)
      requires nodes == Ins(N, k, infront) && heights == Ins(H, k, h) && elems == Ins(E, k, v)
      requires hasHead && currentTopLevel == top
      modifies this`next, this`back
      ensures Wired(currentTopLevel)
    {
      Arena.AppendSlot(V, L, NX, BK, N, H, E, top, v, h);
      var nx, bk := next, back;
      var behindNodeLevel := level[behind];
      assert k >= 1 ==> H[k - 1] == behindNodeLevel;
      var i: int := level[infront];
      while i >= 0
        modifies {}
        invariant -1 <= i <= h
        invariant Arena.Placing(value, level, nx, bk, N, H, k, infront, h, top, i)
      {
        var pred, succ := FindNeighbours(value, level, nx, bk, N, H, E, k, infront, h, top, i, behind, behindNodeLevel);
        Arena.PlaceStep(value, level, nx, bk, N, H, k, infront, h, top, i, pred, succ);
        nx := SetLink(nx, infront, i, succ);
        bk := SetLink(bk, infront, i, pred);
        nx := SetLink(nx, pred, i, infront);
        // Correction: the source never sets the successor's backward link,
        // so back links (and last()) go stale after an insertion.
        bk := SetLink(bk, succ, i, infront);
        i := i - 1;
      }
      Arena.PlacedRep(value, level, nx, bk, N, H, E, k, infront, v, h, top);
      next, back := nx, bk;
    }

    /**
     * remove(T): the descent from the top level; the first item holding v
     * met on the way is unlinked from every level of its tower.  On level 0
     * the descent moves onto a successor above v instead of stopping, so it
     * walks on to tail when v is absent.
     */
    method Remove(v: int) returns (removed: bool)
      requires Valid()
      modifies this
      ensures Valid() && hasHead == old(hasHead) && currentTopLevel == old(currentTopLevel)
      ensures removed <==> v in old(elems)
      ensures removed ==> CountLess(old(elems), v) < |old(elems)| && old(elems)[CountLess(old(elems), v)] == v
      ensures elems == if removed then Del(old(elems), CountLess(old(elems), v)) else old(elems)
      ensures removed ==> var k := CountLess(old(elems), v);
        nodes == Del(old(nodes), k) && heights == Del(old(heights), k) && value == old(value) &&
        |next| == old(|next|) && next[old(nodes)[k]] == old(next[nodes[k]]) &&
        |back| == old(|back|) && back[old(nodes)[k]] == old(back[nodes[k]])
      ensures !removed ==> unchanged(this)
    {
      if !hasHead {
        return false;
      }
      var found, q := RemoveDescent(v);
      if found == TAIL {
        return false;
      }
      CountLessAt(elems, q);
      DeleteAt(found, q);
      return true;
    }

    /**
     * The descent of remove(T): the slot of the item holding v, with its
     * position, or TAIL once the walk along level 0 has passed every item.
     */
    method RemoveDescent(v: int) returns (found: int, ghost q: int)
      requires Valid() && hasHead
      ensures found == TAIL <==> v !in elems
      ensures found != TAIL ==> 0 <= q < |nodes| && found == nodes[q] && elems[q] == v
    {
      var currentSearchingLevel: nat := currentTopLevel;
      var curNode := HEAD;
      ghost var p := -1;
      // past: the descent has gone beyond the rank of v on level 0.
      ghost var past := false;
      SearchStart(v);
      found := TAIL;
      while curNode != TAIL
        invariant !past ==> Searching(p, currentSearchingLevel, v) && curNode == Node(nodes, p)
        invariant past ==> currentSearchingLevel == 0 && v !in elems && 0 <= p <= |nodes|
        invariant past ==> curNode == Node(nodes, p) && (p < |nodes| ==> elems[p] > v)
        invariant found == TAIL
        decreases currentSearchingLevel, |nodes| - p
      {
        ghost var r := p + 1;
        if past {
          PastStep(p, v);
        } else {
          r := StepFacts(p, currentSearchingLevel, v);
        }
        var nextNode := next[curNode][currentSearchingLevel];
        if nextNode == TAIL || GreaterThan(value[nextNode], v) {
          if currentSearchingLevel != 0 {
            StepDown(p, currentSearchingLevel, v);
            currentSearchingLevel := currentSearchingLevel - 1;
            continue;
          } else {
            if !past {
              Rank(p, v);
              past := true;
            }
            curNode := nextNode;
            p := r;
          }
        } else if EqualTo(value[nextNode], v) {
          found := nextNode;
          p := r;
          break;
        } else {
          StepRight(p, currentSearchingLevel, v);
          curNode := nextNode;
          p := r;
        }
      }
      q := p;
    }

    /**
     * The found branch of remove(T): the item at position q, in slot found,
     * is unlinked and the size drops by one.
     */
    method DeleteAt(found: int, ghost q: int)
      requires Valid() && hasHead && 0 <= q < |nodes| && found == nodes[q]
      modifies this
      ensures Valid() && hasHead && currentTopLevel == old(currentTopLevel)
      ensures elems == Del(old(elems), q) && nodes == Del(old(nodes), q) && heights == Del(old(heights), q)
      ensures value == old(value) && |next| == old(|next|) && next[found] == old(next[found])
      ensures |back| == old(|back|) && back[found] == old(back[found])
    {
      ghost var V, L, NX, BK, N, H, E, top := value, level, next, back, nodes, heights, elems, currentTopLevel;
      assert Arena.Rep(V, L, NX, BK, true, N, H, E, top);
      nodes, heights, elems := Del(N, q), Del(H, q), Del(E, q);
      size := size - 1;
      HandleDeletingNode(found, V, L, NX, BK, N, H, E, q, top);
    }

    /**
     * handleDeletingNode: unlink slot foundNode, the item at position q, from
     * every level of its tower, from the top down, by linking its
     * predecessor and successor on that level to each other.
     */
    method HandleDeletingNode(foundNode: int, ghost V: seq<int>, ghost L: seq<nat>,
                              ghost NX: seq<seq<int>>, ghost BK: seq<seq<int>>, ghost N: seq<int>,
                              ghost H: seq<nat>, ghost E: seq<int>, ghost q: int, ghost top: nat)
      requires Arena.Rep(V, L, NX, BK, true, N, H, E, top) && 0 <= q < |N| && foundNode == N[q]
      requires value == V && level == L && next == NX && back == BK
      requires nodes == Del(N, q) && heights == Del(H, q) && elems == Del(E, q)
      requires hasHead && currentTopLevel == top
      modifies this`next, this`back
      ensures Wired(currentTopLevel)
      ensures |next| == |NX| && next[foundNode] == NX[foundNode]
      ensures |back| == |BK| && back[foundNode] == BK[foundNode]
    {
      ghost var dn, dh, h := Del(N, q), Del(H, q), H[q];
      Arena.Unslot(V, L, NX, BK, N, H, E, top, q);
      Arena.StartUnplacing(V, L, NX, BK, N, H, E, top, q);
      var nx, bk := next, back;
      var i: int := level[foundNode];
      while i >= 0
        modifies {}
        invariant -1 <= i <= h
        invariant Arena.Unplacing(value, level, nx, bk, dn, dh, q, foundNode, h, top, i)
        invariant |nx| == |NX| && nx[foundNode] == NX[foundNode]
        invariant |bk| == |BK| && bk[foundNode] == BK[foundNode]
      {
        // Correction: the source links the same two items, the neighbours of
        // the found item on the level where the descent met it, on every
        // level; below that level they need not be its neighbours.  Each
        // level uses the found item's own links instead.
        var pred, succ := bk[foundNode][i], nx[foundNode][i];
        Arena.UnlinkStep(value, level, nx, bk, dn, dh, q, foundNode, h, top, i, pred, succ);
        nx := SetLink(nx, pred, i, succ);
        bk := SetLink(bk, succ, i, pred);
        i := i - 1;
      }
      Arena.UnplacedRep(value, level, nx, bk, dn, dh, Del(E, q), q, foundNode, h, top);
      next, back := nx, bk;
    }

    /**
     * contains(T): the descent from the top level; true iff an item holds v.
     */
    method Contains(v: int) returns (found: bool)
      requires Valid()
      ensures found <==> v in elems
    {
      if !hasHead {
        return false;
      }
      var currentSearchingLevel: nat := currentTopLevel;
      var curNode := HEAD;
      ghost var p := -1;
      SearchStart(v);
      while curNode != TAIL
        invariant Searching(p, currentSearchingLevel, v) && curNode == Node(nodes, p)
        decreases currentSearchingLevel, |nodes| - p
      {
        ghost var r := StepFacts(p, currentSearchingLevel, v);
        var nextNode := next[curNode][currentSearchingLevel];
        if nextNode == TAIL || GreaterThan(value[nextNode], v) {
          if currentSearchingLevel != 0 {
            StepDown(p, currentSearchingLevel, v);
            currentSearchingLevel := currentSearchingLevel - 1;
            continue;
          } else {
            NotBetween(p, v);
            return false;
          }
        } else if EqualTo(value[nextNode], v) {
          return true;
        } else {
          StepRight(p, currentSearchingLevel, v);
          curNode := nextNode;
          p := r;
        }
      }
      return false;
    }

    /** size(): the counter, which is the number of items. */
    method Size() returns (n: nat)
      requires Valid()
      ensures n == |elems|
    {
      n := size;
    }

    /**
     * isEmpty(), corrected: true iff there are no items.  The source returns
     * size > 0, which is the opposite (see IsEmptyAsWritten).
     */
    method IsEmpty() returns (empty: bool)
      requires Valid()
      ensures empty <==> elems == []
    {
      empty := size == 0;
    }

    /** isEmpty() as the source has it: true exactly when the set is NOT empty. */
    method IsEmptyAsWritten() returns (empty: bool)
      requires Valid()
      ensures empty <==> elems != []
    {
      empty := size > 0;
    }

    /**
     * first(): the value after head on level 0, the least value; nothing
     * (null) when there are no sentinels or when that successor is tail,
     * whose value is null.
     */
    method First() returns (r: Option<int>)
      requires Valid()
      ensures r.None? <==> elems == []
      ensures r.Some? ==> r.value == elems[0] && r.value in elems && forall x :: x in elems ==> r.value <= x
    {
      if !hasHead {
        return None;
      }
      WalkStep(-1);
      var n := next[HEAD][0];
      if n == TAIL {
        return None;
      }
      Least(elems);
      return Some(value[n]);
    }

    /**
     * last(): the value before tail on level 0, the greatest value; nothing
     * (null) when there are no sentinels or when that predecessor is head,
     * whose value is null.
     */
    method Last() returns (r: Option<int>)
      requires Valid()
      ensures r.None? <==> elems == []
      ensures r.Some? ==> r.value == elems[|elems| - 1] && r.value in elems && forall x :: x in elems ==> x <= r.value
    {
      if !hasHead {
        return None;
      }
      BackStep();
      var n := back[TAIL][0];
      if n == HEAD {
        return None;
      }
      Greatest(elems);
      return Some(value[n]);
    }

    /**
     * clear(): drop the sentinels and reset the size.  The arena and
     * currentTopLevel are left as they are; the next insertion builds new
     * sentinels at currentTopLevel.
     */
    method Clear()
      requires Valid()
      modifies this
      ensures Valid() && !hasHead && elems == [] && size == 0
      ensures currentTopLevel == old(currentTopLevel)
    {
      hasHead := false;
      size := 0;
      nodes, heights, elems := [], [], [];
    }

    /**
     * iterator(): a fresh iterator over the items in ascending order.  Its
     * constructor reads head's first link, a NullPointerException while
     * there is no head.
     */
    method Iterator() returns (r: Result<SkipListSetIterator>)
      requires Valid()
      ensures r.Failure? <==> !hasHead
      ensures r.Failure? ==> r.error == NullPointer
      ensures r.Success? ==> fresh(r.value) && r.value.Valid() && r.value.owner == this && r.value.Remaining() == elems
    {
      if !hasHead {
        return Failure(NullPointer);
      }
      var it := new SkipListSetIterator(this);
      return Success(it);
    }

    /**
     * toArray(): the values in ascending order, walking level 0 from head's
     * successor.  Without sentinels the walk dereferences head, which is
     * null.
     */
    method ToArray() returns (r: Result<array<int>>)
      requires Valid()
      ensures r.Failure? <==> !hasHead
      ensures r.Failure? ==> r.error == NullPointer
      ensures r.Success? ==> fresh(r.value) && r.value[..] == elems
    {
      if !hasHead {
        return Failure(NullPointer);
      }
      var a := new int[size];
      var index := 0;
      WalkStep(-1);
      var current := next[HEAD][0];
      while current != TAIL && current != NIL
        invariant 0 <= index <= |nodes| && current == Node(nodes, index)
        invariant a[..index] == elems[..index]
        decreases |nodes| - index
      {
        WalkStep(index);
        a[index] := value[current];
        assert a[..index + 1] == a[..index] + [elems[index]];
        index := index + 1;
        current := next[current][0];
      }
      assert a[..] == a[..index];
      return Success(a);
    }

    /**
     * add(T): a null value is refused; otherwise the coin flips choose the
     * tower height (raising currentTopLevel and the sentinels if needed)
     * and add(T, int) inserts v at that height.
     */
    method Add(v: Option<int>, coins: seq<bool>) returns (added: bool)
      requires Valid()
      modifies this
      ensures Valid()
      ensures v.None? ==> !added && unchanged(this)
      ensures v.Some? ==> hasHead && currentTopLevel == Max(old(currentTopLevel), Heads(coins, MAX_LEVEL))
      ensures v.Some? ==> (added <==> v.value !in old(elems))
      ensures v.Some? ==> forall x :: x in elems <==> x in old(elems) || x == v.value
      ensures v.Some? && added ==> var k := CountLess(old(elems), v.value);
        elems == Ins(old(elems), k, v.value) && heights == Ins(old(heights), k, Heads(coins, MAX_LEVEL))
      ensures v.Some? && !added ==> elems == old(elems) && heights == old(heights) && nodes == old(nodes)
    {
      if v.None? {
        return false;
      }
      ghost var E := elems;
      var lvl := CoinFlipForLevel(coins);
      added := AddAtLevel(v.value, lvl);
      if added {
        InsertAtRank(E, v.value);
      }
    }

    /** containsAll(c): true iff every value of c is in the set. */
    method ContainsAll(c: seq<int>) returns (r: bool)
      requires Valid()
      ensures r <==> forall x :: x in c ==> x in elems
    {
      var i := 0;
      while i < |c|
        invariant 0 <= i <= |c|
        invariant forall j :: 0 <= j < i ==> c[j] in elems
      {
        var found := Contains(c[i]);
        if !found {
          return false;
        }
        i := i + 1;
      }
      return true;
    }

    /**
     * addAll(c): add(T) on each value of c in turn, the j-th with the coin
     * flips CoinsFor(flips, j); the result is always true.
     */
    method AddAll(c: seq<int>, flips: seq<seq<bool>>) returns (r: bool)
      requires Valid()
      modifies this
      ensures Valid() && r
      ensures forall x :: x in elems <==> x in old(elems) || x in c
      ensures hasHead <==> old(hasHead) || c != []
      ensures currentTopLevel >= old(currentTopLevel)
    {
      var i := 0;
      while i < |c|
        invariant 0 <= i <= |c| && Valid()
        invariant forall x :: x in elems <==> x in old(elems) || x in c[..i]
        invariant hasHead <==> old(hasHead) || i > 0
        invariant currentTopLevel >= old(currentTopLevel)
      {
        var _ := Add(Some(c[i]), CoinsFor(flips, i));
        SliceStep(c, 0, i);
        i := i + 1;
      }
      assert c[..i] == c;
      return true;
    }

    /**
     * SkipListSet(Collection): an empty set to which each value of c is
     * added in turn, as addAll does.
     */
    constructor FromCollection(c: seq<int>, flips: seq<seq<bool>>)
      ensures Valid() && (hasHead <==> c != [])
      ensures forall x :: x in elems <==> x in c
    {
      value, level, next, back := [], [], [], [];
      hasHead := false;
      size := 0;
      currentTopLevel := 0;
      nodes, heights, elems := [], [], [];
      new;
      var _ := AddAll(c, flips);
    }

    /**
     * removeAll(c): for each value of c that the set contains, remove it; the
     * result says whether anything was removed.  A null collection leaves
     * the set as it is and gives false.
     */
    method RemoveAll(c: Option<seq<int>>) returns (modified: bool)
      requires Valid()
      modifies this
      ensures Valid() && hasHead == old(hasHead) && currentTopLevel == old(currentTopLevel)
      ensures c.None? ==> !modified && unchanged(this)
      ensures c.Some? ==> (modified <==> exists x :: x in c.value && x in old(elems))
      ensures c.Some? ==> forall x :: x in elems <==> x in old(elems) && x !in c.value
    {
      if c.None? {
        return false;
      }
      var s := c.value;
      modified := false;
      var i := 0;
      while i < |s|
        invariant 0 <= i <= |s| && Valid()
        invariant hasHead == old(hasHead) && currentTopLevel == old(currentTopLevel)
        invariant forall x :: x in elems <==> x in old(elems) && x !in s[..i]
        invariant modified <==> exists j :: 0 <= j < i && s[j] in old(elems)
      {
        var present := Contains(s[i]);
        if present {
          ghost var E := elems;
          var _ := Remove(s[i]);
          DeleteAtRank(E, s[i]);
          modified := true;
        }
        assert s[..i + 1] == s[..i] + [s[i]];
        i := i + 1;
      }
      assert s[..i] == s;
    }

    /**
     * retainAll(c): walk level 0 from head's successor, removing every value
     * not in c and moving on to the successor saved before the removal; the
     * result says whether anything was removed.  A null collection, or a
     * set without sentinels, gives false.
     */
    method RetainAll(c: Option<seq<int>>) returns (changed: bool)
      requires Valid()
      modifies this
      ensures Valid() && hasHead == old(hasHead) && currentTopLevel == old(currentTopLevel)
      ensures c.None? || !old(hasHead) ==> !changed && unchanged(this)
      ensures c.Some? && old(hasHead) ==> elems == Keep(old(elems), c.value)
      ensures c.Some? ==> forall x :: x in elems <==> x in old(elems) && x in c.value
      ensures c.Some? ==> (changed <==> exists x :: x in old(elems) && x !in c.value)
    {
      if c.None? || !hasHead {
        return false;
      }
      ghost var E := elems;
      WalkStep(-1);
      var current := next[HEAD][0];
      RetainStart(E, c.value);
      changed := RetainWalk(c.value, current, E);
      KeepContents(E, c.value);
      KeepShorter(E, c.value);
    }

    /**
     * The walk of retainAll(c) from head's successor current over the items
     * E: afterwards the items are those of E that are in c, in their order;
     * the result says whether any was removed.
     */
    method RetainWalk(s: seq<int>, current: int, ghost E: seq<int>) returns (changed: bool)
      requires Valid() && hasHead
      requires Retaining(elems, E, s, 0, 0) && current == Node(nodes, 0)
      modifies this
      ensures Valid() && hasHead && currentTopLevel == old(currentTopLevel)
      ensures elems == Keep(E, s) && (changed <==> |elems| < |E|)
    {
      ghost var j := 0;
      ghost var p := 0;
      changed := false;
      var cur := current;
      // Correction: the source's guard is `current != tail || current !=
      // null`, which always holds, so its walk goes past tail (whose value
      // is null) and fails there.  The walk stops at tail instead.
      while cur != TAIL
        invariant Valid() && hasHead && currentTopLevel == old(currentTopLevel)
        invariant Retaining(elems, E, s, j, p) && 0 <= p <= |nodes| && cur == Node(nodes, p)
        invariant changed <==> p < j
        decreases |E| - j
      {
        var dropped;
        cur, dropped, p := RetainOne(cur, s, E, j, p);
        changed := changed || dropped;
        j := j + 1;
      }
      AtTail(p);
      RetainEnd(elems, E, s, j, p);
    }

    /**
     * One step of the walk of retainAll(c): the item current, at position p,
     * holds E[j]; if that value is not in c it is removed with remove(T).
     * The result is the successor saved before any removal, which now
     * stands at the position after the kept items.
     */
    method RetainOne(current: int, s: seq<int>, ghost E: seq<int>, ghost j: int, ghost p: int)
        returns (nextNode: int, dropped: bool, ghost p': int)
      requires Valid() && hasHead && current != TAIL
      requires Retaining(elems, E, s, j, p) && 0 <= p <= |nodes| && current == Node(nodes, p)
      modifies this
      ensures Valid() && hasHead && currentTopLevel == old(currentTopLevel)
      ensures dropped <==> j < |E| && E[j] !in s
      ensures p' == if dropped then p else p + 1
      ensures Retaining(elems, E, s, j + 1, p') && p' <= |nodes| && nextNode == Node(nodes, p')
    {
      assert p < |nodes|;
      RetainStep(E, s, j);
      ItemStep(p);
      var v := value[current];
      nextNode := next[current][0];
      dropped := v !in s;
      p' := if dropped then p else p + 1;
      if dropped {
        ghost var N := nodes;
        CountLessAt(elems, p);
        var _ := Remove(v);
        NodeDel(N, p);
      }
    }

    /**
     * subSet(from, to): a new set holding the values in [from, to), each
     * added with add(T) and its own coin flips.  A null bound is a null
     * pointer error and from > to an illegal argument.
     */
    method SubSet(from: Option<int>, to: Option<int>, flips: seq<seq<bool>>) returns (r: Result<SkipListSet>)
      requires Valid()
      ensures from.None? || to.None? ==> r == Failure(NullPointer)
      ensures from.Some? && to.Some? && from.value > to.value ==> r == Failure(IllegalArgument)
      ensures from.Some? && to.Some? && from.value <= to.value ==>
        r.Success? && fresh(r.value) && r.value.Valid() &&
        forall x :: x in r.value.elems <==> x in elems && from.value <= x < to.value
    {
      if from.None? || to.None? {
        return Failure(NullPointer);
      }
      var lo, hi := from.value, to.value;
      if GreaterThan(lo, hi) {
        return Failure(IllegalArgument);
      }
      var sub := new SkipListSet();
      var current, p0 := SubSetStart(lo);
      if hasHead {
        Arena.RepWalkable(value, level, next, back, nodes, heights, elems, currentTopLevel);
      }
      ghost var p := Collect(sub, current, p0, hi, flips);
      CountLessSplit(elems, lo);
      RangeSlice(elems, lo, hi, p0, p);
      return Success(sub);
    }

    /**
     * The first walk of subSet: along level 0 to the first item at or above
     * lo, which stands at the rank of lo; null when there are no sentinels.
     */
    method SubSetStart(lo: int) returns (current: int, ghost p: int)
      requires Valid()
      ensures p == CountLess(elems, lo) && (p < |nodes| ==> elems[p] >= lo)
      ensures hasHead ==> current == Node(nodes, p)
      ensures !hasHead ==> current == NIL
    {
      current := NIL;
      p := 0;
      // Correction: the source starts the walk at head itself, whose value
      // is null, so the first comparison fails on every set with sentinels.
      // The walk starts at head's successor instead (and at null, as in the
      // source, when there are no sentinels).
      if hasHead {
        WalkStep(-1);
        current := next[HEAD][0];
      }
      while current != NIL && current != TAIL
        invariant 0 <= p <= |nodes| && (hasHead ==> current == Node(nodes, p))
        invariant !hasHead ==> current == NIL && nodes == []
        invariant forall i :: 0 <= i < p ==> elems[i] < lo
        decreases |nodes| - p
      {
        AtTail(p);
        ItemStep(p);
        if GreaterThan(value[current], lo) || EqualTo(value[current], lo) {
          break;
        }
        current := next[current][0];
        p := p + 1;
      }
      if hasHead {
        AtTail(p);
      }
      assert Increasing(elems);
      forall i | p < i < |elems| ensures elems[i] >= lo {
        assert elems[p] < elems[i];
      }
      CountLessIs(elems, lo, p);
    }

    /**
     * The second walk of subSet: from current, the item at position p0, add
     * each value below hi to sub, the j-th with the coin flips
     * CoinsFor(flips, j); stop at the first value at or above hi, or at
     * tail.  Afterwards sub holds the values from p0 up to that position q.
     */
    method Collect(sub: SkipListSet, current: int, ghost p0: int, hi: int, flips: seq<seq<bool>>) returns (ghost q: int)
      requires sub.Valid() && sub != this && sub.elems == [] && |nodes| == |elems|
      requires hasHead ==> Arena.Walkable(value, next, nodes, elems)
      requires !hasHead ==> nodes == []
      requires 0 <= p0 <= |nodes| && (hasHead ==> current == Node(nodes, p0)) && (!hasHead ==> current == NIL)
      modifies sub
      ensures sub.Valid() && p0 <= q <= |nodes|
      ensures (p0 < q ==> elems[q - 1] < hi) && (q < |nodes| ==> elems[q] >= hi)
      ensures forall x :: x in sub.elems <==> x in elems[p0..q]
    {
      ghost var E, N, withHead := elems, nodes, hasHead;
      var vals, nx := value, next;
      var cur := current;
      var j := 0;
      q := p0;
      assert E[p0..p0] == [];
      while cur != NIL && cur != TAIL
        invariant p0 <= q <= |E| == |N| && cur == (if withHead then Node(N, q) else NIL)
        invariant p0 < q ==> E[q - 1] < hi
        invariant sub.Valid()
        invariant forall x :: x in sub.elems <==> x in E[p0..q]
        decreases |E| - q
      {
        assert q < |N| && cur == N[q] && vals[cur] == E[q];
        if LessThan(vals[cur], hi) {
          var _ := sub.Add(Some(vals[cur]), CoinsFor(flips, j));
          j := j + 1;
        } else {
          break;
        }
        SliceStep(E, p0, q);
        cur := nx[cur][0];
        q := q + 1;
      }
      assert q < |N| ==> cur == N[q] && N[q] != TAIL;
    }

    /**
     * The state of a descent looking for v: the item at position p, on level
     * l, is below v (or is head), and its successor one level up is above v
     * (or is tail).
     */
    ghost predicate Searching(p: int, l: nat, v: int)
      reads this
    {
      hasHead && |nodes| == |elems| && Arena.Descent(heights, elems, currentTopLevel, p, l, v)
    }

    /** A descent starts at head on the top level. */
    lemma SearchStart(v: int)
      requires Valid() && hasHead
      ensures Valid() && Searching(-1, currentTopLevel, v)
    {
      EmptyLevel(heights, currentTopLevel + 1);
    }

    /**
     * One step of the descent: the level-l forward link of position p names
     * the item at r = NextPos(heights, p, l), which is tail exactly at the end.
     */
    lemma StepFacts(p: int, l: nat, v: int) returns (r: int)
      requires Valid() && Searching(p, l, v)
      ensures r == NextPos(heights, p, l)
      ensures var x := Node(nodes, p);
        0 <= x < |next| && l < |next[x]| && next[x][l] == Node(nodes, r) &&
        (Node(nodes, r) == TAIL <==> r == |nodes|) &&
        (r < |nodes| ==> 0 <= nodes[r] < |value| && value[nodes[r]] == elems[r])
    {
      r := NextPos(heights, p, l);
      assert LinkedAt(next, back, l, nodes, heights);
      assert FwdOk(next, l, nodes, heights, p);
    }

    /**
     * Past the rank of v on level 0, every link leads to the next position,
     * whose item (if any) is above v as well.
     */
    lemma PastStep(p: int, v: int)
      requires Valid() && hasHead && 0 <= p < |nodes| && elems[p] > v
      ensures var x := nodes[p];
        0 <= x < |next| && 0 < |next[x]| && next[x][0] == Node(nodes, p + 1) &&
        (Node(nodes, p + 1) == TAIL <==> p + 1 == |nodes|) &&
        (p + 1 < |nodes| ==> 0 <= nodes[p + 1] < |value| && value[nodes[p + 1]] == elems[p + 1] && elems[p + 1] > v)
    {
      WalkStep(p);
    }

    /** Position p names tail exactly when it is the position after the last item. */
    lemma AtTail(p: int)
      requires Valid() && hasHead && -1 <= p <= |nodes|
      ensures Node(nodes, p) == TAIL <==> p == |nodes|
    {
      if 0 <= p < |nodes| {
        assert Distinct(nodes) && nodes[p] != TAIL;
      }
    }

    /**
     * The item at position p holds elems[p], and its level-0 successor is
     * the item at p + 1, or tail after the last one.
     */
    lemma ItemStep(p: int)
      requires Valid() && hasHead && 0 <= p < |nodes|
      ensures var x := nodes[p];
        0 <= x < |value| && value[x] == elems[p] && 0 <= x < |next| && 0 < |next[x]| && next[x][0] == Node(nodes, p + 1)
    {
      WalkStep(p - 1);
      WalkStep(p);
    }

    /**
     * Walking level 0: the forward link of the item (or head) at position p
     * is the item at p + 1, or tail after the last one.
     */
    lemma WalkStep(p: int)
      requires Valid() && hasHead && -1 <= p < |nodes|
      ensures var x := Node(nodes, p);
        0 <= x < |next| && 0 < |next[x]| && next[x][0] == Node(nodes, p + 1) &&
        (Node(nodes, p + 1) == TAIL <==> p + 1 == |nodes|) &&
        (p + 1 < |nodes| ==> 0 <= nodes[p + 1] < |value| && value[nodes[p + 1]] == elems[p + 1])
    {
      assert LinkedAt(next, back, 0, nodes, heights);
      assert FwdOk(next, 0, nodes, heights, p);
      NextPosIs(heights, p, 0, p + 1);
    }

    /** The backward link of tail on level 0 is the last item, or head when there is none. */
    lemma BackStep()
      requires Valid() && hasHead
      ensures 0 <= TAIL < |back| && 0 < |back[TAIL]| && back[TAIL][0] == Node(nodes, |nodes| - 1)
      ensures back[TAIL][0] == HEAD <==> nodes == []
      ensures nodes != [] ==> 0 <= nodes[|nodes| - 1] < |value| && value[nodes[|nodes| - 1]] == elems[|elems| - 1]
    {
      assert LinkedAt(next, back, 0, nodes, heights);
      PrevPosIs(heights, |nodes|, 0, |nodes| - 1);
      assert BwdOk(back, 0, nodes, heights, |nodes|);
      if nodes != [] {
        var j := |nodes| - 1;
        assert Distinct(nodes) && |elems| == |nodes|;
        assert 0 <= nodes[j] < |value| && value[nodes[j]] == elems[j];
        assert nodes[j] != HEAD;
      }
    }

    /** Dropping a level when the successor is above v keeps the descent going. */
    lemma StepDown(p: int, l: nat, v: int)
      requires Valid() && Searching(p, l, v) && l > 0
      requires NextPos(heights, p, l) < |nodes| ==> elems[NextPos(heights, p, l)] > v
      ensures Valid() && Searching(p, l - 1, v)
    {
    }

    /** Moving right onto a successor below v keeps the descent going. */
    lemma StepRight(p: int, l: nat, v: int)
      requires Valid() && Searching(p, l, v)
      requires NextPos(heights, p, l) < |nodes| && elems[NextPos(heights, p, l)] < v
      ensures Valid() && Searching(NextPos(heights, p, l), l, v)
    {
      AdvanceKeepsAbove(p, l, v);
    }

    /**
     * The descent stopping on level 0 at position p, below v and with a
     * successor above v, finds the rank of v, which is not in the set.
     */
    lemma Rank(p: int, v: int)
      requires Valid() && Searching(p, 0, v)
      requires NextPos(heights, p, 0) < |nodes| ==> elems[NextPos(heights, p, 0)] > v
      ensures v !in elems && CountLess(elems, v) == p + 1
    {
      NextPosIs(heights, p, 0, p + 1);
      NotBetween(p, v);
      CountLessIs(elems, v, p + 1);
    }

    /** Between an item below v and its level-0 successor above v there is no room for v. */
    lemma NotBetween(p: int, v: int)
      requires Valid() && -1 <= p < |nodes|
      requires p >= 0 ==> elems[p] < v
      requires p + 1 < |nodes| ==> elems[p + 1] > v
      ensures v !in elems
    {
      forall j | 0 <= j < |elems| ensures elems[j] != v {
        if j < p {
          assert elems[j] < elems[p];
        } else if j > p + 1 {
          assert elems[j] > elems[p + 1];
        }
      }
    }

    /**
     * Moving right at level l onto an item below v keeps the level-(l+1)
     * successor, which is above v, in front of the search.
     */
    lemma AdvanceKeepsAbove(p: int, l: nat, v: int)
      requires Valid() && -1 <= p < |nodes|
      requires NextPos(heights, p, l) < |nodes| && elems[NextPos(heights, p, l)] < v
      requires NextPos(heights, p, l + 1) < |nodes| ==> elems[NextPos(heights, p, l + 1)] > v
      ensures var r := NextPos(heights, p, l);
        NextPos(heights, r, l + 1) == NextPos(heights, p, l + 1)
    {
      var r, top := NextPos(heights, p, l), NextPos(heights, p, l + 1);
      SubChain(heights, p, l + 1);
      if top == r {
        assert false;
      }
      NextPosIs(heights, r, l + 1, top);
    }
  }

  /**
   * SkipListSetIterator: a cursor on level 0 of the set owner.  pos is the position of
   * current among the items.  After remove() current is a detached item
   * (stale): it no longer holds a value of the set but its level-0 link
   * still leads to the item at pos.
   */
  class SkipListSetIterator {
    const owner: SkipListSet
    var current: int
    ghost var pos: nat
    ghost var stale: bool

    ghost predicate Valid()
      reads this, owner
    {
      owner.Valid() && owner.hasHead && pos <= |owner.nodes| &&
      (!stale ==> current == Node(owner.nodes, pos)) &&
      (stale ==>
         0 <= current < |owner.value| && current < |owner.next| && current != HEAD && current != TAIL &&
         0 < |owner.next[current]| && owner.next[current][0] == Node(owner.nodes, pos) &&
         owner.value[current] !in owner.elems)
    }

    /** The values the calls to next() will return, in order. */
    ghost function Remaining(): seq<int>
      reads this, owner
      requires Valid()
    {
      (if stale then [owner.value[current]] else []) + owner.elems[pos..]
    }

    /** The iterator starts at head's level-0 successor, the first item. */
    constructor (s: SkipListSet)
      requires s.Valid() && s.hasHead
      ensures Valid() && owner == s && Remaining() == s.elems
    {
      s.WalkStep(-1);
      owner := s;
      current := s.next[HEAD][0];
      pos := 0;
      stale := false;
    }

    /** hasNext(): current is an item, not tail: some value is still to come. */
    method HasNext() returns (r: bool)
      requires Valid()
      ensures r <==> Remaining() != []
    {
      if !stale {
        owner.AtTail(pos);
      }
      r := current != NIL && current != TAIL;
    }

    /**
     * next(): the value of current, after which current moves to its level-0
     * successor; NoSuchElementException once the items are exhausted.
     */
    method Next() returns (r: Result<int>)
      requires Valid()
      modifies this
      ensures Valid()
      ensures old(Remaining()) == [] ==> r == Failure(NoSuchElement) && unchanged(this)
      ensures old(Remaining()) != [] ==> r == Success(old(Remaining())[0]) && Remaining() == old(Remaining())[1..]
    {
      var more := HasNext();
      if !more {
        return Failure(NoSuchElement);
      }
      if !stale {
        owner.ItemStep(pos);
      }
      var v := owner.value[current];
      current := owner.next[current][0];
      if stale {
        stale := false;
      } else {
        pos := pos + 1;
      }
      return Success(v);
    }

    /**
     * remove(): IllegalStateException when current is tail; otherwise the
     * value of current, the one next() would return, is removed from the
     * owner.  current is left on the detached item, so the values next() will
     * return are unchanged, the removed one first.
     */
    method Remove() returns (o: Outcome)
      requires Valid()
      modifies this, owner
      ensures Valid() && owner.currentTopLevel == old(owner.currentTopLevel)
      ensures old(Remaining()) == [] ==> o == Fail(IllegalState) && unchanged(this) && unchanged(owner)
      ensures old(Remaining()) != [] ==> o == Pass && Remaining() == old(Remaining()) && stale
      ensures old(Remaining()) != [] ==>
        forall x :: x in owner.elems <==> x in old(owner.elems) && x != old(Remaining())[0]
    {
      if !stale {
        owner.AtTail(pos);
      }
      if current == NIL || current == HEAD || current == TAIL {
        return Fail(IllegalState);
      }
      var v := owner.value[current];
      ghost var N, E, wasStale := owner.nodes, owner.elems, stale;
      if !wasStale {
        owner.ItemStep(pos);
        assert Distinct(N) && N[pos] != HEAD && N[pos] != TAIL;
        CountLessAt(E, pos);
        DeleteAtRank(E, v);
      }
      var removed := owner.Remove(v);
      if !wasStale {
        NodeDel(N, pos);
        DelSuffix(E, pos);
      }
      stale := true;
      return Pass;
    }
  }
}
