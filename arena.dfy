/**
 * The representation invariant of a skip list held in an arena, stated on
 * plain values so that the class in module SkipList can name it in one piece.
 *
 * `value`, `level`, `next` and `back` are the arena (one entry per slot);
 * `nodes`, `heights` and `elems` are the abstract list: the slots of the items
 * in ascending order, their tower heights and their values.
 */
module Arena {
  import opened Levels
  import opened Links
  import opened Sorted
  import opened Splice

  /** Every slot has level + 1 forward and level + 1 backward links. */
  ghost predicate Rect(value: seq<int>, level: seq<nat>, next: seq<seq<int>>, back: seq<seq<int>>) {
    |level| == |value| == |next| == |back| &&
    forall x :: 0 <= x < |next| ==> |next[x]| == level[x] + 1 && |back[x]| == level[x] + 1
  }

  /**
   * The arena holds the abstract list with sentinels of height t: the items'
   * slots are distinct real slots whose heights and values are those of the
   * list, no tower is taller than t, the values increase, and when the
   * sentinels exist every level 0..t is wired as LinkedAt says.  Without
   * sentinels the list is empty.
   */
  ghost predicate Rep(value: seq<int>, level: seq<nat>, next: seq<seq<int>>, back: seq<seq<int>>, hasHead: bool,
                      nodes: seq<int>, heights: seq<nat>, elems: seq<int>, t: nat) {
    Rect(value, level, next, back) &&
    |nodes| == |heights| == |elems| &&
    Distinct(nodes) &&
    (forall j :: 0 <= j < |nodes| ==>
       0 <= nodes[j] < |value| && heights[j] == level[nodes[j]] && elems[j] == value[nodes[j]] && heights[j] <= t) &&
    Increasing(elems) &&
    (hasHead ==>
       2 <= |value| && level[HEAD] == t && level[TAIL] == t &&
       forall l :: 0 <= l <= t ==> LinkedAt(next, back, l, nodes, heights)) &&
    (!hasHead ==> nodes == [])
  }

  /**
   * Level 0 read as a list: head's successor is the item at position 0,
   * and the item at position q, a real slot other than the sentinels that
   * holds the value at q, is followed by the item at q + 1 (tail after the
   * last one).
   */
  ghost predicate Walkable(value: seq<int>, next: seq<seq<int>>, nodes: seq<int>, elems: seq<int>) {
    |nodes| == |elems| && 0 <= HEAD < |next| && 0 < |next[HEAD]| && next[HEAD][0] == Node(nodes, 0) &&
    (forall q :: 0 <= q < |nodes| ==>
       0 <= nodes[q] < |value| && nodes[q] < |next| && nodes[q] != TAIL && nodes[q] != NIL &&
       value[nodes[q]] == elems[q] && 0 < |next[nodes[q]]|) &&
    (forall q {:trigger next[nodes[q]]} :: 0 <= q < |nodes| && 0 <= nodes[q] < |next| && 0 < |next[nodes[q]]| ==>
       next[nodes[q]][0] == Node(nodes, q + 1))
  }

  /** With sentinels, level 0 of the arena is the list of the items in order. */
  lemma RepWalkable(value: seq<int>, level: seq<nat>, next: seq<seq<int>>, back: seq<seq<int>>,
                    nodes: seq<int>, heights: seq<nat>, elems: seq<int>, t: nat)
    requires Rep(value, level, next, back, true, nodes, heights, elems, t)
    ensures Walkable(value, next, nodes, elems)
  {
    assert LinkedAt(next, back, 0, nodes, heights);
    assert Rect(value, level, next, back);
    assert FwdOk(next, 0, nodes, heights, -1);
    NextPosIs(heights, -1, 0, 0);
    forall q | 0 <= q < |nodes|
      ensures 0 <= nodes[q] < |value| && nodes[q] < |next| && nodes[q] != TAIL && nodes[q] != NIL &&
              value[nodes[q]] == elems[q] && 0 < |next[nodes[q]]|
    {
      assert Distinct(nodes);
    }
    forall q | 0 <= q < |nodes| && 0 <= nodes[q] < |next| && 0 < |next[nodes[q]]|
      ensures next[nodes[q]][0] == Node(nodes, q + 1)
    {
      assert FwdOk(next, 0, nodes, heights, q);
      NextPosIs(heights, q, 0, q + 1);
    }
  }

  /**
   * A descent looking for v stands at position p on level l: the item there
   * is below v (or p is head), and its successor one level up is above v
   * (or is tail).
   */
  ghost predicate Descent(heights: seq<nat>, elems: seq<int>, top: nat, p: int, l: nat, v: int) {
    l <= top && |heights| == |elems| && -1 <= p < |elems| &&
    (p >= 0 ==> heights[p] >= l && elems[p] < v) &&
    (NextPos(heights, p, l + 1) < |elems| ==> elems[NextPos(heights, p, l + 1)] > v)
  }

  /**
   * Growing both sentinels from height t to top, with every new level of head
   * linked forward to tail and every new level of tail linked back to head,
   * keeps the representation invariant, now with sentinels of height top.
   */
  lemma GrowSentinels(value: seq<int>, level: seq<nat>, next: seq<seq<int>>, back: seq<seq<int>>,
                      nodes: seq<int>, heights: seq<nat>, elems: seq<int>, t: nat, top: nat)
    requires Rep(value, level, next, back, true, nodes, heights, elems, t) && t <= top
    ensures Rep(value, level[HEAD := top][TAIL := top],
                Extend(Extend(next, HEAD, TAIL, top - t), TAIL, NIL, top - t),
                Extend(Extend(back, HEAD, NIL, top - t), TAIL, HEAD, top - t),
                true, nodes, heights, elems, top)
  {
    var d := top - t;
    var lv := level[HEAD := top][TAIL := top];
    var nx := Extend(Extend(next, HEAD, TAIL, d), TAIL, NIL, d);
    var bk := Extend(Extend(back, HEAD, NIL, d), TAIL, HEAD, d);
    assert Rect(value, lv, nx, bk);
    forall l | 0 <= l <= top ensures LinkedAt(nx, bk, l, nodes, heights) {
      if l <= t {
        assert LinkedAt(next, back, l, nodes, heights);
        LinkedAtFrame(next, back, nx, bk, l, nodes, heights);
      } else {
        assert nx[HEAD][l] == TAIL && bk[TAIL][l] == HEAD;
        EmptyLevelLinked(nx, bk, l, nodes, heights);
      }
    }
  }

  /**
   * Slot n, with a tower of height h, is a real slot that holds no item yet;
   * the items' slots are distinct real slots with the items' heights, and
   * the sentinels have height top.
   */
  ghost predicate Slot(level: seq<nat>, nodes: seq<int>, heights: seq<nat>, n: int, h: nat, top: nat) {
    |nodes| == |heights| && 2 <= |level| && Distinct(nodes) &&
    n !in nodes && n != HEAD && n != TAIL && 0 <= n < |level| && level[n] == h && h <= top &&
    level[HEAD] == top && level[TAIL] == top &&
    (forall j :: 0 <= j < |nodes| ==> 0 <= nodes[j] < |level| && heights[j] == level[nodes[j]])
  }

  /** The items' slots are distinct real slots holding the items' values. */
  ghost predicate Holds(value: seq<int>, nodes: seq<int>, elems: seq<int>) {
    |nodes| == |elems| && Distinct(nodes) &&
    (forall j :: 0 <= j < |nodes| ==> 0 <= nodes[j] < |value| && elems[j] == value[nodes[j]])
  }

  /** The values increase, v is not among them and k is its rank. */
  ghost predicate Ranked(elems: seq<int>, k: int, v: int) {
    Increasing(elems) && v !in elems && k == CountLess(elems, v)
  }

  /**
   * Slot n, holding v with a tower of height h, is a fresh slot about to be
   * placed at position k of the list, the rank of v among the values.
   */
  ghost predicate NewSlot(value: seq<int>, level: seq<nat>, nodes: seq<int>, heights: seq<nat>, elems: seq<int>,
                          k: int, n: int, v: int, h: nat, top: nat) {
    Slot(level, nodes, heights, n, h, top) && Holds(value, nodes, elems) && Ranked(elems, k, v) &&
    |level| == |value| && value[n] == v && (forall j :: 0 <= j < |heights| ==> heights[j] <= top)
  }

  /**
   * Placing slot n is done down to level i + 1: the levels i + 1 .. h are
   * wired for the list with n at position k, all other levels up to top are
   * still wired for the list without it.
   */
  ghost predicate Placing(value: seq<int>, level: seq<nat>, next: seq<seq<int>>, back: seq<seq<int>>,
                          nodes: seq<int>, heights: seq<nat>, k: int, n: int, h: nat, top: nat, i: int) {
    Rect(value, level, next, back) && |nodes| == |heights| && 0 <= k <= |nodes| &&
    (forall l: nat :: l <= top && (l <= i || h < l) ==> LinkedAt(next, back, l, nodes, heights)) &&
    (forall l: nat :: i < l <= h ==> LinkedAt(next, back, l, Ins(nodes, k, n), Ins(heights, k, h)))
  }

  /**
   * A fresh slot with v and an unlinked tower of height h appended to the
   * arena of a list without v is ready to be placed at the rank of v.
   */
  lemma AppendSlot(value: seq<int>, level: seq<nat>, next: seq<seq<int>>, back: seq<seq<int>>,
                   nodes: seq<int>, heights: seq<nat>, elems: seq<int>, top: nat, v: int, h: nat)
    requires Rep(value, level, next, back, true, nodes, heights, elems, top)
    requires v !in elems && h <= top
    ensures var n, k := |value|, CountLess(elems, v);
      NewSlot(value + [v], level + [h], nodes, heights, elems, k, n, v, h, top) &&
      Placing(value + [v], level + [h], next + [Repeat(NIL, h + 1)], back + [Repeat(NIL, h + 1)],
              nodes, heights, k, n, h, top, h)
  {
    var n := |value|;
    var value', level', next', back' := value + [v], level + [h], next + [Repeat(NIL, h + 1)], back + [Repeat(NIL, h + 1)];
    assert Rect(value', level', next', back');
    forall l: nat | l <= top ensures LinkedAt(next', back', l, nodes, heights) {
      assert LinkedAt(next, back, l, nodes, heights);
      LinkedAtFrame(next, back, next', back', l, nodes, heights);
    }
  }

  /**
   * On a level not yet placed, the forward link at level i of position c is
   * the slot of its level-i successor r.
   */
  lemma ScanLink(value: seq<int>, level: seq<nat>, next: seq<seq<int>>, back: seq<seq<int>>,
                 nodes: seq<int>, heights: seq<nat>, k: int, n: int, h: nat, top: nat, i: nat, c: int) returns (r: int)
    requires Placing(value, level, next, back, nodes, heights, k, n, h, top, i) && i <= top
    requires -1 <= c < |nodes| && (c >= 0 ==> heights[c] >= i)
    ensures r == NextPos(heights, c, i)
    ensures var x := Node(nodes, c); 0 <= x < |next| && i < |next[x]| && next[x][i] == Node(nodes, r)
  {
    r := NextPos(heights, c, i);
    assert LinkedAt(next, back, i, nodes, heights);
    assert FwdOk(next, i, nodes, heights, c);
  }

  /**
   * One step of the scan along level i for the predecessor of the new slot:
   * from position c, strictly before k and on level i, the successor is
   * position r; r is before k exactly when its value is below v, and once r
   * is at or after k, c is the level-i predecessor of position k.
   */
  lemma ScanOrder(value: seq<int>, nodes: seq<int>, heights: seq<nat>, elems: seq<int>,
                  k: int, v: int, i: nat, c: int, r: int)
    requires Holds(value, nodes, elems) && Ranked(elems, k, v) && |heights| == |nodes|
    requires -1 <= c < k && (c >= 0 ==> heights[c] >= i) && r == NextPos(heights, c, i)
    ensures Node(nodes, r) == TAIL <==> r == |nodes|
    ensures r < |nodes| ==> 0 <= nodes[r] < |value| && (value[nodes[r]] > v <==> k <= r)
    ensures r < k ==> c < r && heights[r] >= i
    ensures k <= r ==> c == PrevPos(heights, k, i) && r == NextPos(heights, k - 1, i)
  {
    CountLessSplit(elems, v);
    if r < |nodes| {
      assert value[nodes[r]] == elems[r];
    }
    if k <= r {
      PrevPosIs(heights, k, i, c);
      SuccOfPred(heights, k, i);
    }
  }

  /**
   * The item just before position k, when its tower reaches level i, is the
   * level-i predecessor of position k, and its level-i link is the successor.
   */
  lemma BehindFacts(value: seq<int>, level: seq<nat>, next: seq<seq<int>>, back: seq<seq<int>>,
                    nodes: seq<int>, heights: seq<nat>, k: int, n: int, h: nat, top: nat, i: nat, behind: int)
    requires Placing(value, level, next, back, nodes, heights, k, n, h, top, i) && i <= top
    requires behind == Node(nodes, k - 1) && (k >= 1 ==> heights[k - 1] >= i)
    ensures behind == Node(nodes, PrevPos(heights, k, i))
    ensures 0 <= behind < |next| && i < |next[behind]| && next[behind][i] == Node(nodes, NextPos(heights, k - 1, i))
  {
    PrevPosIs(heights, k, i, k - 1);
    assert LinkedAt(next, back, i, nodes, heights);
    assert FwdOk(next, i, nodes, heights, k - 1);
  }

  /**
   * The level-i predecessor of position k links forward to the successor
   * succ, and pred, succ and n all have a level-i link.
   */
  lemma PlaceEnds(value: seq<int>, level: seq<nat>, next: seq<seq<int>>, back: seq<seq<int>>,
                  nodes: seq<int>, heights: seq<nat>, k: int, n: int, h: nat, top: nat,
                  i: nat, pred: int, succ: int)
    requires Slot(level, nodes, heights, n, h, top)
    requires Placing(value, level, next, back, nodes, heights, k, n, h, top, i) && i <= h
    requires pred == Node(nodes, PrevPos(heights, k, i)) && succ == Node(nodes, NextPos(heights, k - 1, i))
    ensures 0 <= pred < |next| && i < |next[pred]| && next[pred][i] == succ
    ensures 0 <= succ < |back| && i < |back[succ]| && 0 <= n < |next| && i < |next[n]| && i < |back[n]|
  {
    var pp := PrevPos(heights, k, i);
    SuccOfPred(heights, k, i);
    var r := ScanLink(value, level, next, back, nodes, heights, k, n, h, top, i, pp);
  }

  /** Splicing n in at level i leaves every other level as it was. */
  lemma PlaceOthers(value: seq<int>, level: seq<nat>, next: seq<seq<int>>, back: seq<seq<int>>,
                    nodes: seq<int>, heights: seq<nat>, k: int, n: int, h: nat, top: nat,
                    i: nat, pred: int, succ: int)
    requires Placing(value, level, next, back, nodes, heights, k, n, h, top, i) && i <= h
    requires 0 <= pred < |next| && i < |next[pred]| && 0 <= succ < |back| && i < |back[succ]|
    requires 0 <= n < |next| && i < |next[n]| && i < |back[n]|
    ensures var nx, bk := SetLink(SetLink(next, n, i, succ), pred, i, n), SetLink(SetLink(back, n, i, pred), succ, i, n);
      Rect(value, level, nx, bk) &&
      (forall l: nat :: l <= top && (l < i || h < l) ==> LinkedAt(nx, bk, l, nodes, heights)) &&
      (forall l: nat :: i < l <= h ==> LinkedAt(nx, bk, l, Ins(nodes, k, n), Ins(heights, k, h)))
  {
    var nx, bk := SetLink(SetLink(next, n, i, succ), pred, i, n), SetLink(SetLink(back, n, i, pred), succ, i, n);
    assert Rect(value, level, nx, bk);
    forall l: nat | l <= top && (l < i || h < l) ensures LinkedAt(nx, bk, l, nodes, heights) {
      assert LinkedAt(next, back, l, nodes, heights);
      LinkedAtSetOther(next, back, l, nodes, heights, i, n, succ, n, pred);
      LinkedAtSetOther(SetLink(next, n, i, succ), SetLink(back, n, i, pred), l, nodes, heights, i, pred, n, succ, n);
    }
    forall l: nat | i < l <= h ensures LinkedAt(nx, bk, l, Ins(nodes, k, n), Ins(heights, k, h)) {
      assert LinkedAt(next, back, l, Ins(nodes, k, n), Ins(heights, k, h));
      LinkedAtSetOther(next, back, l, Ins(nodes, k, n), Ins(heights, k, h), i, n, succ, n, pred);
      LinkedAtSetOther(SetLink(next, n, i, succ), SetLink(back, n, i, pred), l, Ins(nodes, k, n), Ins(heights, k, h),
                       i, pred, n, succ, n);
    }
  }

  /** Splicing n in at level i wires level i for the list with n at position k. */
  lemma PlaceLevel(next: seq<seq<int>>, back: seq<seq<int>>,
                   nodes: seq<int>, heights: seq<nat>, k: int, n: int, h: nat, i: nat, pred: int, succ: int)
    requires Distinct(nodes) && n !in nodes && n != HEAD && n != TAIL
    requires LinkedAt(next, back, i, nodes, heights) && 0 <= k <= |nodes| && i <= h
    requires pred == Node(nodes, PrevPos(heights, k, i))
    requires 0 <= pred < |next| && i < |next[pred]| && next[pred][i] == succ
    requires 0 <= succ < |back| && i < |back[succ]| && 0 <= n < |next| && i < |next[n]| && 0 <= n < |back| && i < |back[n]|
    ensures LinkedAt(SetLink(SetLink(next, n, i, succ), pred, i, n), SetLink(SetLink(back, n, i, pred), succ, i, n),
                     i, Ins(nodes, k, n), Ins(heights, k, h))
  {
    var nx, bk := SetLink(SetLink(next, pred, i, n), n, i, succ), SetLink(SetLink(back, n, i, pred), succ, i, n);
    assert SetLink(SetLink(next, n, i, succ), pred, i, n) == nx;
    LinkedAtSplice(next, back, i, nodes, heights, k, n, h, pred, succ, nx, bk);
  }

  /**
   * Splicing slot n into level i after its level-i predecessor pred, with
   * succ the old successor, moves the placing down one level.  The links are
   * set in the order n.next, n.back, pred.next, succ.back.
   */
  lemma PlaceStep(value: seq<int>, level: seq<nat>, next: seq<seq<int>>, back: seq<seq<int>>,
                  nodes: seq<int>, heights: seq<nat>, k: int, n: int, h: nat, top: nat,
                  i: nat, pred: int, succ: int)
    requires Slot(level, nodes, heights, n, h, top)
    requires Placing(value, level, next, back, nodes, heights, k, n, h, top, i) && i <= h
    requires pred == Node(nodes, PrevPos(heights, k, i)) && succ == Node(nodes, NextPos(heights, k - 1, i))
    ensures 0 <= pred < |next| && i < |next[pred]| && next[pred][i] == succ
    ensures 0 <= succ < |back| && i < |back[succ]| && 0 <= n < |next| && i < |next[n]| && i < |back[n]|
    ensures Placing(value, level, SetLink(SetLink(next, n, i, succ), pred, i, n),
                    SetLink(SetLink(back, n, i, pred), succ, i, n), nodes, heights, k, n, h, top, i - 1)
  {
    PlaceEnds(value, level, next, back, nodes, heights, k, n, h, top, i, pred, succ);
    assert LinkedAt(next, back, i, nodes, heights);
    PlaceLevel(next, back, nodes, heights, k, n, h, i, pred, succ);
    PlaceOthers(value, level, next, back, nodes, heights, k, n, h, top, i, pred, succ);
  }

  /**
   * Once slot n is placed on every level up to its height, the arena holds
   * the list with v inserted at its rank.
   */
  lemma PlacedRep(value: seq<int>, level: seq<nat>, next: seq<seq<int>>, back: seq<seq<int>>,
                  nodes: seq<int>, heights: seq<nat>, elems: seq<int>, k: int, n: int, v: int, h: nat, top: nat)
    requires NewSlot(value, level, nodes, heights, elems, k, n, v, h, top)
    requires Placing(value, level, next, back, nodes, heights, k, n, h, top, -1)
    ensures Rep(value, level, next, back, true, Ins(nodes, k, n), Ins(heights, k, h), Ins(elems, k, v), top)
  {
    InsertAtRank(elems, v);
    var nn, nh := Ins(nodes, k, n), Ins(heights, k, h);
    forall l: nat | l <= top ensures LinkedAt(next, back, l, nn, nh) {
      if h < l {
        assert LinkedAt(next, back, l, nodes, heights);
        LinkedAtInsAbove(next, back, l, nodes, heights, k, n, h);
      }
    }
    DistinctIns(nodes, k, n);
  }

  /**
   * The arena built by the first insertion: head and tail of height top, the
   * one item, in slot 2, of height h linked to both on levels 0..h, and the
   * levels above h linked directly from head to tail.
   */
  lemma FirstRep(top: nat, h: nat, v: int)
    requires h <= top
    ensures Rep([0, 0, v], [top, top, h],
                [Repeat(2, h + 1) + Repeat(TAIL, top - h), Repeat(NIL, top + 1), Repeat(TAIL, h + 1)],
                [Repeat(NIL, top + 1), Repeat(2, h + 1) + Repeat(HEAD, top - h), Repeat(HEAD, h + 1)],
                true, [2], [h], [v], top)
  {
    var next := [Repeat(2, h + 1) + Repeat(TAIL, top - h), Repeat(NIL, top + 1), Repeat(TAIL, h + 1)];
    var back := [Repeat(NIL, top + 1), Repeat(2, h + 1) + Repeat(HEAD, top - h), Repeat(HEAD, h + 1)];
    assert Rect([0, 0, v], [top, top, h], next, back);
    forall l: nat | l <= top ensures LinkedAt(next, back, l, [2], [h]) {
      if l <= h {
        NextPosIs([h], -1, l, 0);
        NextPosIs([h], 0, l, 1);
        PrevPosIs([h], 1, l, 0);
        PrevPosIs([h], 0, l, -1);
        assert next[HEAD][l] == 2 && next[2][l] == TAIL && back[TAIL][l] == 2 && back[2][l] == HEAD;
        assert FwdOk(next, l, [2], [h], -1) && FwdOk(next, l, [2], [h], 0);
        assert BwdOk(back, l, [2], [h], 0) && BwdOk(back, l, [2], [h], 1);
      } else {
        assert next[HEAD][l] == TAIL && back[TAIL][l] == HEAD;
        EmptyLevelLinked(next, back, l, [2], [h]);
      }
    }
  }

  /** Adding a fresh real slot to distinct slots keeps them distinct. */
  lemma DistinctIns(nodes: seq<int>, k: int, n: int)
    requires Distinct(nodes) && n !in nodes && n != HEAD && n != TAIL && 0 <= k <= |nodes|
    ensures Distinct(Ins(nodes, k, n))
  {
    var nn := Ins(nodes, k, n);
    forall a, b | 0 <= a < b < |nn| ensures nn[a] != nn[b] {
      if a != k && b != k {
        assert nn[a] == nodes[if a < k then a else a - 1];
        assert nn[b] == nodes[if b < k then b else b - 1];
      }
    }
  }

  /**
   * Unlinking slot n from position k is done down to level i + 1: the levels
   * i + 1 .. h are wired for the list without n, all other levels up to top
   * are still wired for the list with n at position k.
   */
  ghost predicate Unplacing(value: seq<int>, level: seq<nat>, next: seq<seq<int>>, back: seq<seq<int>>,
                            nodes: seq<int>, heights: seq<nat>, k: int, n: int, h: nat, top: nat, i: int) {
    Rect(value, level, next, back) && |nodes| == |heights| && 0 <= k <= |nodes| &&
    (forall l: nat :: l <= top && (l <= i || h < l) ==> LinkedAt(next, back, l, Ins(nodes, k, n), Ins(heights, k, h))) &&
    (forall l: nat :: i < l <= h ==> LinkedAt(next, back, l, nodes, heights))
  }

  /**
   * Taking the item at position k out of the list leaves a list whose slots,
   * values and heights are still those of the arena, with the item's slot
   * free of it.
   */
  lemma Unslot(value: seq<int>, level: seq<nat>, next: seq<seq<int>>, back: seq<seq<int>>,
               nodes: seq<int>, heights: seq<nat>, elems: seq<int>, top: nat, k: int)
    requires Rep(value, level, next, back, true, nodes, heights, elems, top) && 0 <= k < |nodes|
    ensures var dn, dh := Del(nodes, k), Del(heights, k);
      Slot(level, dn, dh, nodes[k], heights[k], top) && Holds(value, dn, Del(elems, k)) &&
      Increasing(Del(elems, k)) && (forall j :: 0 <= j < |dh| ==> dh[j] <= top)
  {
    var dn, de := Del(nodes, k), Del(elems, k);
    forall j | 0 <= j < |dn| ensures dn[j] != nodes[k] {
      assert dn[j] == nodes[if j < k then j else j + 1];
    }
    forall a, b | 0 <= a < b < |de| ensures de[a] < de[b] {
      assert de[a] == elems[if a < k then a else a + 1] && de[b] == elems[if b < k then b else b + 1];
    }
  }

  /** The item at position k of the list held by an arena is ready to be unlinked from its top level down. */
  lemma StartUnplacing(value: seq<int>, level: seq<nat>, next: seq<seq<int>>, back: seq<seq<int>>,
                       nodes: seq<int>, heights: seq<nat>, elems: seq<int>, top: nat, k: int)
    requires Rep(value, level, next, back, true, nodes, heights, elems, top) && 0 <= k < |nodes|
    ensures Unplacing(value, level, next, back, Del(nodes, k), Del(heights, k), k, nodes[k], heights[k], top, heights[k])
  {
    InsDel(nodes, k);
    InsDel(heights, k);
  }

  /**
   * On a level i not yet unlinked, the links of slot n name its neighbours
   * in the list without it: the level-i predecessor of position k and that
   * item's successor.  Both have a level-i link.
   */
  lemma UnlinkEnds(value: seq<int>, level: seq<nat>, next: seq<seq<int>>, back: seq<seq<int>>,
                   nodes: seq<int>, heights: seq<nat>, k: int, n: int, h: nat, top: nat, i: nat)
    requires Slot(level, nodes, heights, n, h, top)
    requires Unplacing(value, level, next, back, nodes, heights, k, n, h, top, i) && i <= h
    ensures 0 <= n < |next| && i < |next[n]| && i < |back[n]|
    ensures back[n][i] == Node(nodes, PrevPos(heights, k, i)) && next[n][i] == Node(nodes, NextPos(heights, k - 1, i))
    ensures var pred, succ := back[n][i], next[n][i];
      0 <= pred < |next| && i < |next[pred]| && 0 <= succ < |back| && i < |back[succ]|
  {
    var nn, nh := Ins(nodes, k, n), Ins(heights, k, h);
    assert LinkedAt(next, back, i, nn, nh);
    assert nh[k] == h && Node(nn, k) == n;
    assert FwdOk(next, i, nn, nh, k) && BwdOk(back, i, nn, nh, k);
    PrevPosInsAt(heights, k, h, i);
    NodeIns(nodes, k, n, PrevPos(heights, k, i));
    UnlinkedSucc(next, i, nodes, heights, k, n, h);
    assert FwdOk(next, i, nn, nh, PrevPos(nh, k, i));
    assert BwdOk(back, i, nn, nh, NextPos(nh, k, i));
  }

  /** Unlinking n from level i leaves every other level as it was. */
  lemma UnlinkOthers(value: seq<int>, level: seq<nat>, next: seq<seq<int>>, back: seq<seq<int>>,
                     nodes: seq<int>, heights: seq<nat>, k: int, n: int, h: nat, top: nat,
                     i: nat, pred: int, succ: int)
    requires Unplacing(value, level, next, back, nodes, heights, k, n, h, top, i) && i <= h
    requires 0 <= pred < |next| && i < |next[pred]| && 0 <= succ < |back| && i < |back[succ]|
    ensures var nx, bk := SetLink(next, pred, i, succ), SetLink(back, succ, i, pred);
      Rect(value, level, nx, bk) &&
      (forall l: nat :: l <= top && (l < i || h < l) ==> LinkedAt(nx, bk, l, Ins(nodes, k, n), Ins(heights, k, h))) &&
      (forall l: nat :: i < l <= h ==> LinkedAt(nx, bk, l, nodes, heights))
  {
    var nx, bk := SetLink(next, pred, i, succ), SetLink(back, succ, i, pred);
    assert Rect(value, level, nx, bk);
    forall l: nat | l <= top && (l < i || h < l) ensures LinkedAt(nx, bk, l, Ins(nodes, k, n), Ins(heights, k, h)) {
      assert LinkedAt(next, back, l, Ins(nodes, k, n), Ins(heights, k, h));
      LinkedAtSetOther(next, back, l, Ins(nodes, k, n), Ins(heights, k, h), i, pred, succ, succ, pred);
    }
    forall l: nat | i < l <= h ensures LinkedAt(nx, bk, l, nodes, heights) {
      assert LinkedAt(next, back, l, nodes, heights);
      LinkedAtSetOther(next, back, l, nodes, heights, i, pred, succ, succ, pred);
    }
  }

  /**
   * Linking the level-i neighbours pred and succ of slot n to each other
   * moves the unlinking down one level.
   */
  lemma UnlinkStep(value: seq<int>, level: seq<nat>, next: seq<seq<int>>, back: seq<seq<int>>,
                   nodes: seq<int>, heights: seq<nat>, k: int, n: int, h: nat, top: nat,
                   i: nat, pred: int, succ: int)
    requires Slot(level, nodes, heights, n, h, top)
    requires Unplacing(value, level, next, back, nodes, heights, k, n, h, top, i) && i <= h
    requires 0 <= n < |next| && i < |next[n]| && i < |back[n]| && pred == back[n][i] && succ == next[n][i]
    ensures 0 <= pred < |next| && i < |next[pred]| && 0 <= succ < |back| && i < |back[succ]| && pred != n && succ != n
    ensures Unplacing(value, level, SetLink(next, pred, i, succ), SetLink(back, succ, i, pred),
                      nodes, heights, k, n, h, top, i - 1)
  {
    UnlinkEnds(value, level, next, back, nodes, heights, k, n, h, top, i);
    DistinctIns(nodes, k, n);
    assert LinkedAt(next, back, i, Ins(nodes, k, n), Ins(heights, k, h));
    LinkedAtUnlink(next, back, i, nodes, heights, k, n, h, pred, succ,
                   SetLink(next, pred, i, succ), SetLink(back, succ, i, pred));
    UnlinkOthers(value, level, next, back, nodes, heights, k, n, h, top, i, pred, succ);
  }

  /** Once slot n is unlinked from every level up to its height, the arena holds the list without it. */
  lemma UnplacedRep(value: seq<int>, level: seq<nat>, next: seq<seq<int>>, back: seq<seq<int>>,
                    nodes: seq<int>, heights: seq<nat>, elems: seq<int>, k: int, n: int, h: nat, top: nat)
    requires Slot(level, nodes, heights, n, h, top) && Holds(value, nodes, elems) && Increasing(elems)
    requires forall j :: 0 <= j < |heights| ==> heights[j] <= top
    requires Unplacing(value, level, next, back, nodes, heights, k, n, h, top, -1)
    ensures Rep(value, level, next, back, true, nodes, heights, elems, top)
  {
    forall l: nat | l <= top ensures LinkedAt(next, back, l, nodes, heights) {
      if h < l {
        assert LinkedAt(next, back, l, Ins(nodes, k, n), Ins(heights, k, h));
        LinkedAtDelAbove(next, back, l, nodes, heights, k, n, h);
      }
    }
  }
}
