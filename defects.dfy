/**
 * The code of SkipListSet as written, where module SkipList models what it
 * evidently means, each with an input on which the two differ.  The arena
 * is that of module SkipList: head in slot HEAD, tail in slot TAIL, NIL for
 * an unset (null) link.
 */
module Defects {
  import opened Levels
  import opened Links
  import SkipList

  /**
   * The loop of the first insertion in add(T, int) as written: only levels
   * 0..h are linked, so head's forward links and tail's backward links
   * above h stay unset.
   */
  method LinkFirstAsWritten(top: nat, h: nat, n: int) returns (headNext: seq<int>, nodeBack: seq<int>,
                                                            nodeNext: seq<int>, tailBack: seq<int>)
    requires h <= top
    ensures headNext == Repeat(n, h + 1) + Repeat(NIL, top - h)
    ensures tailBack == Repeat(n, h + 1) + Repeat(NIL, top - h)
    ensures nodeBack == Repeat(HEAD, h + 1) && nodeNext == Repeat(TAIL, h + 1)
  {
    headNext, nodeBack, nodeNext, tailBack := Repeat(NIL, top + 1), Repeat(NIL, h + 1), Repeat(NIL, h + 1), Repeat(NIL, top + 1);
    var i := 0;
    while i < h + 1
      invariant 0 <= i <= h + 1 && |headNext| == |tailBack| == top + 1 && |nodeBack| == |nodeNext| == h + 1
      invariant forall j :: 0 <= j <= top ==> headNext[j] == (if j < i then n else NIL)
      invariant forall j :: 0 <= j <= top ==> tailBack[j] == (if j < i then n else NIL)
      invariant forall j :: 0 <= j <= h ==> nodeBack[j] == (if j < i then HEAD else NIL)
      invariant forall j :: 0 <= j <= h ==> nodeNext[j] == (if j < i then TAIL else NIL)
    {
      headNext := headNext[i := n];
      nodeBack := nodeBack[i := HEAD];
      nodeNext := nodeNext[i := TAIL];
      tailBack := tailBack[i := n];
      i := i + 1;
    }
    assert headNext == Repeat(n, h + 1) + Repeat(NIL, top - h);
    assert tailBack == Repeat(n, h + 1) + Repeat(NIL, top - h);
  }

  /**
   * When the sentinels are taller than the first item (after clear(), which
   * keeps currentTopLevel), the arena LinkFirstAsWritten builds is not wired
   * on the top level: head's top link is unset where tail belongs.
   */
  lemma FirstInsertLeavesTopUnset(top: nat, h: nat)
    requires h < top
    ensures var headNext := Repeat(2, h + 1) + Repeat(NIL, top - h);
      var tailBack := Repeat(2, h + 1) + Repeat(NIL, top - h);
      headNext[top] == NIL &&
      !LinkedAt([headNext, Repeat(NIL, top + 1), Repeat(TAIL, h + 1)],
                [Repeat(NIL, top + 1), tailBack, Repeat(HEAD, h + 1)], top, [2], [h])
  {
    var headNext := Repeat(2, h + 1) + Repeat(NIL, top - h);
    assert headNext[top] == NIL;
    NextPosIs([h], -1, top, 1);
    assert !FwdOk([headNext, Repeat(NIL, top + 1), Repeat(TAIL, h + 1)], top, [2], [h], -1);
  }

  /**
   * The link updates of handlePlacingNewNode on one level i, as written, in
   * either branch: behind is the item before the new one on level i (the
   * item the descent stopped at when its tower reaches i, otherwise the item
   * the scan from head stopped at).  infront takes behind's successor and
   * behind as its neighbours and behind points at infront, but the
   * successor's backward link is left as it was.
   */
  function PlaceLinksAsWritten(next: seq<seq<int>>, back: seq<seq<int>>, behind: int, infront: int, i: nat)
    : (r: (seq<seq<int>>, seq<seq<int>>))
    requires 0 <= behind < |next| && i < |next[behind]|
    requires 0 <= infront < |next| && i < |next[infront]| && 0 <= infront < |back| && i < |back[infront]|
    requires behind != infront
    ensures |r.0| == |next| && |r.1| == |back| && |r.1[infront]| == |back[infront]|
    ensures |r.0[behind]| == |next[behind]| && |r.0[infront]| == |next[infront]|
    ensures r.0[behind][i] == infront && r.0[infront][i] == next[behind][i] && r.1[infront][i] == behind
    ensures forall z :: 0 <= z < |back| && z != infront ==> r.1[z] == back[z]
  {
    (SetLink(SetLink(next, infront, i, next[behind][i]), behind, i, infront), SetLink(back, infront, i, behind))
  }

  /**
   * Adding 5 (height 0, slot 3) to the set {1} (slot 2) as written: level 0
   * now runs head, 1, 5, tail, but tail's backward link still names the
   * item holding 1, so the arena is not wired and last() would give 1.
   */
  lemma PlaceLeavesTailBackStale()
    ensures var r := PlaceLinksAsWritten([[2], [NIL], [TAIL], [NIL]], [[NIL], [2], [HEAD], [NIL]], 2, 3, 0);
      r.0[HEAD][0] == 2 && r.0[2][0] == 3 && r.0[3][0] == TAIL &&
      r.1[TAIL][0] == 2 && [0, 0, 1, 5][r.1[TAIL][0]] == 1 &&
      !LinkedAt(r.0, r.1, 0, [2, 3], [0, 0])
  {
    var r := PlaceLinksAsWritten([[2], [NIL], [TAIL], [NIL]], [[NIL], [2], [HEAD], [NIL]], 2, 3, 0);
    assert r.1[TAIL] == [2];
    PrevPosIs([0, 0], 2, 0, 1);
    assert !BwdOk(r.1, 0, [2, 3], [0, 0], 2);
  }

  /**
   * handleDeletingNode as written: on every level 0..foundLevel of the
   * found item, behind is linked forward to infront and infront back to
   * behind, where behind and infront are the found item's neighbours on the
   * level at which remove's descent met it.
   */
  method HandleDeletingNodeAsWritten(next: seq<seq<int>>, back: seq<seq<int>>, behind: int, foundLevel: nat, infront: int)
      returns (next': seq<seq<int>>, back': seq<seq<int>>)
    requires 0 <= behind < |next| && foundLevel < |next[behind]|
    requires 0 <= infront < |back| && foundLevel < |back[infront]|
    ensures |next'| == |next| && |back'| == |back|
    ensures |next'[behind]| == |next[behind]| && |back'[infront]| == |back[infront]|
    ensures forall i :: 0 <= i <= foundLevel ==> next'[behind][i] == infront && back'[infront][i] == behind
    ensures forall z :: 0 <= z < |next| && z != behind ==> next'[z] == next[z]
    ensures forall z :: 0 <= z < |back| && z != infront ==> back'[z] == back[z]
  {
    next', back' := next, back;
    var i: int := foundLevel;
    while i >= 0
      invariant -1 <= i <= foundLevel && |next'| == |next| && |back'| == |back|
      invariant |next'[behind]| == |next[behind]| && |back'[infront]| == |back[infront]|
      invariant forall j :: i < j <= foundLevel ==> next'[behind][j] == infront && back'[infront][j] == behind
      invariant forall z :: 0 <= z < |next| && z != behind ==> next'[z] == next[z]
      invariant forall z :: 0 <= z < |back| && z != infront ==> back'[z] == back[z]
    {
      next' := SetLink(next', behind, i, infront);
      back' := SetLink(back', infront, i, behind);
      i := i - 1;
    }
  }

  /**
   * remove(2) from the set {1, 2} where 1 (slot 2) has height 0 and 2
   * (slot 3) has height 1: the descent meets 2 on level 1 with head behind
   * it and tail after it, and the source links head to tail on levels 1
   * and 0, so 1 is no longer reachable on level 0.
   */
  method RemoveLosesSmallerItem() returns (next': seq<seq<int>>, back': seq<seq<int>>)
    ensures |next'| == |back'| == 4 && |next'[HEAD]| == |back'[TAIL]| == 2
    ensures next'[HEAD][0] == TAIL && back'[TAIL][0] == HEAD
    ensures !LinkedAt(next', back', 0, [2], [0])
  {
    var next := [[2, 3], [NIL, NIL], [3], [TAIL, TAIL]];
    var back := [[NIL, NIL], [3, 3], [HEAD], [2, HEAD]];
    // The descent on level 1: head's successor is slot 3, which holds 2.
    var behind := HEAD;
    var found := next[behind][1];
    var infront := next[found][1];
    next', back' := HandleDeletingNodeAsWritten(next, back, behind, 1, infront);
    NextPosIs([0], -1, 0, 0);
    assert !FwdOk(next', 0, [2], [0], -1);
  }

  /** The loop guard of retainAll as written: current != tail || current != null. */
  predicate RetainGuardAsWritten(current: int) {
    current != TAIL || current != NIL
  }

  /**
   * The guard holds for every current, tail included, so the walk of
   * retainAll goes past tail and reads its (null) value.
   */
  lemma RetainGuardNeverFails(current: int)
    ensures RetainGuardAsWritten(current)
  {
  }

  /**
   * subSet(from, to) as written: the walk starts at head, whose value is
   * null, so with sentinels the first comparison throws; without them the
   * walk does not start and the new set is empty.
   */
  method SubSetAsWritten(s: SkipList.SkipListSet, from: SkipList.Option<int>, to: SkipList.Option<int>)
      returns (r: SkipList.Result<SkipList.SkipListSet>)
    requires s.Valid()
    ensures from.None? || to.None? ==> r == SkipList.Failure(SkipList.NullPointer)
    ensures from.Some? && to.Some? && from.value > to.value ==> r == SkipList.Failure(SkipList.IllegalArgument)
    ensures from.Some? && to.Some? && from.value <= to.value ==>
      (s.hasHead <==> r == SkipList.Failure(SkipList.NullPointer)) &&
      (!s.hasHead ==> r.Success? && fresh(r.value) && r.value.Valid() && r.value.elems == [])
  {
    if from.None? || to.None? {
      return SkipList.Failure(SkipList.NullPointer);
    }
    if SkipList.GreaterThan(from.value, to.value) {
      return SkipList.Failure(SkipList.IllegalArgument);
    }
    var sub := new SkipList.SkipListSet();
    if s.hasHead {
      // current = head: comparing head's null value with from throws.
      return SkipList.Failure(SkipList.NullPointer);
    }
    return SkipList.Success(sub);
  }
}
