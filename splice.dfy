/**
 * How the updates of a skip list keep each level wired: growing the list by a
 * tower that does not reach a level, splicing an item into a level, and
 * unlinking an item from a level.
 */
module Splice {
  import opened Levels
  import opened Links

  lemma NodeIns(nodes: seq<int>, k: int, n: int, q: int)
    requires 0 <= k <= |nodes| && -1 <= q <= |nodes|
    ensures Node(Ins(nodes, k, n), Up(k, q)) == Node(nodes, q)
  {
  }

  lemma NodeInjective(nodes: seq<int>, p: int, q: int)
    requires Distinct(nodes) && -1 <= p <= |nodes| && -1 <= q <= |nodes|
    ensures Node(nodes, p) == Node(nodes, q) <==> p == q
  {
  }

  /** Level l depends on the level-l entries of the link table only. */
  lemma LinkedAtFrame(next: seq<seq<int>>, back: seq<seq<int>>, next': seq<seq<int>>, back': seq<seq<int>>,
                      l: nat, nodes: seq<int>, hs: seq<nat>)
    requires LinkedAt(next, back, l, nodes, hs)
    requires forall x :: 0 <= x < |next| && l < |next[x]| ==> x < |next'| && l < |next'[x]| && next'[x][l] == next[x][l]
    requires forall x :: 0 <= x < |back| && l < |back[x]| ==> x < |back'| && l < |back'[x]| && back'[x][l] == back[x][l]
    ensures LinkedAt(next', back', l, nodes, hs)
  {
    forall p | -1 <= p < |nodes| && (p >= 0 ==> hs[p] >= l) ensures FwdOk(next', l, nodes, hs, p) {
      assert FwdOk(next, l, nodes, hs, p);
    }
    forall q | 0 <= q <= |nodes| && (q < |nodes| ==> hs[q] >= l) ensures BwdOk(back', l, nodes, hs, q) {
      assert BwdOk(back, l, nodes, hs, q);
    }
  }

  /** Setting one forward and one backward link at level m leaves every other level as it was. */
  lemma LinkedAtSetOther(next: seq<seq<int>>, back: seq<seq<int>>, l: nat, nodes: seq<int>, hs: seq<nat>,
                         m: nat, x: int, y: int, x': int, y': int)
    requires LinkedAt(next, back, l, nodes, hs) && l != m
    requires 0 <= x < |next| && m < |next[x]| && 0 <= x' < |back| && m < |back[x']|
    ensures LinkedAt(SetLink(next, x, m, y), SetLink(back, x', m, y'), l, nodes, hs)
  {
    LinkedAtFrame(next, back, SetLink(next, x, m, y), SetLink(back, x', m, y'), l, nodes, hs);
  }

  /** A level above every tower is wired once head links forward to tail and tail back to head. */
  lemma EmptyLevelLinked(next: seq<seq<int>>, back: seq<seq<int>>, l: nat, nodes: seq<int>, hs: seq<nat>)
    requires |hs| == |nodes| && forall q :: 0 <= q < |hs| ==> hs[q] < l
    requires HEAD < |next| && l < |next[HEAD]| && next[HEAD][l] == TAIL
    requires TAIL < |back| && l < |back[TAIL]| && back[TAIL][l] == HEAD
    ensures LinkedAt(next, back, l, nodes, hs)
  {
    EmptyLevel(hs, l);
    assert FwdOk(next, l, nodes, hs, -1);
    assert BwdOk(back, l, nodes, hs, |nodes|);
  }

  /** Above the inserted tower's height h, the links of each position move with it. */
  lemma FwdInsAbove(next: seq<seq<int>>, l: nat, nodes: seq<int>, hs: seq<nat>, k: int, n: int, h: nat, p: int)
    requires |hs| == |nodes| && 0 <= k <= |nodes| && h < l && -1 <= p < |nodes|
    ensures FwdOk(next, l, nodes, hs, p) <==> FwdOk(next, l, Ins(nodes, k, n), Ins(hs, k, h), Up(k, p))
  {
    NextPosIns(hs, k, h, p, l);
    NodeIns(nodes, k, n, p);
    NodeIns(nodes, k, n, NextPos(hs, p, l));
  }

  lemma BwdInsAbove(back: seq<seq<int>>, l: nat, nodes: seq<int>, hs: seq<nat>, k: int, n: int, h: nat, q: int)
    requires |hs| == |nodes| && 0 <= k <= |nodes| && h < l && 0 <= q <= |nodes|
    ensures BwdOk(back, l, nodes, hs, q) <==> BwdOk(back, l, Ins(nodes, k, n), Ins(hs, k, h), Up(k, q))
  {
    PrevPosIns(hs, k, h, q, l);
    NodeIns(nodes, k, n, q);
    NodeIns(nodes, k, n, PrevPos(hs, q, l));
  }

  /** A level above the inserted tower's height is wired the same after the insertion ... */
  lemma {:induction false} LinkedAtInsAbove(next: seq<seq<int>>, back: seq<seq<int>>, l: nat,
                                            nodes: seq<int>, hs: seq<nat>, k: int, n: int, h: nat)
    requires LinkedAt(next, back, l, nodes, hs)
    requires 0 <= k <= |nodes| && h < l
    ensures LinkedAt(next, back, l, Ins(nodes, k, n), Ins(hs, k, h))
  {
    var nn, nh := Ins(nodes, k, n), Ins(hs, k, h);
    forall p' | -1 <= p' < |nn| && (p' >= 0 ==> nh[p'] >= l) ensures FwdOk(next, l, nn, nh, p') {
      assert p' != k;
      var p := if p' < k then p' else p' - 1;
      assert Up(k, p) == p' && (p >= 0 ==> hs[p] == nh[p']);
      FwdInsAbove(next, l, nodes, hs, k, n, h, p);
    }
    forall q' | 0 <= q' <= |nn| && (q' < |nn| ==> nh[q'] >= l) ensures BwdOk(back, l, nn, nh, q') {
      assert q' != k;
      var q := if q' < k then q' else q' - 1;
      assert Up(k, q) == q' && (q < |nodes| ==> hs[q] == nh[q']);
      BwdInsAbove(back, l, nodes, hs, k, n, h, q);
    }
  }

  /** ... and before it: removing a tower below level l leaves level l as it was. */
  lemma {:induction false} LinkedAtDelAbove(next: seq<seq<int>>, back: seq<seq<int>>, l: nat,
                                            nodes: seq<int>, hs: seq<nat>, k: int, n: int, h: nat)
    requires |hs| == |nodes| && 0 <= k <= |nodes| && h < l
    requires LinkedAt(next, back, l, Ins(nodes, k, n), Ins(hs, k, h))
    ensures LinkedAt(next, back, l, nodes, hs)
  {
    var nn, nh := Ins(nodes, k, n), Ins(hs, k, h);
    forall p | -1 <= p < |nodes| && (p >= 0 ==> hs[p] >= l) ensures FwdOk(next, l, nodes, hs, p) {
      if p >= 0 {
        InsUp(hs, k, h, p);
      }
      assert FwdOk(next, l, nn, nh, Up(k, p));
      FwdInsAbove(next, l, nodes, hs, k, n, h, p);
    }
    forall q | 0 <= q <= |nodes| && (q < |nodes| ==> hs[q] >= l) ensures BwdOk(back, l, nodes, hs, q) {
      if q < |nodes| {
        InsUp(hs, k, h, q);
      }
      assert BwdOk(back, l, nn, nh, Up(k, q));
      BwdInsAbove(back, l, nodes, hs, k, n, h, q);
    }
  }

  /** The first level-l position at or after k is the level-l successor of k's level-l predecessor. */
  lemma SuccOfPred(hs: seq<nat>, k: int, l: nat)
    requires 0 <= k <= |hs|
    ensures k <= NextPos(hs, k - 1, l)
    ensures NextPos(hs, PrevPos(hs, k, l), l) == NextPos(hs, k - 1, l)
    ensures PrevPos(hs, NextPos(hs, k - 1, l), l) == PrevPos(hs, k, l)
  {
    var pp, sp := PrevPos(hs, k, l), NextPos(hs, k - 1, l);
    NextPosIs(hs, pp, l, sp);
    PrevPosIs(hs, sp, l, pp);
  }

  /** The facts about a splice of slot n into level l at position k that every link relies on. */
  ghost predicate SpliceArgs(next: seq<seq<int>>, back: seq<seq<int>>, l: nat, nodes: seq<int>, hs: seq<nat>,
                             k: int, n: int, h: nat, pred: int, succ: int) {
    LinkedAt(next, back, l, nodes, hs) && Distinct(nodes) &&
    0 <= k <= |nodes| && l <= h &&
    n !in nodes && n != HEAD && n != TAIL &&
    0 <= n < |next| && l < |next[n]| && 0 <= n < |back| && l < |back[n]| &&
    pred == Node(nodes, PrevPos(hs, k, l)) && succ == Node(nodes, NextPos(hs, k - 1, l)) &&
    0 <= pred < |next| && l < |next[pred]| && 0 <= succ < |back| && l < |back[succ]|
  }

  /** After a splice, the new item's forward link is the old successor. */
  lemma FwdSpliceNew(next': seq<seq<int>>, l: nat, nodes: seq<int>, hs: seq<nat>, k: int, n: int, h: nat, succ: int)
    requires |hs| == |nodes| && 0 <= k <= |nodes|
    requires 0 <= n < |next'| && l < |next'[n]| && next'[n][l] == succ
    requires succ == Node(nodes, NextPos(hs, k - 1, l))
    ensures FwdOk(next', l, Ins(nodes, k, n), Ins(hs, k, h), k)
  {
    var sp := NextPos(hs, k - 1, l);
    NextPosInsAt(hs, k, h, l);
    NodeIns(nodes, k, n, sp);
    assert Up(k, sp) == sp + 1;
  }

  /** After a splice, the predecessor's forward link is the new item. */
  lemma FwdSplicePred(next: seq<seq<int>>, back: seq<seq<int>>, next': seq<seq<int>>, l: nat, nodes: seq<int>, hs: seq<nat>,
                      k: int, n: int, h: nat, pred: int, succ: int)
    requires SpliceArgs(next, back, l, nodes, hs, k, n, h, pred, succ)
    requires next' == SetLink(SetLink(next, pred, l, n), n, l, succ)
    ensures FwdOk(next', l, Ins(nodes, k, n), Ins(hs, k, h), PrevPos(hs, k, l))
  {
    var pp := PrevPos(hs, k, l);
    SuccOfPred(hs, k, l);
    NextPosIns(hs, k, h, pp, l);
    NodeIns(nodes, k, n, pp);
    assert Up(k, pp) == pp;
  }

  /** After a splice, every other forward link is the old one, renumbered. */
  lemma FwdSpliceOther(next: seq<seq<int>>, back: seq<seq<int>>, next': seq<seq<int>>, l: nat, nodes: seq<int>, hs: seq<nat>,
                       k: int, n: int, h: nat, pred: int, succ: int, p: int)
    requires SpliceArgs(next, back, l, nodes, hs, k, n, h, pred, succ)
    requires next' == SetLink(SetLink(next, pred, l, n), n, l, succ)
    requires -1 <= p < |nodes| && (p >= 0 ==> hs[p] >= l) && p != PrevPos(hs, k, l)
    ensures FwdOk(next', l, Ins(nodes, k, n), Ins(hs, k, h), Up(k, p))
  {
    var nn, nh := Ins(nodes, k, n), Ins(hs, k, h);
    var pp, r := PrevPos(hs, k, l), NextPos(hs, p, l);
    assert FwdOk(next, l, nodes, hs, p);
    var x := Node(nodes, p);
    NodeIns(nodes, k, n, p);
    NodeInjective(nodes, p, pp);
    assert x != pred && x != n;
    assert next'[x] == next[x];
    if p < k <= r {
      PrevPosIs(hs, k, l, p);
    }
    NextPosIns(hs, k, h, p, l);
    NodeIns(nodes, k, n, r);
  }

  /** After a splice, the new item's backward link is the predecessor. */
  lemma BwdSpliceNew(next: seq<seq<int>>, back: seq<seq<int>>, back': seq<seq<int>>, l: nat, nodes: seq<int>, hs: seq<nat>,
                     k: int, n: int, h: nat, pred: int, succ: int)
    requires SpliceArgs(next, back, l, nodes, hs, k, n, h, pred, succ)
    requires back' == SetLink(SetLink(back, n, l, pred), succ, l, n)
    ensures BwdOk(back', l, Ins(nodes, k, n), Ins(hs, k, h), k)
  {
    PrevPosInsAt(hs, k, h, l);
    NodeIns(nodes, k, n, PrevPos(hs, k, l));
    NodeIns(nodes, k, n, NextPos(hs, k - 1, l));
    SuccOfPred(hs, k, l);
    assert succ != n;
  }

  /** After a splice, the successor's backward link is the new item. */
  lemma BwdSpliceSucc(back': seq<seq<int>>, l: nat, nodes: seq<int>, hs: seq<nat>, k: int, n: int, h: nat,
                      succ: int, q': int)
    requires |hs| == |nodes| && 0 <= k <= |nodes| && l <= h
    requires succ == Node(nodes, NextPos(hs, k - 1, l))
    requires 0 <= succ < |back'| && l < |back'[succ]| && back'[succ][l] == n
    requires q' == NextPos(hs, k - 1, l) + 1
    ensures BwdOk(back', l, Ins(nodes, k, n), Ins(hs, k, h), q')
  {
    var sp := NextPos(hs, k - 1, l);
    SuccOfPred(hs, k, l);
    PrevPosIns(hs, k, h, sp, l);
    NodeIns(nodes, k, n, sp);
    assert Up(k, sp) == sp + 1;
  }

  /** After a splice, every other backward link is the old one, renumbered. */
  lemma BwdSpliceOther(next: seq<seq<int>>, back: seq<seq<int>>, back': seq<seq<int>>, l: nat, nodes: seq<int>, hs: seq<nat>,
                       k: int, n: int, h: nat, pred: int, succ: int, q: int)
    requires SpliceArgs(next, back, l, nodes, hs, k, n, h, pred, succ)
    requires back' == SetLink(SetLink(back, n, l, pred), succ, l, n)
    requires 0 <= q <= |nodes| && (q < |nodes| ==> hs[q] >= l) && q != NextPos(hs, k - 1, l)
    ensures BwdOk(back', l, Ins(nodes, k, n), Ins(hs, k, h), Up(k, q))
  {
    var nn, nh := Ins(nodes, k, n), Ins(hs, k, h);
    var sp, r := NextPos(hs, k - 1, l), PrevPos(hs, q, l);
    assert BwdOk(back, l, nodes, hs, q);
    var x := Node(nodes, q);
    NodeIns(nodes, k, n, q);
    NodeInjective(nodes, q, sp);
    assert x != succ && x != n;
    assert back'[x] == back[x];
    if r < k <= q {
      NextPosIs(hs, k - 1, l, q);
    }
    PrevPosIns(hs, k, h, q, l);
    NodeIns(nodes, k, n, r);
  }

  /**
   * Splicing slot n into level l at position k: the level-l predecessor now
   * points forward to n, n points to the old successor, and the backward links
   * of n and of that successor are set to match.  Afterwards level l is wired
   * correctly for the item list with n inserted.
   */
  lemma {:induction false} LinkedAtSplice(next: seq<seq<int>>, back: seq<seq<int>>, l: nat,
      nodes: seq<int>, hs: seq<nat>, k: int, n: int, h: nat, pred: int, succ: int,
      next': seq<seq<int>>, back': seq<seq<int>>)
    requires LinkedAt(next, back, l, nodes, hs) && Distinct(nodes)
    requires 0 <= k <= |nodes| && l <= h
    requires n !in nodes && n != HEAD && n != TAIL
    requires 0 <= n < |next| && l < |next[n]| && 0 <= n < |back| && l < |back[n]|
    requires pred == Node(nodes, PrevPos(hs, k, l))
    requires 0 <= pred < |next| && l < |next[pred]| && succ == next[pred][l]
    requires 0 <= succ < |back| && l < |back[succ]|
    requires next' == SetLink(SetLink(next, pred, l, n), n, l, succ)
    requires back' == SetLink(SetLink(back, n, l, pred), succ, l, n)
    ensures LinkedAt(next', back', l, Ins(nodes, k, n), Ins(hs, k, h))
  {
    var nn, nh := Ins(nodes, k, n), Ins(hs, k, h);
    var pp := PrevPos(hs, k, l);
    SuccOfPred(hs, k, l);
    assert FwdOk(next, l, nodes, hs, pp);
    assert SpliceArgs(next, back, l, nodes, hs, k, n, h, pred, succ);
    SpliceFwd(next, back, next', l, nodes, hs, k, n, h, pred, succ);
    SpliceBwd(next, back, back', l, nodes, hs, k, n, h, pred, succ);
  }

  /** The forward half of LinkedAtSplice. */
  lemma {:induction false} SpliceFwd(next: seq<seq<int>>, back: seq<seq<int>>, next': seq<seq<int>>, l: nat,
      nodes: seq<int>, hs: seq<nat>, k: int, n: int, h: nat, pred: int, succ: int)
    requires SpliceArgs(next, back, l, nodes, hs, k, n, h, pred, succ)
    requires next' == SetLink(SetLink(next, pred, l, n), n, l, succ)
    ensures var nn, nh := Ins(nodes, k, n), Ins(hs, k, h);
      forall p' :: -1 <= p' < |nn| && (p' >= 0 ==> nh[p'] >= l) ==> FwdOk(next', l, nn, nh, p')
  {
    var nn, nh := Ins(nodes, k, n), Ins(hs, k, h);
    var pp := PrevPos(hs, k, l);
    forall p' | -1 <= p' < |nn| && (p' >= 0 ==> nh[p'] >= l) ensures FwdOk(next', l, nn, nh, p') {
      if p' == k {
        FwdSpliceNew(next', l, nodes, hs, k, n, h, succ);
      } else if p' == pp {
        FwdSplicePred(next, back, next', l, nodes, hs, k, n, h, pred, succ);
      } else {
        var p := if p' < k then p' else p' - 1;
        assert Up(k, p) == p' && (p >= 0 ==> hs[p] == nh[p']);
        FwdSpliceOther(next, back, next', l, nodes, hs, k, n, h, pred, succ, p);
      }
    }
  }

  /** The backward half of LinkedAtSplice. */
  lemma {:induction false} SpliceBwd(next: seq<seq<int>>, back: seq<seq<int>>, back': seq<seq<int>>, l: nat,
      nodes: seq<int>, hs: seq<nat>, k: int, n: int, h: nat, pred: int, succ: int)
    requires SpliceArgs(next, back, l, nodes, hs, k, n, h, pred, succ)
    requires back' == SetLink(SetLink(back, n, l, pred), succ, l, n)
    ensures var nn, nh := Ins(nodes, k, n), Ins(hs, k, h);
      forall q' :: 0 <= q' <= |nn| && (q' < |nn| ==> nh[q'] >= l) ==> BwdOk(back', l, nn, nh, q')
  {
    var nn, nh := Ins(nodes, k, n), Ins(hs, k, h);
    var sp := NextPos(hs, k - 1, l);
    forall q' | 0 <= q' <= |nn| && (q' < |nn| ==> nh[q'] >= l) ensures BwdOk(back', l, nn, nh, q') {
      if q' == k {
        BwdSpliceNew(next, back, back', l, nodes, hs, k, n, h, pred, succ);
      } else if q' == sp + 1 {
        BwdSpliceSucc(back', l, nodes, hs, k, n, h, succ, q');
      } else {
        var q := if q' < k then q' else q' - 1;
        assert Up(k, q) == q' && (q < |nodes| ==> hs[q] == nh[q']);
        BwdSpliceOther(next, back, back', l, nodes, hs, k, n, h, pred, succ, q);
      }
    }
  }

  /** One forward link after unlinking slot n from position k, level l. */
  lemma FwdUnlinkAt(next: seq<seq<int>>, back: seq<seq<int>>, next': seq<seq<int>>, l: nat, nodes: seq<int>, hs: seq<nat>,
                    k: int, n: int, h: nat, pred: int, succ: int, p: int)
    requires |hs| == |nodes| && 0 <= k <= |nodes| && l <= h && Distinct(Ins(nodes, k, n))
    requires LinkedAt(next, back, l, Ins(nodes, k, n), Ins(hs, k, h))
    requires pred == Node(nodes, PrevPos(hs, k, l)) && succ == Node(nodes, NextPos(hs, k - 1, l))
    requires 0 <= pred < |next| && l < |next[pred]|
    requires next' == SetLink(next, pred, l, succ)
    requires -1 <= p < |nodes| && (p >= 0 ==> hs[p] >= l)
    ensures FwdOk(next', l, nodes, hs, p)
  {
    var nn, nh := Ins(nodes, k, n), Ins(hs, k, h);
    var pp := PrevPos(hs, k, l);
    SuccOfPred(hs, k, l);
    NodeIns(nodes, k, n, p);
    NodeIns(nodes, k, n, pp);
    if p != pp {
      assert p >= 0 ==> nh[Up(k, p)] == hs[p];
      assert FwdOk(next, l, nn, nh, Up(k, p));
      NodeInjective(nn, Up(k, p), Up(k, pp));
      if p < k <= NextPos(hs, p, l) {
        PrevPosIs(hs, k, l, p);
      }
      NextPosIns(hs, k, h, p, l);
      NodeIns(nodes, k, n, NextPos(hs, p, l));
    }
  }

  /** One backward link after unlinking slot n from position k, level l. */
  lemma BwdUnlinkAt(next: seq<seq<int>>, back: seq<seq<int>>, back': seq<seq<int>>, l: nat, nodes: seq<int>, hs: seq<nat>,
                    k: int, n: int, h: nat, pred: int, succ: int, q: int)
    requires |hs| == |nodes| && 0 <= k <= |nodes| && l <= h && Distinct(Ins(nodes, k, n))
    requires LinkedAt(next, back, l, Ins(nodes, k, n), Ins(hs, k, h))
    requires pred == Node(nodes, PrevPos(hs, k, l)) && succ == Node(nodes, NextPos(hs, k - 1, l))
    requires 0 <= succ < |back| && l < |back[succ]|
    requires back' == SetLink(back, succ, l, pred)
    requires 0 <= q <= |nodes| && (q < |nodes| ==> hs[q] >= l)
    ensures BwdOk(back', l, nodes, hs, q)
  {
    var nn, nh := Ins(nodes, k, n), Ins(hs, k, h);
    var sp := NextPos(hs, k - 1, l);
    SuccOfPred(hs, k, l);
    NodeIns(nodes, k, n, q);
    NodeIns(nodes, k, n, sp);
    if q != sp {
      assert q < |nodes| ==> nh[Up(k, q)] == hs[q];
      assert BwdOk(back, l, nn, nh, Up(k, q));
      NodeInjective(nn, Up(k, q), Up(k, sp));
      if PrevPos(hs, q, l) < k <= q {
        NextPosIs(hs, k - 1, l, q);
      }
      PrevPosIns(hs, k, h, q, l);
      NodeIns(nodes, k, n, PrevPos(hs, q, l));
    }
  }

  /** The forward link of the item being unlinked names its successor in the list without it. */
  lemma UnlinkedSucc(next: seq<seq<int>>, l: nat, nodes: seq<int>, hs: seq<nat>, k: int, n: int, h: nat)
    requires |hs| == |nodes| && 0 <= k <= |nodes| && l <= h
    requires FwdOk(next, l, Ins(nodes, k, n), Ins(hs, k, h), k)
    ensures next[n][l] == Node(nodes, NextPos(hs, k - 1, l))
  {
    NextPosInsAt(hs, k, h, l);
    SuccOfPred(hs, k, l);
    NodeIns(nodes, k, n, NextPos(hs, k - 1, l));
  }

  /** The forward half of LinkedAtUnlink. */
  lemma {:induction false} FwdUnlink(next: seq<seq<int>>, back: seq<seq<int>>, l: nat,
      nodes: seq<int>, hs: seq<nat>, k: int, n: int, h: nat, pred: int, succ: int, next': seq<seq<int>>)
    requires |hs| == |nodes| && 0 <= k <= |nodes| && l <= h && Distinct(Ins(nodes, k, n))
    requires LinkedAt(next, back, l, Ins(nodes, k, n), Ins(hs, k, h))
    requires pred == Node(nodes, PrevPos(hs, k, l)) && succ == Node(nodes, NextPos(hs, k - 1, l))
    requires 0 <= pred < |next| && l < |next[pred]|
    requires next' == SetLink(next, pred, l, succ)
    ensures forall p :: -1 <= p < |nodes| && (p >= 0 ==> hs[p] >= l) ==> FwdOk(next', l, nodes, hs, p)
  {
    forall p | -1 <= p < |nodes| && (p >= 0 ==> hs[p] >= l) ensures FwdOk(next', l, nodes, hs, p) {
      FwdUnlinkAt(next, back, next', l, nodes, hs, k, n, h, pred, succ, p);
    }
  }

  /** The backward half of LinkedAtUnlink. */
  lemma {:induction false} BwdUnlink(next: seq<seq<int>>, back: seq<seq<int>>, l: nat,
      nodes: seq<int>, hs: seq<nat>, k: int, n: int, h: nat, pred: int, succ: int, back': seq<seq<int>>)
    requires |hs| == |nodes| && 0 <= k <= |nodes| && l <= h && Distinct(Ins(nodes, k, n))
    requires LinkedAt(next, back, l, Ins(nodes, k, n), Ins(hs, k, h))
    requires pred == Node(nodes, PrevPos(hs, k, l)) && succ == Node(nodes, NextPos(hs, k - 1, l))
    requires 0 <= succ < |back| && l < |back[succ]|
    requires back' == SetLink(back, succ, l, pred)
    ensures forall q :: 0 <= q <= |nodes| && (q < |nodes| ==> hs[q] >= l) ==> BwdOk(back', l, nodes, hs, q)
  {
    forall q | 0 <= q <= |nodes| && (q < |nodes| ==> hs[q] >= l) ensures BwdOk(back', l, nodes, hs, q) {
      BwdUnlinkAt(next, back, back', l, nodes, hs, k, n, h, pred, succ, q);
    }
  }

  /**
   * Unlinking slot n, the item at position k, from level l: its level-l
   * predecessor and successor are linked to each other directly.  Afterwards
   * level l is wired correctly for the item list without n.
   */
  lemma {:induction false} LinkedAtUnlink(next: seq<seq<int>>, back: seq<seq<int>>, l: nat,
      nodes: seq<int>, hs: seq<nat>, k: int, n: int, h: nat, pred: int, succ: int,
      next': seq<seq<int>>, back': seq<seq<int>>)
    requires |hs| == |nodes| && 0 <= k <= |nodes| && l <= h && Distinct(Ins(nodes, k, n))
    requires LinkedAt(next, back, l, Ins(nodes, k, n), Ins(hs, k, h))
    requires pred == Node(nodes, PrevPos(hs, k, l))
    requires 0 <= n < |next| && l < |next[n]| && succ == next[n][l]
    requires 0 <= pred < |next| && l < |next[pred]| && 0 <= succ < |back| && l < |back[succ]|
    requires next' == SetLink(next, pred, l, succ) && back' == SetLink(back, succ, l, pred)
    ensures LinkedAt(next', back', l, nodes, hs)
  {
    var nn, nh := Ins(nodes, k, n), Ins(hs, k, h);
    assert nh[k] == h;
    assert FwdOk(next, l, nn, nh, k);
    UnlinkedSucc(next, l, nodes, hs, k, n, h);
    FwdUnlink(next, back, l, nodes, hs, k, n, h, pred, succ, next');
    BwdUnlink(next, back, l, nodes, hs, k, n, h, pred, succ, back');
  }
}
