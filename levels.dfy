/**
 * Positions in a skip list's level-0 order.
 *
 * The items of a skip list are numbered 0 .. n-1 in ascending order; the
 * `head` sentinel sits at position -1 and the `tail` sentinel at position n.
 * `hs[p]` is the tower height of the item at position p: the item takes part
 * in every level 0 .. hs[p].  The level-l chain therefore visits exactly the
 * positions whose height is at least l, and the forward and backward links at
 * level l are the functions NextPos and PrevPos below.
 */
module Levels {

  /** The next position after p that takes part in level l (n stands for `tail`). */
  function NextPos(hs: seq<nat>, p: int, l: nat): (r: int)
    requires -1 <= p < |hs|
    ensures p < r <= |hs|
    ensures r < |hs| ==> hs[r] >= l
    ensures forall q :: p < q < r ==> hs[q] < l
    decreases |hs| - p
  {
    if p + 1 == |hs| || hs[p + 1] >= l then p + 1 else NextPos(hs, p + 1, l)
  }

  /** The previous position before q that takes part in level l (-1 stands for `head`). */
  function PrevPos(hs: seq<nat>, q: int, l: nat): (r: int)
    requires 0 <= q <= |hs|
    ensures -1 <= r < q
    ensures r >= 0 ==> hs[r] >= l
    ensures forall p :: r < p < q ==> hs[p] < l
    decreases q
  {
    if q == 0 || hs[q - 1] >= l then q - 1 else PrevPos(hs, q - 1, l)
  }

  /** The contract of NextPos determines its value. */
  lemma NextPosIs(hs: seq<nat>, p: int, l: nat, r: int)
    requires -1 <= p < r <= |hs|
    requires r < |hs| ==> hs[r] >= l
    requires forall q :: p < q < r ==> hs[q] < l
    ensures NextPos(hs, p, l) == r
  {
  }

  /** The contract of PrevPos determines its value. */
  lemma PrevPosIs(hs: seq<nat>, q: int, l: nat, r: int)
    requires -1 <= r < q <= |hs|
    requires r >= 0 ==> hs[r] >= l
    requires forall p :: r < p < q ==> hs[p] < l
    ensures PrevPos(hs, q, l) == r
  {
  }

  /** At level l the backward link undoes the forward link, and the other way round. */
  lemma {:induction false} NextPrevInverse(hs: seq<nat>, p: int, l: nat)
    requires -1 <= p < |hs|
    requires p >= 0 ==> hs[p] >= l
    ensures PrevPos(hs, NextPos(hs, p, l), l) == p
  {
    PrevPosIs(hs, NextPos(hs, p, l), l, p);
  }

  /** A level above every tower is a direct link from `head` to `tail`. */
  lemma {:induction false} EmptyLevel(hs: seq<nat>, l: nat)
    requires forall q :: 0 <= q < |hs| ==> hs[q] < l
    ensures NextPos(hs, -1, l) == |hs|
    ensures PrevPos(hs, |hs|, l) == -1
  {
    NextPosIs(hs, -1, l, |hs|);
    PrevPosIs(hs, |hs|, l, -1);
  }

  /** Every level-l link is also a run of level-(l-1) links: level l is a sub-chain of level l-1. */
  lemma {:induction false} SubChain(hs: seq<nat>, p: int, l: nat)
    requires -1 <= p < |hs| && l > 0
    ensures NextPos(hs, p, l - 1) <= NextPos(hs, p, l)
  {
  }

  /** s with x inserted at position k. */
  function Ins<T>(s: seq<T>, k: int, x: T): (r: seq<T>)
    requires 0 <= k <= |s|
    ensures |r| == |s| + 1 && r[k] == x
    ensures forall q :: 0 <= q < k ==> r[q] == s[q]
    ensures forall q :: k < q < |r| ==> r[q] == s[q - 1]
  {
    s[..k] + [x] + s[k..]
  }

  /** s with position k removed. */
  function Del<T>(s: seq<T>, k: int): (r: seq<T>)
    requires 0 <= k < |s|
    ensures |r| == |s| - 1
    ensures forall q :: 0 <= q < k ==> r[q] == s[q]
    ensures forall q :: k <= q < |r| ==> r[q] == s[q + 1]
  {
    s[..k] + s[k + 1..]
  }

  /** Putting a removed element back where it was restores the sequence. */
  lemma InsDel<T>(s: seq<T>, k: int)
    requires 0 <= k < |s|
    ensures Ins(Del(s, k), k, s[k]) == s
  {
    assert Ins(Del(s, k), k, s[k]) == s[..k] + [s[k]] + s[k + 1..];
    assert s == s[..k] + [s[k]] + s[k + 1..];
  }

  /** Where the old position q sits once a position k has been inserted. */
  function Up(k: int, q: int): int {
    if q < k then q else q + 1
  }

  /** An old element sits at its renumbered position after an insertion. */
  lemma InsUp<T>(s: seq<T>, k: int, x: T, q: int)
    requires 0 <= k <= |s| && 0 <= q < |s|
    ensures Up(k, q) < |Ins(s, k, x)| && Ins(s, k, x)[Up(k, q)] == s[q]
  {
    if q >= k {
      assert Ins(s, k, x)[q + 1] == s[q];
    }
  }

  /**
   * Inserting a tower of height h at position k: the forward link of every
   * old position moves with it, except that a level-l predecessor of k now
   * points at k itself.
   */
  lemma {:induction false} NextPosIns(hs: seq<nat>, k: int, h: nat, p: int, l: nat)
    requires 0 <= k <= |hs| && -1 <= p < |hs|
    ensures NextPos(Ins(hs, k, h), Up(k, p), l) ==
      if p < k <= NextPos(hs, p, l) && h >= l then k else Up(k, NextPos(hs, p, l))
  {
    var nh := Ins(hs, k, h);
    var r := NextPos(hs, p, l);
    if p < k <= r && h >= l {
      NextPosIs(nh, p, l, k);
    } else {
      NextPosIs(nh, Up(k, p), l, Up(k, r));
    }
  }

  /** The forward link of the inserted position k is the old forward link from k-1. */
  lemma {:induction false} NextPosInsAt(hs: seq<nat>, k: int, h: nat, l: nat)
    requires 0 <= k <= |hs|
    ensures NextPos(Ins(hs, k, h), k, l) == NextPos(hs, k - 1, l) + 1
  {
    NextPosIs(Ins(hs, k, h), k, l, NextPos(hs, k - 1, l) + 1);
  }

  /** The backward counterpart of NextPosIns. */
  lemma {:induction false} PrevPosIns(hs: seq<nat>, k: int, h: nat, q: int, l: nat)
    requires 0 <= k <= |hs| && 0 <= q <= |hs|
    ensures PrevPos(Ins(hs, k, h), Up(k, q), l) ==
      if PrevPos(hs, q, l) < k <= q && h >= l then k else Up(k, PrevPos(hs, q, l))
  {
    var nh := Ins(hs, k, h);
    var r := PrevPos(hs, q, l);
    if r < k <= q && h >= l {
      PrevPosIs(nh, q + 1, l, k);
    } else {
      PrevPosIs(nh, Up(k, q), l, Up(k, r));
    }
  }

  /** The backward link of the inserted position k is the old backward link from k. */
  lemma {:induction false} PrevPosInsAt(hs: seq<nat>, k: int, h: nat, l: nat)
    requires 0 <= k <= |hs|
    ensures PrevPos(Ins(hs, k, h), k, l) == PrevPos(hs, k, l)
  {
    PrevPosIs(Ins(hs, k, h), k, l, PrevPos(hs, k, l));
  }

  /** A slice grown by one keeps its values and gains the next one. */
  lemma SliceStep<T>(s: seq<T>, a: int, b: int)
    requires 0 <= a <= b < |s|
    ensures s[a..b + 1] == s[a..b] + [s[b]]
  {
  }

  /** Removing position k from s leaves, from k on, the suffix after s[k]. */
  lemma DelSuffix<T>(s: seq<T>, k: int)
    requires 0 <= k < |s|
    ensures s[k..] == [s[k]] + Del(s, k)[k..]
  {
    assert Del(s, k)[k..] == s[k + 1..];
  }
}
