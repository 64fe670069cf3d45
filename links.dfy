/**
 * The link table of a skip list and what it means for one level to be wired
 * correctly.
 *
 * Items live in an arena addressed by index; slot HEAD and slot TAIL hold the
 * two valueless sentinels.  `next[x][l]` and `back[x][l]` are item x's forward
 * and backward neighbours at level l (NIL for a link that is not set).
 * `nodes` lists the arena slots of the items in ascending order and `hs` their
 * tower heights, so Node(nodes, p) is the slot at position p (-1 for head,
 * |nodes| for tail).
 */
module Links {
  import opened Levels

  const HEAD := 0
  const TAIL := 1
  const NIL := -1

  function Node(nodes: seq<int>, p: int): int
    requires -1 <= p <= |nodes|
  {
    if p == -1 then HEAD else if p == |nodes| then TAIL else nodes[p]
  }

  /** Once the item at position p is deleted, its successor stands at position p. */
  lemma NodeDel(nodes: seq<int>, p: int)
    requires 0 <= p < |nodes|
    ensures Node(Del(nodes, p), p) == Node(nodes, p + 1)
  {
  }

  /** True iff every item slot is a real arena slot, distinct from the sentinels and from each other. */
  ghost predicate Distinct(nodes: seq<int>) {
    (forall j :: 0 <= j < |nodes| ==> nodes[j] != HEAD && nodes[j] != TAIL) &&
    (forall i, j :: 0 <= i < j < |nodes| ==> nodes[i] != nodes[j])
  }

  /** Replace link l of slot x by y. */
  function SetLink(links: seq<seq<int>>, x: int, l: nat, y: int): (r: seq<seq<int>>)
    requires 0 <= x < |links| && l < |links[x]|
    ensures |r| == |links|
    ensures forall z :: 0 <= z < |r| ==> |r[z]| == |links[z]|
    ensures r[x][l] == y
    ensures forall z :: 0 <= z < |r| && z != x ==> r[z] == links[z]
    ensures forall z, m :: 0 <= z < |r| && 0 <= m < |r[z]| && (z != x || m != l) ==> r[z][m] == links[z][m]
  {
    links[x := links[x][l := y]]
  }

  /** n copies of y. */
  function Repeat(y: int, n: nat): (r: seq<int>)
    ensures |r| == n && forall j :: 0 <= j < n ==> r[j] == y
  {
    if n == 0 then [] else Repeat(y, n - 1) + [y]
  }

  /** Row x of the link table grown by d links, all set to y. */
  function Extend(links: seq<seq<int>>, x: int, y: int, d: nat): (r: seq<seq<int>>)
    requires 0 <= x < |links|
    ensures |r| == |links| && r[x] == links[x] + Repeat(y, d)
    ensures forall z :: 0 <= z < |r| && z != x ==> r[z] == links[z]
  {
    links[x := links[x] + Repeat(y, d)]
  }

  /** The forward link at level l of the item (or head) at position p is its level-l successor. */
  ghost predicate FwdOk(next: seq<seq<int>>, l: nat, nodes: seq<int>, hs: seq<nat>, p: int)
    requires |hs| == |nodes| && -1 <= p < |nodes|
  {
    var x := Node(nodes, p);
    0 <= x < |next| && l < |next[x]| && next[x][l] == Node(nodes, NextPos(hs, p, l))
  }

  /** The backward link at level l of the item (or tail) at position q is its level-l predecessor. */
  ghost predicate BwdOk(back: seq<seq<int>>, l: nat, nodes: seq<int>, hs: seq<nat>, q: int)
    requires |hs| == |nodes| && 0 <= q <= |nodes|
  {
    var x := Node(nodes, q);
    0 <= x < |back| && l < |back[x]| && back[x][l] == Node(nodes, PrevPos(hs, q, l))
  }

  /**
   * Level l is wired correctly: walking forward from head visits, in order,
   * exactly the items whose tower reaches level l and then tail, and the
   * backward links are the exact inverses of the forward ones.
   */
  ghost predicate LinkedAt(next: seq<seq<int>>, back: seq<seq<int>>, l: nat, nodes: seq<int>, hs: seq<nat>) {
    |hs| == |nodes| &&
    (forall p :: -1 <= p < |nodes| && (p >= 0 ==> hs[p] >= l) ==> FwdOk(next, l, nodes, hs, p)) &&
    (forall q :: 0 <= q <= |nodes| && (q < |nodes| ==> hs[q] >= l) ==> BwdOk(back, l, nodes, hs, q))
  }
}
