/**
 * The abstract value of a skip-list set: its items as a strictly increasing
 * sequence of values, with insertion and deletion at a value's rank.
 */
module Sorted {
  import opened Levels

  ghost predicate Increasing(s: seq<int>) {
    forall i, j :: 0 <= i < j < |s| ==> s[i] < s[j]
  }

  /** The number of values in s that are less than v: the position v has, or would have, in s. */
  function CountLess(s: seq<int>, v: int): (k: nat)
    ensures k <= |s|
  {
    if s == [] then 0 else (if s[0] < v then 1 else 0) + CountLess(s[1..], v)
  }

  /** The values of s that also belong to c, in their order in s. */
  function Keep(s: seq<int>, c: seq<int>): (r: seq<int>)
    ensures |r| <= |s|
  {
    if s == [] then [] else Keep(s[..|s| - 1], c) + (if s[|s| - 1] in c then [s[|s| - 1]] else [])
  }

  /** A split of s into the values below v and the values from v on fixes CountLess. */
  lemma {:induction false} CountLessIs(s: seq<int>, v: int, k: int)
    requires 0 <= k <= |s|
    requires forall j :: 0 <= j < k ==> s[j] < v
    requires forall j :: k <= j < |s| ==> s[j] >= v
    ensures CountLess(s, v) == k
  {
    if s != [] {
      CountLessIs(s[1..], v, if k == 0 then 0 else k - 1);
    }
  }

  /** In an increasing sequence, exactly the first CountLess(s, v) values are below v. */
  lemma {:induction false} CountLessSplit(s: seq<int>, v: int)
    requires Increasing(s)
    ensures forall j :: 0 <= j < |s| ==> (s[j] < v <==> j < CountLess(s, v))
  {
    if s != [] {
      CountLessSplit(s[1..], v);
      if s[0] >= v {
        assert forall j :: 0 <= j < |s| - 1 ==> s[1..][j] > s[0];
        CountLessIs(s[1..], v, 0);
      }
    }
  }

  /** In an increasing sequence, the rank of the value at position i is i. */
  lemma {:induction false} CountLessAt(s: seq<int>, i: int)
    requires Increasing(s) && 0 <= i < |s|
    ensures CountLess(s, s[i]) == i
  {
    CountLessIs(s, s[i], i);
  }

  /** Inserting a new value at its rank keeps the sequence increasing and adds exactly that value. */
  lemma {:induction false} InsertAtRank(s: seq<int>, v: int)
    requires Increasing(s) && v !in s
    ensures Increasing(Ins(s, CountLess(s, v), v))
    ensures forall x :: x in Ins(s, CountLess(s, v), v) <==> x in s || x == v
  {
    var k := CountLess(s, v);
    var t := Ins(s, k, v);
    CountLessSplit(s, v);
    forall i, j | 0 <= i < j < |t| ensures t[i] < t[j] {
      if j < k {
      } else if j == k {
        assert s[i] < v;
      } else if i < k {
        assert t[j] == s[j - 1];
      } else if i == k {
        assert s[j - 1] != v;
      } else {
        assert t[j] == s[j - 1] && t[i] == s[i - 1];
      }
    }
    assert s == s[..k] + s[k..];
    assert t == s[..k] + [v] + s[k..];
  }

  /** Deleting the value at its rank keeps the sequence increasing and removes exactly that value. */
  lemma {:induction false} DeleteAtRank(s: seq<int>, v: int)
    requires Increasing(s) && v in s
    ensures CountLess(s, v) < |s| && s[CountLess(s, v)] == v
    ensures Increasing(Del(s, CountLess(s, v)))
    ensures forall x :: x in Del(s, CountLess(s, v)) <==> x in s && x != v
  {
    var i :| 0 <= i < |s| && s[i] == v;
    CountLessAt(s, i);
    var r := Del(s, i);
    assert s == s[..i] + [v] + s[i + 1..];
    assert r == s[..i] + s[i + 1..];
  }

  /** Removing a value just inserted gives back the original sequence. */
  lemma {:induction false} InsertThenDelete(s: seq<int>, v: int)
    requires Increasing(s) && v !in s
    ensures var t := Ins(s, CountLess(s, v), v);
      v in t && CountLess(t, v) == CountLess(s, v) && Del(t, CountLess(s, v)) == s
  {
    var k := CountLess(s, v);
    var t := Ins(s, k, v);
    InsertAtRank(s, v);
    CountLessAt(t, k);
    assert Del(t, k) == s;
  }

  /** Keep leaves exactly the values of s that are in c. */
  lemma {:induction false} KeepContents(s: seq<int>, c: seq<int>)
    ensures forall x :: x in Keep(s, c) <==> x in s && x in c
  {
    if s != [] {
      var init := s[..|s| - 1];
      KeepContents(init, c);
      assert s == init + [s[|s| - 1]];
    }
  }

  /** The first value of an increasing sequence is its least. */
  lemma Least(s: seq<int>)
    requires Increasing(s) && s != []
    ensures forall x :: x in s ==> s[0] <= x
  {
    forall x | x in s ensures s[0] <= x {
      var j :| 0 <= j < |s| && s[j] == x;
      assert j == 0 || s[0] < s[j];
    }
  }

  /** The last value of an increasing sequence is its greatest. */
  lemma Greatest(s: seq<int>)
    requires Increasing(s) && s != []
    ensures forall x :: x in s ==> x <= s[|s| - 1]
  {
    forall x | x in s ensures x <= s[|s| - 1] {
      var j :| 0 <= j < |s| && s[j] == x;
      assert j == |s| - 1 || s[j] < s[|s| - 1];
    }
  }

  /**
   * A walk that keeps only the values of E that are in c has filtered the
   * first j values of E: the sequence now holds the kept ones, p values,
   * followed by the unvisited rest of E.
   */
  ghost predicate Retaining(cur: seq<int>, E: seq<int>, c: seq<int>, j: int, p: int) {
    0 <= j <= |E| && cur == Keep(E[..j], c) + E[j..] && p == |Keep(E[..j], c)|
  }

  /** A walk that keeps the values of E in c starts with nothing filtered. */
  lemma RetainStart(E: seq<int>, c: seq<int>)
    ensures Retaining(E, E, c, 0, 0)
  {
    assert E[..0] == [] && E[0..] == E;
  }

  /** At the end of the walk, the sequence holds exactly the kept values. */
  lemma RetainEnd(cur: seq<int>, E: seq<int>, c: seq<int>, j: int, p: int)
    requires Retaining(cur, E, c, j, p) && |cur| == p
    ensures cur == Keep(E, c) && (p < j <==> |cur| < |E|)
  {
    assert E[..j] == E;
  }

  /**
   * One step of a walk that keeps the values of E in c: with the first j
   * values filtered, the value met next is E[j]; keeping it leaves the
   * sequence as it is, dropping it deletes it at its position.
   */
  lemma {:induction false} RetainStep(E: seq<int>, c: seq<int>, j: int)
    requires 0 <= j < |E|
    ensures var K := Keep(E[..j], c);
      (K + E[j..])[|K|] == E[j] &&
      (E[j] in c ==> Keep(E[..j + 1], c) == K + [E[j]] && Keep(E[..j + 1], c) + E[j + 1..] == K + E[j..]) &&
      (E[j] !in c ==> Keep(E[..j + 1], c) == K && Keep(E[..j + 1], c) + E[j + 1..] == Del(K + E[j..], |K|))
  {
    var K := Keep(E[..j], c);
    assert E[..j + 1][..j] == E[..j];
    assert E[j..] == [E[j]] + E[j + 1..];
  }

  /** Keep drops something exactly when some value of s is not in c. */
  lemma {:induction false} KeepShorter(s: seq<int>, c: seq<int>)
    ensures |Keep(s, c)| < |s| <==> exists x :: x in s && x !in c
  {
    if s != [] {
      var init := s[..|s| - 1];
      KeepShorter(init, c);
      var last := s[|s| - 1];
      assert s == init + [last];
      if last !in c {
        assert last in s;
      } else {
        forall x | x in s && x !in c ensures x in init {
          var i :| 0 <= i < |s| && s[i] == x;
          assert i < |s| - 1 && init[i] == x;
        }
        forall x | x in init ensures x in s {
          var i :| 0 <= i < |init| && init[i] == x;
          assert s[i] == x;
        }
      }
    }
  }

  /**
   * In an increasing sequence, the values in [lo, hi) form the slice from
   * the first value at or above lo to the first value at or above hi.
   */
  lemma RangeSlice(s: seq<int>, lo: int, hi: int, a: int, b: int)
    requires Increasing(s) && 0 <= a <= b <= |s|
    requires forall i :: 0 <= i < a ==> s[i] < lo
    requires a < |s| ==> s[a] >= lo
    requires a < b ==> s[b - 1] < hi
    requires b < |s| ==> s[b] >= hi
    ensures forall x :: x in s[a..b] <==> x in s && lo <= x < hi
  {
    forall k | a <= k < b ensures s[k] < hi {
      if k < b - 1 {
        assert s[k] < s[b - 1];
      }
    }
    forall k | b <= k < |s| ensures s[k] >= hi {
      if k > b {
        assert s[b] < s[k];
      }
    }
    forall x | x in s && lo <= x < hi ensures x in s[a..b] {
      var i :| 0 <= i < |s| && s[i] == x;
      assert a <= i < b;
      assert s[a..b][i - a] == x;
    }
    forall x | x in s[a..b] ensures x in s && lo <= x < hi {
      var i :| 0 <= i < b - a && s[a..b][i] == x;
      assert s[a + i] == x;
      assert i == 0 || s[a] < s[a + i];
    }
  }
}
