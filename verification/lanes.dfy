/**
 A lane is one level of the skip list read as the chain of keys reachable from
 the head sentinel at that level, in link order (the `next[i]` pointers of
 skiplist.go:19). A position `pos` in a lane names a splice point: the node
 `lane[pos-1]`, or the head sentinel when `pos == 0`.
 */
module Lanes {

  /** Every link at this level goes to a strictly larger key. */
  predicate Sorted(lane: seq<int>) {
    forall i, j :: 0 <= i < j < |lane| ==> lane[i] < lane[j]
  }

  /** `pos` is where `key` belongs in `lane`: every key before it is smaller and
      none from it on is. The node before `pos` is the predecessor that a
      traversal for `key` stops at on this level. */
  predicate SplitsAt(lane: seq<int>, key: int, pos: int) {
    && 0 <= pos <= |lane|
    && (forall j :: 0 <= j < pos ==> lane[j] < key)
    && (forall j :: pos <= j < |lane| ==> key <= lane[j])
  }

  /** The node that follows the splice point holds `key` exactly when `key`
      is on the lane. */
  lemma FoundAtSplit(lane: seq<int>, key: int, pos: int)
    requires Sorted(lane)
    requires SplitsAt(lane, key, pos)
    ensures key in lane <==> pos < |lane| && lane[pos] == key
  {
    if key in lane {
      var j :| 0 <= j < |lane| && lane[j] == key;
      assert pos <= j;
    }
  }

  /** A non-empty lane has a first node. A proof aid: calling it puts the term
      `lane[0] in lane` before the solver without indexing the lane in a branch
      that the caller's facts rule out. */
  lemma HasFirst(lane: seq<int>)
    ensures lane != [] ==> lane[0] in lane
  {
  }

  /** The inner loop of every traversal: move right from position `from` while
      the next key is smaller than `key`. */
  function Advance(lane: seq<int>, from: nat, key: int): (pos: nat)
    requires Sorted(lane)
    requires from <= |lane|
    requires forall j :: 0 <= j < from ==> lane[j] < key
    ensures from <= pos
    ensures SplitsAt(lane, key, pos)
    decreases |lane| - from
  {
    if from < |lane| && lane[from] < key then Advance(lane, from + 1, key) else from
  }

  /** Where the node holding `k` sits on the lane. In the linked structure this
      is free (the traversal already holds the node); here it is a search. */
  function IndexOf(lane: seq<int>, k: int): (i: nat)
    requires k in lane
    ensures i < |lane| && lane[i] == k
  {
    if lane[0] == k then 0 else 1 + IndexOf(lane[1..], k)
  }

  /** Link a node holding `key` in after the splice point `pos`. */
  function Splice(lane: seq<int>, pos: nat, key: int): (r: seq<int>)
    requires Sorted(lane)
    requires SplitsAt(lane, key, pos)
    requires key !in lane
    ensures Sorted(r)
    ensures forall k :: k in r <==> k == key || k in lane
  {
    var r := lane[..pos] + [key] + lane[pos..];
    SpliceIsSorted(lane, pos, key, r);
    assert lane == lane[..pos] + lane[pos..];
    r
  }

  lemma SpliceIsSorted(lane: seq<int>, pos: nat, key: int, r: seq<int>)
    requires Sorted(lane)
    requires SplitsAt(lane, key, pos)
    requires key !in lane
    requires r == lane[..pos] + [key] + lane[pos..]
    ensures Sorted(r)
  {
    assert |r| == |lane| + 1;
    assert forall j :: 0 <= j < pos ==> r[j] == lane[j];
    assert r[pos] == key;
    assert forall j :: pos < j < |r| ==> r[j] == lane[j - 1];
    forall i, j | 0 <= i < j < |r|
      ensures r[i] < r[j]
    {
      if j < pos {
        assert r[i] == lane[i] && r[j] == lane[j];
      } else if j == pos {
        assert r[i] == lane[i];
      } else if i < pos {
        assert r[i] == lane[i] && r[j] == lane[j - 1];
      } else if i == pos {
        assert r[j] == lane[j - 1] && key != lane[j - 1];
      } else {
        assert r[i] == lane[i - 1] && r[j] == lane[j - 1];
      }
    }
  }

  /** Unlink the node that follows the splice point `pos`. */
  function Unsplice(lane: seq<int>, pos: nat): (r: seq<int>)
    requires Sorted(lane)
    requires pos < |lane|
    ensures Sorted(r)
    ensures forall k :: k in r <==> k in lane && k != lane[pos]
  {
    var r := lane[..pos] + lane[pos + 1..];
    assert forall j :: 0 <= j < |r| ==> r[j] == if j < pos then lane[j] else lane[j + 1];
    assert lane == lane[..pos] + [lane[pos]] + lane[pos + 1..];
    r
  }

  /** A sorted lane is determined by the keys on it. */
  lemma {:induction false} SortedByContents(a: seq<int>, b: seq<int>)
    requires Sorted(a) && Sorted(b)
    requires forall k :: k in a <==> k in b
    ensures a == b
    decreases |a|
  {
    assert a != [] ==> a[0] in a;
    assert b != [] ==> b[0] in b;
    if a != [] {
      assert a[0] == b[0] by {
        var i :| 0 <= i < |b| && b[i] == a[0];
        var j :| 0 <= j < |a| && a[j] == b[0];
        assert b[0] <= b[i];
        assert a[0] <= a[j];
      }
      forall k
        ensures k in a[1..] <==> k in b[1..]
      {
        TailContents(a, k);
        TailContents(b, k);
      }
      SortedByContents(a[1..], b[1..]);
      assert a == [a[0]] + a[1..];
      assert b == [b[0]] + b[1..];
    }
  }

  /** The tail of a non-empty sorted lane holds exactly its keys other than the first. */
  lemma TailContents(a: seq<int>, k: int)
    requires Sorted(a) && a != []
    ensures k in a[1..] <==> k in a && k != a[0]
  {
    assert a == [a[0]] + a[1..];
    if k in a[1..] {
      var i :| 0 <= i < |a[1..]| && a[1..][i] == k;
      assert a[0] < a[i + 1];
    }
  }
}
