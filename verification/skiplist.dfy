/**
 The skip list of skiplist.go: an integer-keyed, integer-valued sorted index
 after Pugh's algorithm, with 0-indexed levels.

 The head sentinel's forward array (`maxLevel + 1` slots) is modelled by
 `lanes`: `lanes[i]` is the chain of keys reached by following `next[i]` from
 the head. Keys are unique, so a key also names its node; `nodes` holds each
 node's value and height (the node takes part in levels `0..height`, so its
 forward array has `height + 1` slots). Operations are pure functions that
 return the new list.

 The traversal of Search, Insert and Delete follows the draft's descent with
 its intended corrections: the draft leaves `head` nil after `New`
 (skiplist.go:42), never fills the `update` slice and sizes it `maxLevel`
 (skiplist.go:64, 96, 124-125), dereferences a missing successor in the
 inner loops, reads `next[-1]` after the outer loop (skiplist.go:54, 72, 104),
 never allocates the new node's forward array and splices only levels
 `1..level-1` (skiplist.go:83-86), sets the head as predecessor only for levels
 strictly below the new height (skiplist.go:78), and unsplices only levels
 `0..level-1` on delete (skiplist.go:108).
 */
module SkipList {
  import opened Lanes
  import opened LevelGenerator

  /** The one error of the API: the key is not in the list. */
  datatype Error = KeyNotFound

  datatype Result<T> = Ok(value: T) | Err(error: Error)

  datatype Outcome = Pass | Fail(error: Error)

  /** A node as its key's entry: the payload and the highest level it is linked on. */
  datatype Node = Node(value: int, height: nat)

  datatype Skiplist = Skiplist(
    maxLevel: nat,
    level: nat,
    p: real,
    lanes: seq<seq<int>>,
    nodes: map<int, Node>)

  /** The structural invariant of the list. */
  ghost predicate Valid(s: Skiplist) {
    // the head has maxLevel + 1 forward slots and the active level is capped
    && |s.lanes| == s.maxLevel + 1
    && s.level <= s.maxLevel
    && s.p > 0.0
    // every level is strictly increasing
    && (forall i :: 0 <= i < |s.lanes| ==> Sorted(s.lanes[i]))
    // a key is linked on level i exactly when its node reaches level i
    && (forall i, k :: 0 <= i < |s.lanes| && k in s.lanes[i] ==> k in s.nodes && i <= s.nodes[k].height)
    && (forall k, i :: k in s.nodes && 0 <= i <= s.nodes[k].height ==> i < |s.lanes| && k in s.lanes[i])
    // the active level is the top non-empty one
    && (forall k :: k in s.nodes ==> s.nodes[k].height <= s.level)
    && (forall i :: s.level < i < |s.lanes| ==> s.lanes[i] == [])
    && (s.level > 0 ==> s.lanes[s.level] != [])
  }

  function Max(a: nat, b: nat): nat {
    if a < b then b else a
  }

  /** The empty list (skiplist.go:32-43): a negative `maxLevel` becomes 0 and a
      non-positive `p` becomes one half. */
  function New(maxLevel: int, p: real): (s: Skiplist)
    ensures Valid(s)
    ensures s.nodes == map[] && s.level == 0
    ensures maxLevel >= 0 ==> s.maxLevel == maxLevel
    ensures maxLevel < 0 ==> s.maxLevel == 0
    ensures p > 0.0 ==> s.p == p
    ensures p <= 0.0 ==> s.p == 0.5
  {
    var m: nat := if maxLevel < 0 then 0 else maxLevel;
    Skiplist(m, 0, if p <= 0.0 then 0.5 else p, seq(m + 1, _ => []), map[])
  }

  /** Levels `0..top` nest: a key linked on a level is linked on every level below it. */
  ghost predicate Nested(lanes: seq<seq<int>>, top: nat) {
    forall l, l', k :: 0 <= l' <= l <= top && l < |lanes| && k in lanes[l] ==> k in lanes[l']
  }

  lemma ValidIsNested(s: Skiplist)
    requires Valid(s)
    ensures Nested(s.lanes, s.maxLevel)
  {
    forall l, l', k | 0 <= l' <= l <= s.maxLevel && l < |s.lanes| && k in s.lanes[l]
      ensures k in s.lanes[l']
    {
      assert k in s.nodes && l' <= s.nodes[k].height;
    }
  }

  /** The node a traversal has reached: the head sentinel or the node holding `key`. */
  datatype Cursor = Head | At(key: int)

  /** Where the walk along a level resumes when it comes down from the level above. */
  function Resume(lane: seq<int>, cur: Cursor): (j: nat)
    requires cur.At? ==> cur.key in lane
    ensures j <= |lane|
    ensures cur.At? ==> 0 < j && lane[j - 1] == cur.key
    ensures cur.Head? ==> j == 0
  {
    match cur
    case Head => 0
    case At(k) => IndexOf(lane, k) + 1
  }

  /** The descent from level `i` down to level 0, resuming on each level at the
      node reached on the level above. The result holds the splice point
      recorded on every level, indexed by level. */
  function Descend(lanes: seq<seq<int>>, i: nat, cur: Cursor, key: int): (update: seq<nat>)
    requires i < |lanes|
    requires forall l :: 0 <= l <= i ==> Sorted(lanes[l])
    requires Nested(lanes, i)
    requires cur.At? ==> cur.key in lanes[i] && cur.key < key
    ensures |update| == i + 1
    ensures forall l :: 0 <= l <= i ==> SplitsAt(lanes[l], key, update[l])
    decreases i
  {
    var lane := lanes[i];
    var from := Resume(lane, cur);
    assert Sorted(lane);
    assert forall j :: 0 <= j < from ==> lane[j] < key by {
      if cur.At? {
        forall j | 0 <= j < from
          ensures lane[j] < key
        {
          assert lane[j] <= lane[from - 1];
        }
      }
    }
    var pos := Advance(lane, from, key);
    if i == 0 then
      [pos]
    else
      var next := if pos == 0 then Head else At(lane[pos - 1]);
      Descend(lanes, i - 1, next, key) + [pos]
  }

  /** The traversal shared by Search, Insert and Delete: the splice point for
      `key` on every slot of the head, the head itself above the active level. */
  function Traverse(s: Skiplist, key: int): (update: seq<nat>)
    requires Valid(s)
    ensures |update| == |s.lanes|
    ensures forall l :: 0 <= l < |s.lanes| ==> SplitsAt(s.lanes[l], key, update[l])
  {
    ValidIsNested(s);
    Descend(s.lanes, s.level, Head, key) + seq(s.maxLevel - s.level, _ => 0)
  }

  /** Whether the node after the level-0 splice point holds `key`
      (skiplist.go:55, 73, 106). */
  function Holds(s: Skiplist, update: seq<nat>, key: int): (b: bool)
    requires Valid(s)
    requires |update| == |s.lanes|
    requires SplitsAt(s.lanes[0], key, update[0])
    ensures b <==> key in s.nodes
  {
    FoundAtSplit(s.lanes[0], key, update[0]);
    update[0] < |s.lanes[0]| && s.lanes[0][update[0]] == key
  }

  /** Look a key up (skiplist.go:46-59). */
  function Search(s: Skiplist, key: int): (r: Result<int>)
    requires Valid(s)
    ensures r.Ok? <==> key in s.nodes
    ensures r.Ok? ==> r.value == s.nodes[key].value
    ensures r.Err? ==> r.error == KeyNotFound
  {
    var update := Traverse(s, key);
    if Holds(s, update, key) then Ok(s.nodes[key].value) else Err(KeyNotFound)
  }

  /** Insert or overwrite a key (skiplist.go:62-91). A present key only has its
      value replaced; an absent key gets a node whose height is drawn from
      `draws`, linked in on every level up to that height, and the active level
      rises to the new height if it is above it. The draft's Insert never
      returns an error, so the model returns only the new list. */
  function Insert(s: Skiplist, key: int, value: int, draws: nat -> real): (r: Skiplist)
    requires Valid(s)
    ensures Valid(r)
    ensures r.maxLevel == s.maxLevel && r.p == s.p
    ensures key in s.nodes ==>
      && r.nodes == s.nodes[key := Node(value, s.nodes[key].height)]
      && r.lanes == s.lanes && r.level == s.level
    ensures key !in s.nodes ==>
      var h := RandomLevel(s.maxLevel, s.p, draws);
      && r.nodes == s.nodes[key := Node(value, h)]
      && r.level == Max(s.level, h)
      && forall i, k :: 0 <= i < |s.lanes| ==> (k in r.lanes[i] <==> k in s.lanes[i] || (k == key && i <= h))
  {
    var update := Traverse(s, key);
    if Holds(s, update, key) then
      s.(nodes := s.nodes[key := s.nodes[key].(value := value)])
    else
      var h := RandomLevel(s.maxLevel, s.p, draws);
      var lanes := seq(|s.lanes|, i requires 0 <= i < |s.lanes| =>
        if i <= h then Splice(s.lanes[i], update[i], key) else s.lanes[i]);
      var r := Skiplist(s.maxLevel, Max(s.level, h), s.p, lanes, s.nodes[key := Node(value, h)]);
      InsertNewIsValid(s, key, h, r);
      r
  }

  lemma InsertNewIsValid(s: Skiplist, key: int, h: nat, r: Skiplist)
    requires Valid(s)
    requires key !in s.nodes
    requires h <= s.maxLevel
    requires r.maxLevel == s.maxLevel && r.p == s.p && r.level == Max(s.level, h)
    requires key in r.nodes && r.nodes[key].height == h
    requires forall k :: k != key ==> (k in r.nodes <==> k in s.nodes)
    requires forall k :: k in s.nodes ==> r.nodes[k] == s.nodes[k]
    requires |r.lanes| == |s.lanes|
    requires forall i :: 0 <= i < |r.lanes| ==> Sorted(r.lanes[i])
    requires forall i, k :: 0 <= i < |r.lanes| ==> (k in r.lanes[i] <==> (k == key && i <= h) || k in s.lanes[i])
    ensures Valid(r)
  {
    forall i | Max(s.level, h) < i < |r.lanes|
      ensures r.lanes[i] == []
    {
      HasFirst(r.lanes[i]);
    }
    assert key in r.lanes[h];
    if s.level > 0 {
      var k := s.lanes[s.level][0];
      assert k in s.lanes[s.level];
      assert k in r.lanes[s.level];
    }
  }

  /** Unlink `key` from level `i` upwards, stopping at the first level whose
      splice point is not followed by it (skiplist.go:108-113, with the loop
      running up to and including the active level `top`). */
  function UnspliceFrom(lanes: seq<seq<int>>, update: seq<nat>, key: int, i: nat, top: nat): (r: seq<seq<int>>)
    requires |update| == |lanes| && top < |lanes| && i <= top + 1
    requires forall l :: i <= l < |lanes| ==> Sorted(lanes[l]) && SplitsAt(lanes[l], key, update[l])
    requires forall l :: i < l < |lanes| && key in lanes[l] ==> key in lanes[l - 1]
    requires forall l :: top < l < |lanes| ==> key !in lanes[l]
    ensures |r| == |lanes|
    ensures forall l :: 0 <= l < i ==> r[l] == lanes[l]
    ensures forall l :: i <= l < |lanes| ==> Sorted(r[l])
    ensures forall l, k :: i <= l < |lanes| ==> (k in r[l] <==> k in lanes[l] && k != key)
    decreases top + 1 - i
  {
    if i > top then
      lanes
    else if update[i] < |lanes[i]| && lanes[i][update[i]] == key then
      UnspliceFrom(lanes[i := Unsplice(lanes[i], update[i])], update, key, i + 1, top)
    else
      FoundAtSplit(lanes[i], key, update[i]);
      AbsentAbove(lanes, key, i);
      lanes
  }

  /** A key missing from one level is missing from every level above it. */
  lemma {:induction false} AbsentAbove(lanes: seq<seq<int>>, key: int, i: nat)
    requires i < |lanes|
    requires forall l :: i < l < |lanes| && key in lanes[l] ==> key in lanes[l - 1]
    requires key !in lanes[i]
    ensures forall l :: i <= l < |lanes| ==> key !in lanes[l]
    decreases |lanes| - i
  {
    if i + 1 < |lanes| {
      AbsentAbove(lanes, key, i + 1);
    }
  }

  /** Lower the active level while its head slot is empty (skiplist.go:118-120). */
  function Shrink(lanes: seq<seq<int>>, level: nat): (r: nat)
    requires level < |lanes|
    ensures r <= level
    ensures forall l :: r < l <= level ==> lanes[l] == []
    ensures r > 0 ==> lanes[r] != []
  {
    if level > 0 && lanes[level] == [] then Shrink(lanes, level - 1) else level
  }

  /** Remove a key (skiplist.go:94-122). An absent key fails with
      `KeyNotFound` and leaves the list as it was; a present key is unlinked
      from every level and the active level drops to the top non-empty one. */
  function Delete(s: Skiplist, key: int): (r: (Skiplist, Outcome))
    requires Valid(s)
    ensures Valid(r.0)
    ensures key !in s.nodes ==> r == (s, Fail(KeyNotFound))
    ensures key in s.nodes ==>
      && r.1 == Pass
      && r.0.nodes == s.nodes - {key}
      && r.0.maxLevel == s.maxLevel && r.0.p == s.p
      && r.0.level <= s.level
      && forall i, k :: 0 <= i < |s.lanes| ==> (k in r.0.lanes[i] <==> k in s.lanes[i] && k != key)
  {
    var update := Traverse(s, key);
    if Holds(s, update, key) then
      var lanes := UnspliceFrom(s.lanes, update, key, 0, s.level);
      var level := Shrink(lanes, s.level);
      var t := Skiplist(s.maxLevel, level, s.p, lanes, s.nodes - {key});
      DeleteIsValid(s, key, t);
      (t, Pass)
    else
      (s, Fail(KeyNotFound))
  }

  lemma DeleteIsValid(s: Skiplist, key: int, t: Skiplist)
    requires Valid(s)
    requires t.maxLevel == s.maxLevel && t.p == s.p && t.nodes == s.nodes - {key}
    requires |t.lanes| == |s.lanes|
    requires forall i :: 0 <= i < |t.lanes| ==> Sorted(t.lanes[i])
    requires forall i, k :: 0 <= i < |t.lanes| ==> (k in t.lanes[i] <==> k in s.lanes[i] && k != key)
    requires t.level <= s.level
    requires forall l :: t.level < l <= s.level ==> t.lanes[l] == []
    requires t.level > 0 ==> t.lanes[t.level] != []
    ensures Valid(t)
  {
    forall i | t.level < i < |t.lanes|
      ensures t.lanes[i] == []
    {
      HasFirst(t.lanes[i]);
    }
    forall k | k in t.nodes
      ensures t.nodes[k].height <= t.level
    {
      var h := t.nodes[k].height;
      assert k in t.lanes[h];
    }
  }
}
