/**
 What the skip list promises its callers, stated against the map it stands for:
 `Contents(s)` is the key-to-value map a valid list represents.
 */
module Properties {
  import opened Lanes
  import opened LevelGenerator
  import opened SkipList

  /** The dictionary a list represents. */
  function Contents(s: Skiplist): map<int, int> {
    map k | k in s.nodes :: s.nodes[k].value
  }

  /** Search answers from the represented map: the stored value for a present
      key, `KeyNotFound` for an absent one. */
  lemma SearchMatchesContents(s: Skiplist, key: int)
    requires Valid(s)
    ensures Search(s, key) == if key in Contents(s) then Ok(Contents(s)[key]) else Err(KeyNotFound)
  {
  }

  /** A new list is empty whatever it was configured with. */
  lemma NewIsEmpty(maxLevel: int, p: real, key: int)
    ensures Contents(New(maxLevel, p)) == map[]
    ensures Search(New(maxLevel, p), key) == Err(KeyNotFound)
  {
  }

  /** Level 0 links every key of the list and nothing else, in increasing order. */
  lemma LevelZeroHoldsEveryKey(s: Skiplist)
    requires Valid(s)
    ensures Sorted(s.lanes[0])
    ensures forall k :: k in s.lanes[0] <==> k in s.nodes
  {
  }

  /** The active level is the height of the tallest node, and 0 for an empty list. */
  lemma LevelIsTallestNode(s: Skiplist)
    requires Valid(s)
    ensures s.nodes == map[] ==> s.level == 0
    ensures s.level > 0 ==> exists k :: k in s.nodes && s.nodes[k].height == s.level
  {
    HasFirst(s.lanes[s.level]);
    if s.level > 0 {
      var k := s.lanes[s.level][0];
      assert k in s.nodes && s.nodes[k].height == s.level;
    }
  }

  /** A valid list is determined by its nodes and its configuration: the
      levels and the active level follow from the node heights. */
  lemma Canonical(s: Skiplist, t: Skiplist)
    requires Valid(s) && Valid(t)
    requires s.nodes == t.nodes && s.maxLevel == t.maxLevel && s.p == t.p
    ensures s == t
  {
    forall i | 0 <= i < |s.lanes|
      ensures s.lanes[i] == t.lanes[i]
    {
      forall k
        ensures k in s.lanes[i] <==> k in t.lanes[i]
      {
        assert k in s.lanes[i] <==> k in s.nodes && i <= s.nodes[k].height;
        assert k in t.lanes[i] <==> k in t.nodes && i <= t.nodes[k].height;
      }
      SortedByContents(s.lanes[i], t.lanes[i]);
    }
    assert s.lanes == t.lanes;
  }

  /** Insert is a map update: the key now maps to the new value and every
      other entry is as before. */
  lemma InsertUpdatesContents(s: Skiplist, key: int, value: int, draws: nat -> real)
    requires Valid(s)
    ensures Contents(Insert(s, key, value, draws)) == Contents(s)[key := value]
  {
  }

  /** After an insert, a search for the key finds the inserted value. */
  lemma InsertThenSearch(s: Skiplist, key: int, value: int, draws: nat -> real)
    requires Valid(s)
    ensures Search(Insert(s, key, value, draws), key) == Ok(value)
  {
  }

  /** An insert leaves the search result of every other key unchanged. */
  lemma InsertKeepsOthers(s: Skiplist, key: int, value: int, draws: nat -> real, other: int)
    requires Valid(s)
    requires other != key
    ensures Search(Insert(s, key, value, draws), other) == Search(s, other)
  {
  }

  /** Inserting a key twice creates one node: the second insert only replaces
      the value the first one stored. */
  lemma InsertTwice(s: Skiplist, key: int, v1: int, v2: int, d1: nat -> real, d2: nat -> real)
    requires Valid(s)
    ensures Insert(Insert(s, key, v1, d1), key, v2, d2) == Insert(s, key, v2, d1)
  {
    var once := Insert(s, key, v1, d1);
    var twice := Insert(once, key, v2, d2);
    var direct := Insert(s, key, v2, d1);
    assert key in once.nodes;
    assert twice.nodes == once.nodes[key := Node(v2, once.nodes[key].height)];
    if key in s.nodes {
      var h := s.nodes[key].height;
      assert once.nodes == s.nodes[key := Node(v1, h)];
      assert direct.nodes == s.nodes[key := Node(v2, h)];
    } else {
      var h := RandomLevel(s.maxLevel, s.p, d1);
      assert once.nodes == s.nodes[key := Node(v1, h)];
      assert direct.nodes == s.nodes[key := Node(v2, h)];
    }
    assert twice.nodes == direct.nodes;
    Canonical(twice, direct);
  }

  /** Delete is a map removal. */
  lemma DeleteUpdatesContents(s: Skiplist, key: int)
    requires Valid(s)
    ensures Contents(Delete(s, key).0) == Contents(s) - {key}
  {
  }

  /** After a delete, a search for the key fails. */
  lemma DeleteThenSearch(s: Skiplist, key: int)
    requires Valid(s)
    ensures Search(Delete(s, key).0, key) == Err(KeyNotFound)
  {
  }

  /** A delete leaves the search result of every other key unchanged. */
  lemma DeleteKeepsOthers(s: Skiplist, key: int, other: int)
    requires Valid(s)
    requires other != key
    ensures Search(Delete(s, key).0, other) == Search(s, other)
  {
  }

  /** Deleting a key just inserted restores the list exactly, active level included. */
  lemma DeleteUndoesInsert(s: Skiplist, key: int, value: int, draws: nat -> real)
    requires Valid(s)
    requires key !in s.nodes
    ensures Delete(Insert(s, key, value, draws), key) == (s, Pass)
  {
    var t := Insert(s, key, value, draws);
    var h := RandomLevel(s.maxLevel, s.p, draws);
    assert t.nodes == s.nodes[key := Node(value, h)];
    assert t.nodes - {key} == s.nodes;
    var d := Delete(t, key);
    assert key in t.nodes;
    assert d.1 == Pass && d.0.nodes == s.nodes;
    assert d.0.maxLevel == s.maxLevel && d.0.p == s.p;
    Canonical(d.0, s);
  }

  /** Deleting the only node that reaches the active level lowers the active level. */
  lemma DeleteTallestLowersLevel(s: Skiplist, key: int)
    requires Valid(s)
    requires s.level > 0
    requires key in s.nodes && s.nodes[key].height == s.level
    requires forall k :: k in s.nodes && k != key ==> s.nodes[k].height < s.level
    ensures Delete(s, key).0.level < s.level
  {
    var t := Delete(s, key).0;
    LevelIsTallestNode(t);
  }

  /** With `maxLevel` 0 the list is one sorted linked list: every node has
      height 0 and an insert keeps it so. */
  lemma SingleLevel(s: Skiplist, key: int, value: int, draws: nat -> real)
    requires Valid(s)
    requires s.maxLevel == 0
    ensures |s.lanes| == 1 && s.level == 0
    ensures forall k :: k in s.nodes ==> s.nodes[k].height == 0
    ensures Insert(s, key, value, draws).maxLevel == 0
    ensures forall k :: k in Insert(s, key, value, draws).nodes ==> Insert(s, key, value, draws).nodes[k].height == 0
  {
  }

  // A worked run on an empty list with `maxLevel` 4 and `p` one half:
  // insert 3, 1 and 2, search for 2 and 5, delete 1, then delete 3. `tall`
  // draws always promote and `short` draws never do.

  /** Inserting 3 into the empty list with promoting draws gives it the full height 4. */
  lemma ExampleTallInsert(s0: Skiplist, tall: nat -> real)
    requires Valid(s0) && s0.nodes == map[] && s0.maxLevel == 4 && s0.p == 0.5
    requires forall j: nat :: tall(j) <= 0.5
    ensures Insert(s0, 3, 10, tall).nodes == map[3 := Node(10, 4)]
    ensures Insert(s0, 3, 10, tall).level == 4
  {
    assert RandomLevel(4, 0.5, tall) == 4;
  }

  /** Inserting a new key with draws that never promote adds a node of height 0
      and leaves the active level alone. */
  lemma ExampleShortInsert(s: Skiplist, key: int, value: int, short: nat -> real)
    requires Valid(s) && key !in s.nodes && s.p == 0.5
    requires forall j: nat :: short(j) > 0.5
    ensures Insert(s, key, value, short).nodes == s.nodes[key := Node(value, 0)]
    ensures Insert(s, key, value, short).level == s.level
  {
  }

  /** After the three inserts, 2 is found with its value and 5 is not found. */
  lemma ExampleSearches(s3: Skiplist)
    requires Valid(s3) && s3.nodes == map[3 := Node(10, 4), 1 := Node(20, 0), 2 := Node(30, 0)]
    ensures Search(s3, 2) == Ok(30)
    ensures Search(s3, 5) == Err(KeyNotFound)
  {
    assert 5 !in s3.nodes;
  }

  /** Deleting 1 succeeds and leaves 2 and 3 with their values. */
  lemma ExampleDeleteShort(s3: Skiplist)
    requires Valid(s3) && s3.nodes == map[3 := Node(10, 4), 1 := Node(20, 0), 2 := Node(30, 0)]
    ensures Delete(s3, 1).1 == Pass
    ensures Delete(s3, 1).0.nodes == map[3 := Node(10, 4), 2 := Node(30, 0)]
  {
  }

  /** Deleting 3, the only node above level 0, brings the active level down to 0. */
  lemma ExampleDeleteTall(s4: Skiplist)
    requires Valid(s4) && s4.level == 4 && s4.nodes == map[3 := Node(10, 4), 2 := Node(30, 0)]
    ensures Delete(s4, 3).1 == Pass
    ensures Delete(s4, 3).0.level == 0
  {
    var t := Delete(s4, 3).0;
    assert t.nodes == map[2 := Node(30, 0)];
    LevelIsTallestNode(t);
  }
}
