# Skip list model

A Dafny model of the skip list in `skiplist.go`. It is an integer-keyed,
integer-valued sorted index after Pugh's 1986 algorithm, with 0-indexed levels.
It has a constructor `New`, the operations `Search`, `Insert` and `Delete`, and
the level generator `randomLevel`.

The model keeps the list as an immutable value, `SkipList.Skiplist`:

- `lanes[i]` is the chain of keys reached by following `next[i]` from the head
  sentinel. The head's forward array is represented by the `maxLevel + 1` lanes.
- `nodes` maps each key to its node: the value and the node's height. A node of
  height `h` is linked on levels `0..h`.
- `level` is the active level. `maxLevel` is the cap. `p` is the promotion probability.

`SkipList.Valid` is the invariant. It says:

- there are `maxLevel + 1` lanes and `level <= maxLevel`;
- every lane is strictly increasing;
- a key is on lane `i` exactly when its node's height is at least `i`, so levels nest;
- every height is at most `level`;
- the lanes above `level` are empty;
- `lanes[level]` is non-empty unless `level` is 0.

The descent shared by the three operations is modelled step by step:

- `Lanes.Advance` is the inner "move right while the next key is smaller" loop.
- `SkipList.Descend` resumes each level at the node reached on the level above.
  It records the splice point on every level. That record is the `update` array
  that the draft intends to fill.

Insert and Delete splice and unsplice at those recorded points, one level at a
time (`Lanes.Splice`, `SkipList.UnspliceFrom`). Each call of `rand.Float64()`
is the next element of a stream `draws: nat -> real`. That stream is an
argument of `RandomLevel` and of `Insert`, so both are functions.

`Properties.Contents` is the map a valid list represents. The lemmas in
`Properties` prove the following:

- Search answers from that map.
- Insert is a map update and Delete is a map removal.
- Inserting a key twice makes one node.
- Deleting a key that was absent before and has just been inserted restores the list exactly.
- A valid list is determined by its nodes (`Canonical`).

## Corrections to the draft

The Go file is an unfinished draft. `New` and `randomLevel` run, but `Search`,
`Insert` and `Delete` always panic: on the nil head, and at `current.next[-1]`
(skiplist.go:54, 72, 104). The model follows the algorithm the draft intends. Each correction is listed here:

- `New` leaves `head` nil (skiplist.go:42). The model starts with `maxLevel + 1` empty lanes.
- The inner loops read `current.next[i].key` without checking for the end of
  the chain (skiplist.go:50, 68, 100). The model stops at the end of a lane.
- After the outer loop `i` is -1, so `current.next[i]` is out of range
  (skiplist.go:54, 72, 104). The model reads the level-0 successor.
- `update` is sized `maxLevel` and never filled (skiplist.go:64, 96, 124-125).
  The model records a splice point on every one of the `maxLevel + 1` levels.
- The head is set as predecessor only for levels below the new height
  (skiplist.go:78). The model uses the head on every level above the old
  active level, including the new height.
- The new node's `next` slice is never allocated, and levels 0 and `level`
  are not spliced (skiplist.go:83-86). The model splices levels `0..height`.
- `for i := range s.level` misses the top level (skiplist.go:108). The model
  unsplices levels `0..level`, and stops at the first level that does not link
  the node.

## Where the code is narrower than the usual contract

The model follows the code in each case below:

- A skip list usually takes `p` in (0,1) and replaces any other value. `New` only
  replaces `p <= 0`, with 1/2 (skiplist.go:38-40). A `p` of 1 or more is kept,
  so every draw promotes. `Valid` requires only `p > 0`, which `New` establishes.
  Because of that, the `p == 0` guard of `randomLevel` is never reached from
  `Insert` on a valid list. It matters only when the generator is called directly.
- `randomLevel` has its own guard that treats `p == 0` as 1/2
  (skiplist.go:133-135). The model keeps it as `LevelGenerator.PromotionProbability`.
- Node heights are often counted `1..maxLevel+1`. The code counts them from 0,
  giving `0..maxLevel`, and so does the model.

## Model

| member | source | states |
|---|---|---|
| LevelGenerator.RandomLevel | skiplist.go:130-143 | the height lies in `[0, maxLevel]` (0 for a negative cap); every draw before the stopping point is at most `p`; the generator stops at the first draw above `p` unless the cap is reached; a zero `p` counts as 1/2 |
| LevelGenerator.PromotionProbability | skiplist.go:132-135 | a zero `p` is replaced by 1/2 and any other `p` is kept, so the probability used is never 0 |
| LevelGenerator.Promote | skiplist.go:136-142 | the loop keeps "every draw so far promoted" and ends at the first draw above `q` or at the cap |
| Lanes.Advance | skiplist.go:67-71 | moving right while the next key is smaller ends at the split point for the key: every key before it is smaller, none from it on is |
| Lanes.FoundAtSplit | skiplist.go:72-73 | on a sorted level, the node after the split point holds the key exactly when the key is on that level |
| Lanes.Splice | skiplist.go:84-87 | linking a new key in at its split point keeps the level strictly sorted, and the level then holds exactly its old keys plus the new one |
| Lanes.Unsplice | skiplist.go:112 | unlinking the node after a splice point keeps the level sorted and removes exactly that key |
| SkipList.New | skiplist.go:32-43 | the new list is valid and empty with active level 0; a negative `maxLevel` becomes 0; a non-positive `p` becomes 1/2; other arguments are kept |
| SkipList.ValidIsNested | skiplist.go:15-27 | in a valid list a key linked on some level is linked on every level below it |
| SkipList.Descend | skiplist.go:66-71 | the descent that resumes each level at the node reached above records, on every level it visits, the split point for the key (the intended `update` entries, skiplist.go:124-125) |
| SkipList.Traverse | skiplist.go:63-71 | the recorded update array has one entry per head slot, and each entry is the split point for the key on its level, the head above the active level |
| SkipList.Holds | skiplist.go:104-106 | the level-0 successor of the traversal holds the key exactly when the key is in the list |
| SkipList.Search | skiplist.go:46-59 | the search succeeds exactly when the key is present and then returns its stored value; otherwise it fails with `KeyNotFound` |
| SkipList.Insert | skiplist.go:62-91 | the result is valid; on a present key only that node's value changes (levels and active level unchanged); on an absent key exactly one node is added, with the drawn height and the given value; the key is linked on exactly levels `0..height` and no other level changes; the active level becomes the larger of the old level and that height |
| SkipList.InsertNewIsValid | skiplist.go:76-87 | splicing a new node into levels `0..h` and raising the active level to at least `h` keeps every invariant |
| SkipList.UnspliceFrom | skiplist.go:106-113 | unsplicing upward until the first level that does not link the key removes the key from every level and changes nothing else |
| SkipList.AbsentAbove | skiplist.go:109-111 | when levels nest, a key missing from one level is missing from all levels above, so stopping the unsplice loop there is sound |
| SkipList.Shrink | skiplist.go:118-120 | lowering the active level gives a level with every slot above it (up to the old level) empty, and a non-empty slot at it unless it is 0 |
| SkipList.Delete | skiplist.go:94-122 | the result is valid; an absent key fails with `KeyNotFound` and the list is unchanged; a present key's node is removed; the key is unlinked from every level and nothing else is; every other node keeps its value and height; the active level does not rise |
| SkipList.DeleteIsValid | skiplist.go:106-120 | removing a key from every level and then shrinking the active level keeps every invariant |
| Properties.SearchMatchesContents | skiplist.go:46-59 | search returns the represented map's value for a present key and `KeyNotFound` otherwise |
| Properties.NewIsEmpty | skiplist.go:32-43 | a new list represents the empty map and every search on it fails |
| Properties.LevelZeroHoldsEveryKey | skiplist.go:67-71 | level 0 is strictly sorted and links every key of the list and nothing else |
| Properties.LevelIsTallestNode | skiplist.go:118-120 | the active level is the height of some node, and it is 0 when the list is empty |
| Properties.Canonical | skiplist.go:15-27 | two valid lists with the same nodes, cap and probability are equal, levels and active level included |
| Properties.InsertUpdatesContents | skiplist.go:72-88 | after an insert the represented map is the old map with the key set to the new value |
| Properties.InsertThenSearch | skiplist.go:62-91 | after `Insert(k, v)`, `Search(k)` returns `v` |
| Properties.InsertKeepsOthers | skiplist.go:62-91 | an insert does not change the search result of any other key |
| Properties.InsertTwice | skiplist.go:72-74 | inserting a key again only replaces its value: the result equals a single insert of the second value |
| Properties.DeleteUpdatesContents | skiplist.go:106-121 | after a delete the represented map is the old map without the key |
| Properties.DeleteThenSearch | skiplist.go:94-122 | after `Delete(k)`, `Search(k)` fails with `KeyNotFound` |
| Properties.DeleteKeepsOthers | skiplist.go:94-122 | a delete does not change the search result of any other key |
| Properties.DeleteUndoesInsert | skiplist.go:76-120 | deleting a key that was absent and has just been inserted gives back the original list, active level included |
| Properties.DeleteTallestLowersLevel | skiplist.go:118-120 | deleting the only node that reaches the active level lowers the active level |
| Properties.SingleLevel | skiplist.go:33-35 | with `maxLevel` 0 there is one level, every node has height 0, and an insert keeps it so |
| Properties.ExampleTallInsert | skiplist.go:76-81 | on the empty list with cap 4, draws that always promote give the new node height 4 and raise the active level to 4 |
| Properties.ExampleShortInsert | skiplist.go:76-87 | draws that never promote add a node of height 0 and leave the active level alone |
| Properties.ExampleSearches | skiplist.go:46-59 | in the list {1, 2, 3}, key 2 is found with its value and key 5 is not |
| Properties.ExampleDeleteShort | skiplist.go:94-122 | deleting 1 from {1, 2, 3} succeeds and keeps 2 and 3 with their values and heights |
| Properties.ExampleDeleteTall | skiplist.go:94-122 | deleting the only tall node brings the active level from 4 down to 0 |

## Left out

- The random source: `math/rand` and the `float64` comparison (skiplist.go:137-138). Draws are an argument stream of reals, and float rounding is not modelled.
- The distribution claim P(height >= k) = p^k (skiplist.go:128-129). It is probabilistic and cannot be stated over a given stream of draws.
- Node identity by address, and the draft's nil dereferences (skiplist.go:42, 50, 54, 83-86, 108-109). Keys name nodes because keys are unique. `Lanes.IndexOf` finds a node on a lane, which the linked structure does in constant time.
- The redundant `Node.level` field (skiplist.go:18). A node's height is kept in `nodes`.
- The exact error strings (skiplist.go:58, 115). Both are the single error `KeyNotFound`.
- Search's zero value returned alongside the error (skiplist.go:58). The model's `Err` carries no value.
- Insert's `error` result (skiplist.go:89-90). It is always nil, so `SkipList.Insert` returns only the new list.
- Reclaiming the deleted node (skiplist.go:117). There is no storage to free in the model.
- Mutation in place. The operations return the new list instead, so "Search does not modify the list" holds by construction.
- Concurrency. The code has none.
