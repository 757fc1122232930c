/**
 * The colours of the bounding boxes: every identity that is not ideally posed is given
 * an index into the palette, which it keeps from frame to frame, and the boxes of one
 * frame are told apart as long as the palette has enough colours.
 */
module PaletteAllocator {
  import opened Bytes
  import opened Sequences

  const GRID := 48

  datatype Detection = Detection(faceId: int, ideal: int, x1: int, y1: int)

  /** An enrolled face is known by its id, an unknown one by the grid cell of its upper left corner. */
  datatype Key = Id(faceId: int) | Cell(column: int, row: int)

  type Color = (int, int, int)

  function PaletteKey(b: Detection): Key
  {
    if b.faceId != 0 then Id(b.faceId) else Cell(b.x1 / GRID, b.y1 / GRID)
  }

  // ---- Choosing an index ----

  /** The smallest index from j on that is not used; if there is none, the fallback decides. */
  function FirstFreeFrom(used: set<int>, n: nat, fallback: int, j: nat): (index: int)
    requires j <= n && n > 0
    ensures 0 <= index < n
    ensures index in used ==> index == fallback % n && forall k :: j <= k < n ==> k in used
    ensures index !in used ==> j <= index || index == fallback % n
    decreases n - j
  {
    if j == n then fallback % n else if j !in used then j else FirstFreeFrom(used, n, fallback, j + 1)
  }

  function FirstFree(used: set<int>, n: nat, fallback: int): int
    requires n > 0
  {
    FirstFreeFrom(used, n, fallback, 0)
  }

  /** The index chosen is free if any is, and then the least free one. */
  lemma {:induction false} FirstFreeIsLeast(used: set<int>, n: nat, fallback: int, j: nat)
    requires j <= n && n > 0
    ensures var index := FirstFreeFrom(used, n, fallback, j);
            if exists k :: j <= k < n && k !in used
            then j <= index < n && index !in used && forall k :: j <= k < index ==> k in used
            else index == fallback % n
    decreases n - j
  {
    if j < n && j in used {
      FirstFreeIsLeast(used, n, fallback, j + 1);
    }
  }

  /** An index is free as long as fewer than n are used. */
  lemma FreeWhileUsedIsSmall(used: set<int>, n: nat, fallback: int)
    requires n > 0 && |used| < n
    ensures FirstFree(used, n, fallback) !in used
  {
    if FirstFree(used, n, fallback) in used {
      FilledIsLarge(used, n);
    }
  }

  lemma {:induction false} FilledIsLarge(used: set<int>, n: nat)
    requires forall k :: 0 <= k < n ==> k in used
    ensures |used| >= n
  {
    if n > 0 {
      FilledIsLarge(used - {n - 1}, n - 1);
    }
  }

  lemma {:induction false} RangeIsSmall(used: set<int>, n: nat)
    requires forall k :: k in used ==> 0 <= k < n
    ensures |used| <= n
  {
    if n == 0 {
      assert forall k :: k !in used;
    } else {
      RangeIsSmall(used - {n - 1}, n - 1);
    }
  }

  // ---- One frame ----

  datatype Allocation = Allocation(table: map<Key, int>, indices: seq<int>)

  predicate InRange(table: map<Key, int>, n: nat)
  {
    forall k :: k in table ==> 0 <= table[k] < n
  }

  function Used(indices: seq<int>): set<int>
  {
    set i | i in indices
  }

  /** A key seen for the first time is given an index that no other key has. */
  function Registered(table: map<Key, int>, key: Key, n: nat, hash: Key -> int): (r: map<Key, int>)
    requires n > 0
    ensures key in r
  {
    if key in table then table else table[key := FirstFree(table.Values, n, hash(key))]
  }

  /** The key's own index, unless an earlier box of the frame has it; then a free one, kept from now on. */
  function Served(a: Allocation, key: Key, n: nat, hash: Key -> int): Allocation
    requires n > 0
  {
    var table := Registered(a.table, key, n, hash);
    var preferred := table[key];
    if preferred !in Used(a.indices) then Allocation(table, a.indices + [preferred])
    else
      var index := FirstFree(Used(a.indices), n, hash(key));
      Allocation(table[key := index], a.indices + [index])
  }

  /** The table and the indices given out after the keys of a frame, in order. */
  function Frame(table: map<Key, int>, keys: seq<Key>, n: nat, hash: Key -> int): (a: Allocation)
    requires n > 0
    ensures |a.indices| == |keys|
  {
    if keys == [] then Allocation(table, [])
    else Served(Frame(table, keys[..|keys| - 1], n, hash), keys[|keys| - 1], n, hash)
  }

  lemma FrameAppend(table: map<Key, int>, front: seq<Key>, key: Key, n: nat, hash: Key -> int)
    requires n > 0
    ensures Frame(table, front + [key], n, hash) == Served(Frame(table, front, n, hash), key, n, hash)
  {
    assert (front + [key])[..|front|] == front;
  }

  lemma FrameNext(table: map<Key, int>, keys: seq<Key>, p: nat, n: nat, hash: Key -> int)
    requires n > 0 && p < |keys|
    ensures Frame(table, keys[..p + 1], n, hash) == Served(Frame(table, keys[..p], n, hash), keys[p], n, hash)
  {
    assert keys[..p + 1] == keys[..p] + [keys[p]];
    FrameAppend(table, keys[..p], keys[p], n, hash);
  }

  lemma ServedStaysInRange(a: Allocation, key: Key, n: nat, hash: Key -> int)
    requires n > 0 && InRange(a.table, n) && forall i :: 0 <= i < |a.indices| ==> 0 <= a.indices[i] < n
    ensures var b := Served(a, key, n, hash);
            InRange(b.table, n) && forall i :: 0 <= i < |b.indices| ==> 0 <= b.indices[i] < n
  {
  }

  lemma {:induction false} FrameStaysInRange(table: map<Key, int>, keys: seq<Key>, n: nat, hash: Key -> int)
    requires n > 0 && InRange(table, n)
    ensures var a := Frame(table, keys, n, hash);
            InRange(a.table, n) && forall i :: 0 <= i < |a.indices| ==> 0 <= a.indices[i] < n
  {
    if keys != [] {
      FrameStaysInRange(table, keys[..|keys| - 1], n, hash);
      ServedStaysInRange(Frame(table, keys[..|keys| - 1], n, hash), keys[|keys| - 1], n, hash);
    }
  }

  lemma UsedAppend(indices: seq<int>, index: int)
    ensures Used(indices + [index]) == Used(indices) + {index}
  {
  }

  /** In-frame distinctness: from any table, and whatever keys the frame repeats, the number of different
      indices given out is that of the boxes, or the size of the palette if this is smaller. */
  lemma {:induction false} AsManyIndicesAsPossible(table: map<Key, int>, keys: seq<Key>, n: nat, hash: Key -> int)
    requires n > 0 && InRange(table, n)
    ensures |Used(Frame(table, keys, n, hash).indices)| == Min(|keys|, n)
  {
    if keys != [] {
      var shorter := Frame(table, keys[..|keys| - 1], n, hash);
      var key := keys[|keys| - 1];
      AsManyIndicesAsPossible(table, keys[..|keys| - 1], n, hash);
      FrameStaysInRange(table, keys, n, hash);
      var used, a := Used(shorter.indices), Frame(table, keys, n, hash);
      var index := a.indices[|keys| - 1];
      UsedAppend(shorter.indices, index);
      if |used| < n {
        FreeWhileUsedIsSmall(used, n, hash(key));
        assert index !in used;
      } else {
        RangeIsSmall(Used(a.indices), n);
      }
    }
  }

  /** Hence the boxes of a frame are told apart exactly if the palette is large enough. */
  lemma {:induction false} ToldApartIff(table: map<Key, int>, keys: seq<Key>, n: nat, hash: Key -> int)
    requires n > 0 && InRange(table, n)
    ensures Distinct(Frame(table, keys, n, hash).indices) <==> |keys| <= n
  {
    var indices := Frame(table, keys, n, hash).indices;
    AsManyIndicesAsPossible(table, keys, n, hash);
    DistinctIffAsMany(indices);
  }

  lemma {:induction false} DistinctIffAsMany(s: seq<int>)
    ensures |Used(s)| <= |s|
    ensures Distinct(s) <==> |Used(s)| == |s|
  {
    if s != [] {
      var shorter, last := s[..|s| - 1], s[|s| - 1];
      DistinctIffAsMany(shorter);
      assert s == shorter + [last];
      UsedAppend(shorter, last);
      if last in Used(shorter) {
        var i :| 0 <= i < |shorter| && shorter[i] == last;
        assert s[i] == s[|s| - 1];
      } else {
        assert forall i :: 0 <= i < |shorter| ==> shorter[i] != last;
        if Distinct(shorter) {
          assert Distinct(s);
        } else {
          var i, j :| 0 <= i < j < |shorter| && shorter[i] == shorter[j];
          assert s[i] == s[j];
        }
      }
    }
  }

  // ---- Whole runs ----

  predicate Injective(table: map<Key, int>)
  {
    forall k, l :: k in table && l in table && table[k] == table[l] ==> k == l
  }

  predicate Extends(table: map<Key, int>, larger: map<Key, int>)
  {
    forall k :: k in table ==> k in larger && larger[k] == table[k]
  }

  function KeySet(keys: seq<Key>): set<Key>
  {
    set k | k in keys
  }

  lemma {:induction false} ValuesOfInjective(table: map<Key, int>)
    ensures |table.Values| <= |table.Keys|
    ensures Injective(table) ==> |table.Values| == |table.Keys|
  {
    if table.Keys != {} {
      var k :| k in table.Keys;
      var rest := table - {k};
      ValuesOfInjective(rest);
      assert table.Keys == rest.Keys + {k};
      assert table.Values == rest.Values + {table[k]};
    }
  }

  /** The indices given out are those the table holds for the keys. */
  predicate Matches(a: Allocation, keys: seq<Key>)
  {
    |a.indices| == |keys| && forall i :: 0 <= i < |keys| ==> keys[i] in a.table && a.indices[i] == a.table[keys[i]]
  }

  /** Nothing known has changed, no two keys share an index, and there are no keys but the given ones. */
  predicate OnlyExtended(table: map<Key, int>, larger: map<Key, int>, keys: set<Key>)
  {
    Injective(larger) && Extends(table, larger) && larger.Keys <= keys
  }

  lemma KeyOnlyExtends(all: set<Key>, a: Allocation, keys: seq<Key>, key: Key, n: nat, hash: Key -> int)
    requires 0 < |all| <= n && a.table.Keys <= all && key in all
    requires Injective(a.table) && Matches(a, keys) && key !in keys
    ensures OnlyExtended(a.table, Served(a, key, n, hash).table, all) && Matches(Served(a, key, n, hash), keys + [key])
  {
    if key !in a.table {
      ValuesOfInjective(a.table);
      Smaller(a.table.Keys, all - {key});
      FreeWhileUsedIsSmall(a.table.Values, n, hash(key));
    }
    var table := Registered(a.table, key, n, hash);
    assert Injective(table);
    forall i | 0 <= i < |keys|
      ensures a.indices[i] != table[key]
    {
      assert keys[i] in table && table[keys[i]] == a.indices[i];
    }
    assert Served(a, key, n, hash) == Allocation(table, a.indices + [table[key]]);
  }

  lemma ExtendedTwice(a: map<Key, int>, b: map<Key, int>, c: map<Key, int>, keys: set<Key>)
    requires OnlyExtended(a, b, keys) && OnlyExtended(b, c, keys)
    ensures OnlyExtended(a, c, keys)
  {
  }

  lemma DistinctFront(front: seq<Key>, key: Key)
    requires Distinct(front + [key])
    ensures Distinct(front) && key !in front && KeySet(front + [key]) == KeySet(front) + {key}
  {
    var keys := front + [key];
    assert forall i :: 0 <= i < |front| ==> keys[i] == front[i] && keys[i] != keys[|front|];
  }

  /** A frame without repeated keys, while the palette has room for all keys: nothing known changes, and every
      box is given the index of its key. */
  lemma {:induction false} FrameOnlyExtends(all: set<Key>, table: map<Key, int>, keys: seq<Key>, n: nat, hash: Key -> int)
    requires 0 < n && |all| <= n && table.Keys <= all && KeySet(keys) <= all
    requires Injective(table) && Distinct(keys)
    ensures var a := Frame(table, keys, n, hash);
            OnlyExtended(table, a.table, all) && Matches(a, keys)
  {
    if keys != [] {
      var front, key := keys[..|keys| - 1], keys[|keys| - 1];
      assert keys == front + [key];
      DistinctFront(front, key);
      FrameOnlyExtends(all, table, front, n, hash);
      var a := Frame(table, front, n, hash);
      KeyOnlyExtends(all, a, front, key, n, hash);
      ExtendedTwice(table, a.table, Served(a, key, n, hash).table, all);
      FrameAppend(table, front, key, n, hash);
    }
  }

  lemma Smaller<T>(a: set<T>, b: set<T>)
    requires a <= b
    ensures |a| <= |b|
  {
    assert b == a + (b - a);
  }

  function Run(table: map<Key, int>, frames: seq<seq<Key>>, n: nat, hash: Key -> int): map<Key, int>
    requires n > 0
  {
    if frames == [] then table
    else Frame(Run(table, frames[..|frames| - 1], n, hash), frames[|frames| - 1], n, hash).table
  }

  function KeysSeen(frames: seq<seq<Key>>): set<Key>
  {
    if frames == [] then {} else KeysSeen(frames[..|frames| - 1]) + KeySet(frames[|frames| - 1])
  }

  /** No frame has two boxes of one key. */
  predicate NoRepetitions(frames: seq<seq<Key>>)
  {
    forall f :: 0 <= f < |frames| ==> Distinct(frames[f])
  }

  /** Palette stability: while all keys ever seen fit into the palette, the table is only ever extended and
      no two keys share an index, however later frames reorder or drop their boxes. */
  lemma {:induction false} RunOnlyExtends(all: set<Key>, table: map<Key, int>, frames: seq<seq<Key>>, n: nat, hash: Key -> int)
    requires 0 < n && |all| <= n && table.Keys <= all && KeysSeen(frames) <= all
    requires Injective(table) && NoRepetitions(frames)
    ensures OnlyExtended(table, Run(table, frames, n, hash), all)
  {
    if frames != [] {
      var front, last := frames[..|frames| - 1], frames[|frames| - 1];
      RunOnlyExtends(all, table, front, n, hash);
      var before := Run(table, front, n, hash);
      FrameOnlyExtends(all, before, last, n, hash);
      ExtendedTwice(table, before, Frame(before, last, n, hash).table, all);
    }
  }

  lemma {:induction false} RunStaysInRange(table: map<Key, int>, frames: seq<seq<Key>>, n: nat, hash: Key -> int)
    requires n > 0 && InRange(table, n)
    ensures InRange(Run(table, frames, n, hash), n)
  {
    if frames != [] {
      RunStaysInRange(table, frames[..|frames| - 1], n, hash);
      FrameStaysInRange(Run(table, frames[..|frames| - 1], n, hash), frames[|frames| - 1], n, hash);
    }
  }

  lemma {:induction false} FrameRegistersItsKeys(table: map<Key, int>, keys: seq<Key>, n: nat, hash: Key -> int)
    requires n > 0
    ensures Frame(table, keys, n, hash).table.Keys == table.Keys + KeySet(keys)
  {
    if keys != [] {
      FrameRegistersItsKeys(table, keys[..|keys| - 1], n, hash);
      assert keys == keys[..|keys| - 1] + [keys[|keys| - 1]];
    }
  }

  lemma {:induction false} RunRegistersItsKeys(table: map<Key, int>, frames: seq<seq<Key>>, n: nat, hash: Key -> int)
    requires n > 0
    ensures Run(table, frames, n, hash).Keys == table.Keys + KeysSeen(frames)
  {
    if frames != [] {
      RunRegistersItsKeys(table, frames[..|frames| - 1], n, hash);
      FrameRegistersItsKeys(Run(table, frames[..|frames| - 1], n, hash), frames[|frames| - 1], n, hash);
    }
  }

  /** Without repetitions within a frame, no two keys ever share an index if and only if the palette has an
      index for every key ever seen. */
  lemma IndicesSharedIff(frames: seq<seq<Key>>, n: nat, hash: Key -> int)
    requires n > 0 && NoRepetitions(frames)
    ensures Injective(Run(map[], frames, n, hash)) <==> |KeysSeen(frames)| <= n
  {
    var after := Run(map[], frames, n, hash);
    if |KeysSeen(frames)| <= n {
      RunOnlyExtends(KeysSeen(frames), map[], frames, n, hash);
    } else {
      RunStaysInRange(map[], frames, n, hash);
      RunRegistersItsKeys(map[], frames, n, hash);
      assert after.Keys == KeysSeen(frames);
      ValuesOfInjective(after);
      RangeIsSmall(after.Values, n);
    }
  }

  // ---- Repeated keys ----

  lemma KeyTouchesItself(a: Allocation, key: Key, n: nat, hash: Key -> int)
    requires n > 0
    ensures var b := Served(a, key, n, hash);
            && b.indices == a.indices + [b.table[key]] && (key in a.table ==> a.table[key] in Used(b.indices))
            && forall k :: k in a.table && k != key ==> b.table[k] == a.table[k]
  {
  }

  /** Serving the rest of a frame changes neither what was given out before nor the entries of other keys. */
  lemma {:induction false} RestTouchesItself(table: map<Key, int>, front: seq<Key>, rest: seq<Key>, n: nat, hash: Key -> int, key: Key)
    requires n > 0
    ensures Frame(table, front, n, hash).indices <= Frame(table, front + rest, n, hash).indices
    ensures var before, after := Frame(table, front, n, hash).table, Frame(table, front + rest, n, hash).table;
            key in before && key !in rest ==> key in after && after[key] == before[key]
    decreases |rest|
  {
    if rest == [] {
      assert front + rest == front;
    } else {
      var shorter, last := rest[..|rest| - 1], rest[|rest| - 1];
      RestTouchesItself(table, front, shorter, n, hash, key);
      assert front + rest == (front + shorter) + [last];
      FrameAppend(table, front + shorter, last, n, hash);
      KeyTouchesItself(Frame(table, front + shorter, n, hash), last, n, hash);
    }
  }

  /** Two boxes of one key make the table forget the key's index: the frame leaves a table that knows all its
      keys as it is if and only if no key is repeated. */
  lemma TableIsKeptIff(table: map<Key, int>, keys: seq<Key>, n: nat, hash: Key -> int)
    requires n > 0 && InRange(table, n) && Injective(table) && KeySet(keys) <= table.Keys && |keys| <= n
    ensures Frame(table, keys, n, hash).table == table <==> Distinct(keys)
  {
    var a := Frame(table, keys, n, hash);
    if Distinct(keys) {
      ValuesOfInjective(table);
      RangeIsSmall(table.Values, n);
      FrameOnlyExtends(table.Keys, table, keys, n, hash);
      assert a.table == table;
    } else {
      var i, j :| 0 <= i < j < |keys| && keys[i] == keys[j];
      RepeatedKeyMoves(table, keys, n, hash, i, j);
    }
  }

  lemma RepeatedKeyMoves(table: map<Key, int>, keys: seq<Key>, n: nat, hash: Key -> int, i: nat, j: nat)
    requires n > 0 && InRange(table, n) && |keys| <= n && i < j < |keys| && keys[i] == keys[j] && keys[i] in table
    ensures keys[i] in Frame(table, keys, n, hash).table && Frame(table, keys, n, hash).table[keys[i]] != table[keys[i]]
  {
    var key := keys[i];
    var first := FirstAt(keys, key, i);
    var last := LastAt(keys, key, j);
    ToldApartIff(table, keys, n, hash);
    OldIndexIsUsed(table, keys, n, hash, key, first);
    LastIndexIsKept(table, keys, n, hash, key, last);
  }

  /** Where a key comes first, its old index is used up. */
  lemma OldIndexIsUsed(table: map<Key, int>, keys: seq<Key>, n: nat, hash: Key -> int, key: Key, first: nat)
    requires n > 0 && first < |keys| && keys[first] == key && key !in keys[..first] && key in table
    ensures exists i :: 0 <= i <= first && Frame(table, keys, n, hash).indices[i] == table[key]
  {
    var front := keys[..first];
    assert [] + front == front;
    RestTouchesItself(table, [], front, n, hash, key);
    FrameAppend(table, front, key, n, hash);
    KeyTouchesItself(Frame(table, front, n, hash), key, n, hash);
    assert keys == (front + [key]) + keys[first + 1..];
    RestTouchesItself(table, front + [key], keys[first + 1..], n, hash, key);
  }

  /** Where it comes last, it is given the index that it keeps. */
  lemma LastIndexIsKept(table: map<Key, int>, keys: seq<Key>, n: nat, hash: Key -> int, key: Key, last: nat)
    requires n > 0 && last < |keys| && keys[last] == key && key !in keys[last + 1..]
    ensures var a := Frame(table, keys, n, hash);
            key in a.table && a.table[key] == a.indices[last]
  {
    var front := keys[..last];
    FrameAppend(table, front, key, n, hash);
    KeyTouchesItself(Frame(table, front, n, hash), key, n, hash);
    assert keys == (front + [key]) + keys[last + 1..];
    RestTouchesItself(table, front + [key], keys[last + 1..], n, hash, key);
  }

  lemma FirstAt(keys: seq<Key>, key: Key, i: nat) returns (first: nat)
    requires i < |keys| && keys[i] == key
    ensures first <= i && keys[first] == key && key !in keys[..first]
  {
    first := i;
    while key in keys[..first]
      invariant first <= i && keys[first] == key
      decreases first
    {
      var earlier :| 0 <= earlier < first && keys[earlier] == key;
      first := earlier;
    }
  }

  lemma LastAt(keys: seq<Key>, key: Key, j: nat) returns (last: nat)
    requires j < |keys| && keys[j] == key
    ensures j <= last < |keys| && keys[last] == key && key !in keys[last + 1..]
  {
    last := j;
    while key in keys[last + 1..]
      invariant j <= last < |keys| && keys[last] == key
      decreases |keys| - last
    {
      var later :| last + 1 <= later < |keys| && keys[later] == key;
      last := later;
    }
  }

  /** Two unknown faces standing in one cell swap their colours with every frame. */
  lemma TwoInOneCellFlicker(n: nat, hash: Key -> int)
    requires n >= 2
    ensures var keys := [Cell(0, 0), Cell(0, 0)];
            var first := Frame(map[], keys, n, hash);
            && first.indices == [0, 1]
            && Frame(first.table, keys, n, hash).indices == [1, 0]
            && Frame(first.table, keys, n, hash).table == map[Cell(0, 0) := 0]
  {
    var key := Cell(0, 0);
    var empty: map<Key, int> := map[];
    FirstFreeIsLeast({}, n, hash(key), 0);
    FirstFreeIsLeast({0}, n, hash(key), 0);
    FirstFreeIsLeast({1}, n, hash(key), 0);
    assert empty.Values == {} && 0 !in {1} && 1 !in {0};
    assert Used([]) == {} && Used([0]) == {0} && Used([1]) == {1};
    assert FirstFree({}, n, hash(key)) == 0 && FirstFree({0}, n, hash(key)) == 1 && FirstFree({1}, n, hash(key)) == 0;
    assert Served(Allocation(empty, []), key, n, hash) == Allocation(map[key := 0], [0]);
    assert Served(Allocation(map[key := 0], [0]), key, n, hash) == Allocation(map[key := 1], [0, 1]);
    assert Served(Allocation(map[key := 1], []), key, n, hash) == Allocation(map[key := 1], [1]);
    assert Served(Allocation(map[key := 1], [1]), key, n, hash) == Allocation(map[key := 0], [1, 0]);
    FrameOfTwo(empty, key, n, hash);
    FrameOfTwo(map[key := 1], key, n, hash);
  }

  lemma FrameOfTwo(table: map<Key, int>, key: Key, n: nat, hash: Key -> int)
    requires n > 0
    ensures Frame(table, [key, key], n, hash) == Served(Served(Allocation(table, []), key, n, hash), key, n, hash)
  {
    var keys := [key, key];
    assert keys[..1] == [key] && keys[..1][..0] == [];
    assert Frame(table, [key], n, hash) == Served(Allocation(table, []), key, n, hash);
  }

  // ---- The allocator ----

  /** The boxes that are not ideal among the first n, by number. */
  function NonIdeal(boxes: seq<Detection>, n: nat): (positions: seq<nat>)
    requires n <= |boxes|
    ensures forall p :: 0 <= p < |positions| ==> positions[p] < n
  {
    if n == 0 then [] else
    NonIdeal(boxes, n - 1) + if boxes[n - 1].ideal == 0 then [n - 1] else []
  }

  lemma {:induction false} NonIdealPositions(boxes: seq<Detection>, n: nat)
    requires n <= |boxes|
    ensures var positions := NonIdeal(boxes, n);
            && (forall p, q :: 0 <= p < q < |positions| ==> positions[p] < positions[q])
            && (forall p :: 0 <= p < |positions| ==> boxes[positions[p]].ideal == 0)
            && forall i :: 0 <= i < n && boxes[i].ideal == 0 ==> i in positions
  {
    if n > 0 {
      NonIdealPositions(boxes, n - 1);
      var shorter, positions := NonIdeal(boxes, n - 1), NonIdeal(boxes, n);
      forall i | 0 <= i < n && boxes[i].ideal == 0
        ensures i in positions
      {
        if i == n - 1 {
          assert positions[|positions| - 1] == i;
        } else {
          assert i in shorter;
        }
      }
    }
  }

  /** The boxes served so far have the colours of their indices. */
  predicate Painted(byIndex: map<nat, Color>, positions: seq<nat>, colors: seq<Color>, indices: seq<int>)
  {
    && |indices| <= |positions|
    && forall p :: 0 <= p < |indices| ==>
      && 0 <= indices[p] < |colors|
      && positions[p] in byIndex && byIndex[positions[p]] == colors[indices[p]]
  }

  /** Every box has its colour. */
  predicate Painting(boxes: seq<Detection>, out: seq<Color>, byIndex: map<nat, Color>, ideal: Color)
  {
    && |out| == |boxes|
    && forall i :: 0 <= i < |boxes| ==>
      if boxes[i].ideal != 0 then out[i] == ideal else i in byIndex && out[i] == byIndex[i]
  }

  lemma PaintNext(byIndex: map<nat, Color>, positions: seq<nat>, colors: seq<Color>, indices: seq<int>, index: int)
    requires forall p, q :: 0 <= p < q < |positions| ==> positions[p] < positions[q]
    requires Painted(byIndex, positions, colors, indices) && |indices| < |positions| && 0 <= index < |colors|
    ensures Painted(byIndex[positions[|indices|] := colors[index]], positions, colors, indices + [index])
  {
  }

  function KeysOf(boxes: seq<Detection>): (keys: seq<Key>)
    ensures |keys| == |NonIdeal(boxes, |boxes|)|
  {
    var positions := NonIdeal(boxes, |boxes|);
    seq(|positions|, p requires 0 <= p < |positions| => PaletteKey(boxes[positions[p]]))
  }

  /** Which boxes count as one identity: those of one enrolled face, wherever it is, and the unknown ones whose
      upper left corners lie in one cell of the grid. */
  lemma OneKeyIff(a: Detection, b: Detection)
    ensures PaletteKey(a) == PaletteKey(b) <==>
            a.faceId == b.faceId && (a.faceId == 0 ==> a.x1 / 48 == b.x1 / 48 && a.y1 / 48 == b.y1 / 48)
  {
  }

  function AllKeys(frames: seq<seq<Detection>>): (keys: seq<seq<Key>>)
    ensures |keys| == |frames|
  {
    seq(|frames|, f requires 0 <= f < |frames| => KeysOf(frames[f]))
  }

  /** The index given to the p-th box that is not ideal in the f-th frame of a run. */
  function IndexIn(frames: seq<seq<Detection>>, f: nat, p: nat, n: nat, hash: Key -> int): int
    requires n > 0 && f < |frames| && p < |NonIdeal(frames[f], |frames[f]|)|
  {
    Frame(Run(map[], AllKeys(frames)[..f], n, hash), AllKeys(frames)[f], n, hash).indices[p]
  }

  lemma {:induction false} SeenAreAmong(frames: seq<seq<Key>>, all: set<Key>)
    requires forall f :: 0 <= f < |frames| ==> KeySet(frames[f]) <= all
    ensures KeysSeen(frames) <= all
  {
    if frames != [] {
      SeenAreAmong(frames[..|frames| - 1], all);
    }
  }

  lemma NextTableExtends(all: set<Key>, frames: seq<seq<Key>>, j: nat, n: nat, hash: Key -> int)
    requires 0 < n && |all| <= n && j < |frames| && NoRepetitions(frames)
    requires forall f :: 0 <= f < |frames| ==> KeySet(frames[f]) <= all
    ensures var before, after := Run(map[], frames[..j], n, hash), Run(map[], frames[..j + 1], n, hash);
            after == Frame(before, frames[j], n, hash).table && OnlyExtended(before, after, all)
  {
    assert frames[..j + 1][..j] == frames[..j] && frames[..j + 1][j] == frames[j];
    SeenAreAmong(frames[..j], all);
    RunOnlyExtends(all, map[], frames[..j], n, hash);
    FrameOnlyExtends(all, Run(map[], frames[..j], n, hash), frames[j], n, hash);
  }

  lemma {:induction false} LaterTablesExtend(all: set<Key>, frames: seq<seq<Key>>, i: nat, j: nat, n: nat, hash: Key -> int)
    requires 0 < n && |all| <= n && i <= j <= |frames| && NoRepetitions(frames)
    requires forall f :: 0 <= f < |frames| ==> KeySet(frames[f]) <= all
    ensures OnlyExtended(Run(map[], frames[..i], n, hash), Run(map[], frames[..j], n, hash), all)
  {
    var before := Run(map[], frames[..i], n, hash);
    if i == j {
      SeenAreAmong(frames[..i], all);
      RunOnlyExtends(all, map[], frames[..i], n, hash);
    } else {
      LaterTablesExtend(all, frames, i, j - 1, n, hash);
      NextTableExtends(all, frames, j - 1, n, hash);
      ExtendedTwice(before, Run(map[], frames[..j - 1], n, hash), Run(map[], frames[..j], n, hash), all);
    }
  }

  /** The index given in a frame is that which the key has at the end of the run. */
  lemma IndexIsFinal(all: set<Key>, frames: seq<seq<Key>>, f: nat, p: nat, n: nat, hash: Key -> int)
    requires 0 < n && |all| <= n && f < |frames| && p < |frames[f]| && NoRepetitions(frames)
    requires forall f :: 0 <= f < |frames| ==> KeySet(frames[f]) <= all
    ensures var last := Run(map[], frames, n, hash);
            && Injective(last) && frames[f][p] in last
            && Frame(Run(map[], frames[..f], n, hash), frames[f], n, hash).indices[p] == last[frames[f][p]]
  {
    var before := Run(map[], frames[..f], n, hash);
    LaterTablesExtend(all, frames, f, f, n, hash);
    FrameOnlyExtends(all, before, frames[f], n, hash);
    assert frames[..f + 1][..f] == frames[..f];
    LaterTablesExtend(all, frames, f + 1, |frames|, n, hash);
    assert frames[..|frames|] == frames;
  }

  lemma KeysOfAFrame(all: set<Key>, boxes: seq<Detection>)
    requires forall i :: 0 <= i < |boxes| && boxes[i].ideal == 0 ==> PaletteKey(boxes[i]) in all
    requires forall i, j :: 0 <= i < j < |boxes| && boxes[i].ideal == boxes[j].ideal == 0 ==> PaletteKey(boxes[i]) != PaletteKey(boxes[j])
    ensures KeySet(KeysOf(boxes)) <= all && Distinct(KeysOf(boxes))
  {
    var keys, positions := KeysOf(boxes), NonIdeal(boxes, |boxes|);
    NonIdealPositions(boxes, |boxes|);
    assert forall p :: 0 <= p < |keys| ==> keys[p] == PaletteKey(boxes[positions[p]]);
  }

  /** Stability of the boxes. While the palette has an index for every identity of the run, and no identity has
      two boxes in one frame: two boxes, in whichever frames, have the same index if and only if they show one
      enrolled face, however it moved in between, or two unknown ones in one cell. */
  lemma SameIndexIff(all: set<Key>, frames: seq<seq<Detection>>, f: nat, p: nat, g: nat, q: nat, n: nat, hash: Key -> int)
    requires 0 < n && |all| <= n
    requires forall h, i, j :: 0 <= h < |frames| && 0 <= i < j < |frames[h]| && frames[h][i].ideal == frames[h][j].ideal == 0 ==>
               PaletteKey(frames[h][i]) != PaletteKey(frames[h][j])
    requires forall h, i :: 0 <= h < |frames| && 0 <= i < |frames[h]| && frames[h][i].ideal == 0 ==> PaletteKey(frames[h][i]) in all
    requires f < |frames| && p < |NonIdeal(frames[f], |frames[f]|)|
    requires g < |frames| && q < |NonIdeal(frames[g], |frames[g]|)|
    ensures var a, b := frames[f][NonIdeal(frames[f], |frames[f]|)[p]], frames[g][NonIdeal(frames[g], |frames[g]|)[q]];
            IndexIn(frames, f, p, n, hash) == IndexIn(frames, g, q, n, hash) <==>
            a.faceId == b.faceId && (a.faceId == 0 ==> a.x1 / 48 == b.x1 / 48 && a.y1 / 48 == b.y1 / 48)
  {
    var keys := AllKeys(frames);
    forall h | 0 <= h < |keys|
      ensures KeySet(keys[h]) <= all && Distinct(keys[h])
    {
      KeysOfAFrame(all, frames[h]);
    }
    IndexIsFinal(all, keys, f, p, n, hash);
    IndexIsFinal(all, keys, g, q, n, hash);
    OneKeyIff(frames[f][NonIdeal(frames[f], |frames[f]|)[p]], frames[g][NonIdeal(frames[g], |frames[g]|)[q]]);
  }

  class Palette {
    const colors: seq<Color>
    const idealColor: Color
    const hash: Key -> int
    var keyToIndex: map<Key, int>

    ghost predicate Valid()
      reads this
    {
      |colors| > 0 && InRange(keyToIndex, |colors|)
    }

    constructor (colors: seq<Color>, idealColor: Color, hash: Key -> int)
      requires |colors| > 0
      ensures Valid() && keyToIndex == map[]
      ensures this.colors == colors && this.idealColor == idealColor && this.hash == hash
    {
      this.colors, this.idealColor, this.hash, keyToIndex := colors, idealColor, hash, map[];
    }

    method FirstFreePaletteIndex(used: set<int>, n: nat, key: Key) returns (index: int)
      requires n > 0
      ensures index == FirstFree(used, n, hash(key))
    {
      for j := 0 to n
        invariant FirstFree(used, n, hash(key)) == FirstFreeFrom(used, n, hash(key), j)
      {
        if j !in used {
          return j;
        }
      }
      index := hash(key) % n;
    }

    /** The index for one box, given those that the boxes before it in the frame have. */
    method IndexFor(key: Key, usedThisFrame: set<int>, ghost a: Allocation) returns (index: int)
      requires Valid() && keyToIndex == a.table && usedThisFrame == Used(a.indices)
      modifies this`keyToIndex
      ensures Served(a, key, |colors|, hash) == Allocation(keyToIndex, a.indices + [index])
    {
      var n := |colors|;
      if key !in keyToIndex {
        var free := FirstFreePaletteIndex(keyToIndex.Values, n, key);
        keyToIndex := keyToIndex[key := free];
      }
      index := keyToIndex[key];
      if index in usedThisFrame {
        index := FirstFreePaletteIndex(usedThisFrame, n, key);
        keyToIndex := keyToIndex[key := index];
      }
    }

    method AssignColors(boxes: seq<Detection>, positions: seq<nat>) returns (byIndex: map<nat, Color>)
      requires Valid() && positions == NonIdeal(boxes, |boxes|)
      modifies this`keyToIndex
      ensures Valid()
      ensures keyToIndex == Frame(old(keyToIndex), KeysOf(boxes), |colors|, hash).table
      ensures Painted(byIndex, positions, colors, Frame(old(keyToIndex), KeysOf(boxes), |colors|, hash).indices)
    {
      ghost var table, keys := keyToIndex, KeysOf(boxes);
      ghost var a := Allocation(table, []);
      NonIdealPositions(boxes, |boxes|);
      var usedThisFrame: set<int> := {};
      byIndex := map[];
      for p := 0 to |positions|
        invariant Valid() && a == Frame(table, keys[..p], |colors|, hash)
        invariant a.table == keyToIndex && Used(a.indices) == usedThisFrame
        invariant Painted(byIndex, positions, colors, a.indices)
      {
        var key := PaletteKey(boxes[positions[p]]);
        FrameNext(table, keys, p, |colors|, hash);
        ServedStaysInRange(a, key, |colors|, hash);
        var index := IndexFor(key, usedThisFrame, a);
        UsedAppend(a.indices, index);
        PaintNext(byIndex, positions, colors, a.indices, index);
        a := Allocation(keyToIndex, a.indices + [index]);
        usedThisFrame := usedThisFrame + {index};
        byIndex := byIndex[positions[p] := colors[index]];
      }
      assert keys[..|positions|] == keys;
    }

    /** One colour per box, in order. */
    method Collect(boxes: seq<Detection>, byIndex: map<nat, Color>) returns (out: seq<Color>)
      requires forall i :: 0 <= i < |boxes| && boxes[i].ideal == 0 ==> i in byIndex
      ensures Painting(boxes, out, byIndex, idealColor)
    {
      out := [];
      for i := 0 to |boxes|
        invariant Painting(boxes[..i], out, byIndex, idealColor)
      {
        out := out + [if boxes[i].ideal != 0 then idealColor else byIndex[i]];
      }
    }

    method ColorsForFrame(boxes: seq<Detection>) returns (out: seq<Color>)
      requires Valid()
      modifies this`keyToIndex
      ensures Valid()
      ensures keyToIndex == Frame(old(keyToIndex), KeysOf(boxes), |colors|, hash).table
      ensures |out| == |boxes|
      ensures forall i :: 0 <= i < |boxes| && boxes[i].ideal != 0 ==> out[i] == idealColor
      ensures var positions, indices := NonIdeal(boxes, |boxes|), Frame(old(keyToIndex), KeysOf(boxes), |colors|, hash).indices;
              forall p :: 0 <= p < |positions| ==> 0 <= indices[p] < |colors| && out[positions[p]] == colors[indices[p]]
    {
      NonIdealPositions(boxes, |boxes|);
      var positions := NonIdeal(boxes, |boxes|);
      var byIndex := AssignColors(boxes, positions);
      out := Collect(boxes, byIndex);
    }
  }
}
