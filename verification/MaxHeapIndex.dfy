/**
 The MaxHeap index as the program runs it: node bounds and buckets in flat
 storage, a next-free-slot counter per bucket, and loops over array positions.
 Every operation is proved to compute the corresponding step of `MaxHeap.Heap`.
 */
module MaxHeapIndex {
  import opened MaxHeap
  import opened Wrappers

  class MaxHeapIndex {
    const hash: Word -> Word
    const heapStorage: array<HeapNode>
    const bucketStorage: array<Pair>
    const nextFreeSlot: array<nat>

    /** The written part of a bucket. */
    ghost function Bucket(b: nat): (s: seq<Pair>)
      requires Sized() && b < NODE_LIMIT && nextFreeSlot[b] <= BUCKET_SIZE
      reads nextFreeSlot, bucketStorage
      ensures |s| == nextFreeSlot[b]
    {
      bucketStorage[BUCKET_SIZE * b..BUCKET_SIZE * b + nextFreeSlot[b]]
    }

    predicate Sized() {
      && heapStorage.Length == NODE_LIMIT
      && nextFreeSlot.Length == NODE_LIMIT
      && bucketStorage.Length == NODE_LIMIT * BUCKET_SIZE
    }

    ghost predicate Counted()
      reads nextFreeSlot
    {
      Sized() && forall b :: 0 <= b < NODE_LIMIT ==> nextFreeSlot[b] <= BUCKET_SIZE
    }

    /** The abstract heap that the storage represents. */
    ghost function State(): (h: Heap)
      requires Counted()
      reads heapStorage, bucketStorage, nextFreeSlot
      ensures |h.nodes| == NODE_LIMIT && |h.buckets| == NODE_LIMIT
    {
      Heap(heapStorage[..],
           seq(NODE_LIMIT, b requires 0 <= b < NODE_LIMIT && Counted()
                             reads bucketStorage, nextFreeSlot => Bucket(b)))
    }

    function Slot(b: nat, k: nat): Pair
      requires Sized() && b < NODE_LIMIT && k < BUCKET_SIZE
      reads bucketStorage
    {
      bucketStorage[BUCKET_SIZE * b + k]
    }

    /** Slots past the written part of a bucket still read as zeroes. */
    ghost predicate Blank()
      requires Counted()
      reads bucketStorage, nextFreeSlot
    {
      forall b, k :: 0 <= b < NODE_LIMIT && nextFreeSlot[b] <= k < BUCKET_SIZE ==> Slot(b, k) == EMPTY_PAIR
    }

    ghost predicate Valid()
      reads heapStorage, bucketStorage, nextFreeSlot
    {
      Counted() && Blank() && Inv(State(), hash)
    }

    constructor Create(h: Word -> Word)
      ensures Valid() && State() == MaxHeap.Create() && hash == h
      ensures fresh(heapStorage) && fresh(bucketStorage) && fresh(nextFreeSlot)
    {
      hash := h;
      heapStorage := new HeapNode[NODE_LIMIT](_ => EMPTY_NODE);
      bucketStorage := new Pair[NODE_LIMIT * BUCKET_SIZE](_ => EMPTY_PAIR);
      nextFreeSlot := new nat[NODE_LIMIT](_ => 0);
      new;
      var slot := HeapInsert(KEY_MIN, KEY_MAX);
      assert State().nodes == MaxHeap.Create().nodes;
      assert State() == MaxHeap.Create();
      CreateInv(hash);
    }

    /** Writes the interval into the first empty node that the descent reaches. */
    method HeapInsert(min: Word, max: Word) returns (slot: int)
      requires Counted()
      modifies heapStorage
      ensures slot == (if min > max then -1 else FindSlot(old(heapStorage[..]), 0, min, max))
      ensures -1 <= slot < NODE_LIMIT
      ensures heapStorage[..] == if slot < 0 then old(heapStorage[..])
                                 else old(heapStorage[..])[slot := HeapNode(min, max)]
    {
      if min > max {
        return -1;
      }
      var i := 0;
      while i < NODE_LIMIT
        invariant 0 <= i
        invariant heapStorage[..] == old(heapStorage[..])
        invariant FindSlot(heapStorage[..], 0, min, max) == FindSlot(heapStorage[..], i, min, max)
      {
        var node := heapStorage[i];
        if node == EMPTY_NODE {
          heapStorage[i] := HeapNode(min, max);
          return i;
        } else if node.min <= min && max <= node.max {
          i := 2 * i + 1;
        } else {
          i := i + 1;
        }
      }
      return -1;
    }

    /** The first node from `cursor` on that holds the hashed key, and the
        cursor for the search below it. */
    method HeapFind(key: Word, cursor: nat) returns (found: int, next: nat)
      requires Counted()
      ensures found == FindFrom(heapStorage[..], cursor, hash(key))
      ensures -1 <= found < NODE_LIMIT
      ensures next == if found < 0 then cursor else 2 * found + 1
    {
      var hashedKey := hash(key);
      var i := cursor;
      while i < NODE_LIMIT
        invariant FindFrom(heapStorage[..], cursor, hashedKey) == FindFrom(heapStorage[..], i, hashedKey)
      {
        var node := heapStorage[i];
        if node == EMPTY_NODE {
          return -1, cursor;
        } else if node.min <= hashedKey && hashedKey <= node.max {
          var firstChild := 2 * i + 1;
          if firstChild >= NODE_LIMIT {
            return -1, cursor;
          }
          return i, firstChild;
        } else {
          i := i + 1;
        }
      }
      return -1, cursor;
    }

    /** Appends to a bucket unless it is full. */
    method BucketAppend(b: nat, pair: Pair) returns (ok: bool)
      requires Counted() && Blank() && b < NODE_LIMIT
      modifies bucketStorage, nextFreeSlot
      ensures Counted() && Blank()
      ensures ok == (|old(State()).buckets[b]| < BUCKET_SIZE)
      ensures State() == if ok then Append(old(State()), b, pair) else old(State())
    {
      if nextFreeSlot[b] >= BUCKET_SIZE {
        return false;
      }
      ghost var before := State();
      ghost var used := nextFreeSlot[b];
      var offset := BUCKET_SIZE * b + nextFreeSlot[b];
      bucketStorage[offset] := pair;
      nextFreeSlot[b] := nextFreeSlot[b] + 1;
      forall c, k | 0 <= c < NODE_LIMIT && 0 <= k < BUCKET_SIZE && (c != b || k != used)
        ensures Slot(c, k) == old(Slot(c, k))
      {
        SlotsDiffer(b, used, c, k);
      }
      forall c | 0 <= c < NODE_LIMIT
        ensures Bucket(c) == Append(before, b, pair).buckets[c]
      {
        assert forall k :: 0 <= k < nextFreeSlot[c] ==> Bucket(c)[k] == Slot(c, k);
        assert forall k :: 0 <= k < |before.buckets[c]| ==> before.buckets[c][k] == old(Slot(c, k));
      }
      assert State().buckets == Append(before, b, pair).buckets;
      ok := true;
    }

    /** Gives the two halves of a full bucket's interval to new nodes. */
    method BucketSplit(b: nat) returns (ok: bool)
      requires Valid() && b < 255 && Open(State(), b) && Full(State(), b)
      requires Open(State(), 2 * b + 1) ==> 2 * b + 1 >= 255
      modifies heapStorage
      ensures Counted() && Blank()
      ensures ok == !Open(old(State()), 2 * b + 1)
      ensures State() == if ok then OpenChildren(old(State()), b) else old(State())
    {
      hide Interval, Level, FindSlot, Inv, Bucket, Blank;
      ghost var before := State();
      SplitSlots(before, hash, b);
      var node := heapStorage[b];
      var mean := node.min + (node.max - node.min) / 2;
      var small := HeapInsert(node.min, mean);
      if small < 0 {
        return false;
      }
      var large := HeapInsert(mean + 1, node.max);
      if large < 0 {
        return false;
      }
      assert heapStorage[..] == OpenChildren(before, b).nodes;
      assert State().buckets == before.buckets;
      ok := true;
    }

    /** The deepest node for the key, found by repeated heap_find calls. */
    method FindHome(key: Word) returns (home: nat, cursor: nat)
      requires Valid()
      ensures home < 255 && home == Home(State(), hash(key), 0)
      ensures Open(State(), home) && Contains(Interval(home), hash(key)) && DeadEnd(State(), hash(key), home)
      ensures cursor == 2 * home + 1
    {
      hide Interval, Level, Mean, Child, PathNode, FindFrom, Inv, Bucket, Blank;
      ghost var h := State();
      ghost var x := hash(key);
      RootCovers(x);
      FindFromRoot(h, hash, x);
      var bucketId, heapIterator := HeapFind(key, 0);
      var lastGood := bucketId;
      while bucketId >= 0
        invariant 0 <= lastGood < 255 && Open(h, lastGood) && Contains(Interval(lastGood), x)
        invariant Home(h, x, 0) == Home(h, x, lastGood)
        invariant heapIterator == 2 * lastGood + 1
        invariant bucketId >= 0 ==> bucketId == lastGood
        invariant bucketId < 0 ==> DeadEnd(h, x, lastGood)
        decreases bucketId >= 0, 255 - lastGood
      {
        FindFromChildren(h, hash, lastGood, x);
        ChildCovers(lastGood, x);
        bucketId, heapIterator := HeapFind(key, heapIterator);
        if bucketId >= 0 {
          lastGood := bucketId;
        }
      }
      home, cursor := lastGood, heapIterator;
    }

    /** Splits the full bucket `b` and selects one of the new buckets; -1 when the
        array has no room for a searchable one. */
    method SplitAndFind(b: nat, key: Word, cursor: nat) returns (child: int)
      requires Valid() && b < 255 && Open(State(), b) && Full(State(), b)
      requires Contains(Interval(b), hash(key)) && DeadEnd(State(), hash(key), b) && cursor == 2 * b + 1
      modifies heapStorage
      ensures Counted() && Blank()
      ensures State() == if Open(old(State()), 2 * b + 1) then old(State()) else OpenChildren(old(State()), b)
      ensures child == if Open(old(State()), 2 * b + 1) || Child(b, hash(key)) >= 255 then -1 else Child(b, hash(key))
    {
      hide Interval, Level, Mean, Child, PathNode, FindFrom, Inv, Bucket, Blank;
      ghost var before := State();
      DeadEndIsBottom(before, hash, b, hash(key));
      var split := BucketSplit(b);
      if !split {
        return -1;
      }
      OpenChildrenInv(before, hash, b);
      FindFromChildren(State(), hash, b, hash(key));
      var found, _ := HeapFind(key, cursor);
      child := found;
    }

    /** Stores a pair: descend to the deepest node for the key, split it if full. */
    method InsertItem(key: Word, value: Word) returns (ok: bool)
      requires Valid()
      modifies heapStorage, bucketStorage, nextFreeSlot
      ensures Valid()
      ensures (State(), ok) == Insert(old(State()), hash, Pair(key, value))
    {
      hide Interval, Level, Mean, Child, Contains, PathNode, FindFrom, Inv, Bucket, Blank, Home, Insert, Append;
      ghost var before := State();
      ghost var p := Pair(key, value);
      InsertCorrect(before, hash, p);
      InsertCases(before, hash, p);
      var bucketId, heapIterator := FindHome(key);
      if nextFreeSlot[bucketId] == BUCKET_SIZE {
        OpenChildrenInvIfClosed(before, hash, bucketId);
        var child := SplitAndFind(bucketId, key, heapIterator);
        if child < 0 {
          return false;
        }
        bucketId := child;
      }
      ok := BucketAppend(bucketId, Pair(key, value));
    }

    /** Reads a bucket from storage and counts its used slots when the count is
        not known. */
    method BucketLoad(b: nat) returns (bucket: seq<Pair>)
      requires Valid() && b < NODE_LIMIT
      modifies nextFreeSlot
      ensures Valid() && State() == old(State())
      ensures |bucket| >= nextFreeSlot[b] && bucket[..nextFreeSlot[b]] == State().buckets[b]
    {
      ghost var before := State();
      var size := if nextFreeSlot[b] == 0 then BUCKET_SIZE else nextFreeSlot[b];
      bucket := bucketStorage[BUCKET_SIZE * b..BUCKET_SIZE * b + size];
      if nextFreeSlot[b] == 0 {
        assert Slot(b, 0) == EMPTY_PAIR;
        var used := CountUsed(bucket);
        nextFreeSlot[b] := used;
      }
      assert State().buckets == before.buckets;
    }

    /** The downward path of nodes that could hold the key. */
    method VisitPath(key: Word) returns (visited: seq<nat>, end: int)
      requires Valid()
      ensures end == |visited| - 1 && OnPath(State(), hash(key), visited)
      ensures DeadEnd(State(), hash(key), visited[end])
    {
      hide Interval, Level, Mean, Child, PathNode, FindFrom, Inv, Bucket, Blank;
      ghost var h := State();
      ghost var x := hash(key);
      RootCovers(x);
      RootFacts(x);
      FindFromRoot(h, hash, x);
      visited, end := [], 8;
      var i, cursor := 0, 0;
      while i < 9
        invariant 0 <= i <= 8 && |visited| == i
        invariant i > 0 ==> OnPath(h, x, visited) && Level(visited[i - 1]) == i - 1
        invariant i > 0 ==> cursor == 2 * visited[i - 1] + 1
        invariant i == 0 ==> cursor == 0
        decreases 9 - i
      {
        if i > 0 {
          FindFromChildren(h, hash, visited[i - 1], x);
          ChildCovers(visited[i - 1], x);
        }
        var b, next := HeapFind(key, cursor);
        if b < 0 {
          end := i - 1;
          break;
        }
        LevelInArray(b);
        visited, cursor := visited + [b], next;
        i := i + 1;
      }
    }

    /** get_next on a fresh cursor for `key`: collect the path, then scan its
        buckets from the deepest one up. */
    method GetFirst(key: Word) returns (r: Option<Word>)
      requires Valid()
      modifies nextFreeSlot
      ensures Valid() && State() == old(State())
      ensures r == Lookup(State(), hash(key), key, 0)
    {
      hide Interval, Level, Mean, PathNode, FindFrom, Inv, Bucket, Blank;
      ghost var before := State();
      ghost var x := hash(key);
      var visited, end := VisitPath(key);
      var k := end;
      while k >= 0
        invariant -1 <= k <= end
        invariant Valid() && State() == before
        invariant k < end ==> Lookup(before, x, key, visited[k + 1]) == None
      {
        var bucket := BucketLoad(visited[k]);
        var found := ScanBucket(bucket[..nextFreeSlot[visited[k]]], key);
        if found.Some? {
          LookupUp(before, x, key, visited, k);
          return found;
        }
        k := k - 1;
      }
      return None;
    }
  }

  /** Sequential search in a bucket. */
  method ScanBucket(bucket: seq<Pair>, key: Word) returns (r: Option<Word>)
    ensures r == FirstIn(bucket, key)
  {
    var s := 0;
    while s < |bucket|
      invariant 0 <= s <= |bucket|
      invariant FirstIn(bucket, key) == FirstIn(bucket[s..], key)
    {
      if bucket[s].key == key {
        return Some(bucket[s].value);
      }
      assert bucket[s..][1..] == bucket[s + 1..];
      s := s + 1;
    }
    return None;
  }

  /** Number of leading slots in use. */
  method CountUsed(bucket: seq<Pair>) returns (n: nat)
    ensures n <= |bucket| && forall k :: 0 <= k < n ==> bucket[k] != EMPTY_PAIR
    ensures n < |bucket| ==> bucket[n] == EMPTY_PAIR
  {
    n := 0;
    while n < |bucket| && bucket[n] != EMPTY_PAIR
      invariant n <= |bucket| && forall k :: 0 <= k < n ==> bucket[k] != EMPTY_PAIR
    {
      n := n + 1;
    }
  }

  lemma SlotsDiffer(b: nat, j: nat, c: nat, k: nat)
    requires j < BUCKET_SIZE && k < BUCKET_SIZE && (b != c || j != k)
    ensures BUCKET_SIZE * b + j != BUCKET_SIZE * c + k
  {
  }

  ghost predicate DeadEnd(h: Heap, x: int, i: nat) {
    var c := Child(i, x);
    !(c < 255 && Open(h, c))
  }

  lemma DeadEndIsBottom(h: Heap, hash: Word -> Word, b: nat, x: int)
    requires Inv(h, hash) && b < 255 && DeadEnd(h, x, b)
    ensures Open(h, 2 * b + 1) ==> 2 * b + 1 >= 255
  {
    hide Interval;
    assert NodeOk(h, 2 * b + 1);
  }

  lemma OpenChildrenInvIfClosed(h: Heap, hash: Word -> Word, b: nat)
    requires Inv(h, hash) && b < 255 && Full(h, b)
    ensures !Open(h, 2 * b + 1) ==> h.buckets[2 * b + 1] == [] && h.buckets[2 * b + 2] == []
  {
    if !Open(h, 2 * b + 1) {
      OpenChildrenInv(h, hash, b);
    }
  }

  lemma InsertCases(h: Heap, hash: Word -> Word, p: Pair)
    requires |h.nodes| == NODE_LIMIT && |h.buckets| == NODE_LIMIT
    ensures var b := Home(h, hash(p.key), 0);
            var c := Child(b, hash(p.key));
            var split := if Open(h, 2 * b + 1) then h else OpenChildren(h, b);
            Insert(h, hash, p) ==
            if |h.buckets[b]| < BUCKET_SIZE then (Append(h, b, p), true)
            else if Open(h, 2 * b + 1) || c >= 255 then (split, false)
            else (Append(split, c, p), true)
  {
  }

  lemma ChildCovers(i: nat, x: int)
    requires i < 255 && Contains(Interval(i), x)
    ensures Contains(Interval(Child(i, x)), x) && Level(Child(i, x)) == Level(i) + 1
  {
    LevelInArray(i);
    ChildrenPartition(i, x);
  }

  /** heap_insert puts the two halves of a leaf's interval into its two children,
      and refuses when they are already in use. */
  lemma SplitSlots(h: Heap, hash: Word -> Word, b: nat)
    requires Inv(h, hash) && b < 255 && Open(h, b)
    requires Open(h, 2 * b + 1) ==> 2 * b + 1 >= 255
    ensures var n := Interval(b);
            var slot := FindSlot(h.nodes, 0, n.min, Mean(n));
            && h.nodes[b] == n && Mean(n) < n.max
            && Interval(2 * b + 1) == HeapNode(n.min, Mean(n))
            && Interval(2 * b + 2) == HeapNode(Mean(n) + 1, n.max)
            && (if Open(h, 2 * b + 1) then slot == -1
                else
                  && slot == 2 * b + 1
                  && FindSlot(h.nodes[2 * b + 1 := Interval(2 * b + 1)], 0, Mean(n) + 1, n.max) == 2 * b + 2)
  {
    hide Interval, Level, PathNode, Mean;
    var n := Interval(b);
    LevelInArray(b);
    ChildrenPartition(b, n.min);
    MeanBounds(n);
    FirstSlot(h, hash, b);
    if !Open(h, 2 * b + 1) {
      SecondSlot(h, hash, b);
    }
  }

  lemma MeanBounds(n: HeapNode)
    requires n.min < n.max
    ensures n.min <= Mean(n) < n.max
  {
  }

  lemma FirstSlot(h: Heap, hash: Word -> Word, b: nat)
    requires Inv(h, hash) && b < 255 && Open(h, b) && Level(b) <= 7
    requires Open(h, 2 * b + 1) ==> 2 * b + 1 >= 255
    requires Interval(b).min < Interval(b).max
    requires Interval(2 * b + 1) == HeapNode(Interval(b).min, Mean(Interval(b)))
    ensures h.nodes[b] == Interval(b)
    ensures FindSlot(h.nodes, 0, Interval(b).min, Mean(Interval(b))) == if Open(h, 2 * b + 1) then -1 else 2 * b + 1
  {
    hide Interval, Level, PathNode, Mean;
    var n := Interval(b);
    MeanBounds(n);
    assert NodeOk(h, b) && NodeOk(h, 2 * b + 1);
    RootFacts(n.min);
    SlotDescends(h, hash, h.nodes, 0, b, n.min, Mean(n));
  }

  lemma SecondSlot(h: Heap, hash: Word -> Word, b: nat)
    requires Inv(h, hash) && b < 255 && Open(h, b) && Level(b) <= 7 && !Open(h, 2 * b + 1)
    requires Interval(b).min < Interval(b).max
    requires Interval(2 * b + 1) == HeapNode(Interval(b).min, Mean(Interval(b)))
    ensures FindSlot(h.nodes[2 * b + 1 := Interval(2 * b + 1)], 0, Mean(Interval(b)) + 1, Interval(b).max) == 2 * b + 2
  {
    hide Interval, Level, PathNode, Mean;
    var n := Interval(b);
    MeanBounds(n);
    assert NodeOk(h, 2 * b + 2) && (2 * b + 2 - 1) / 2 == b;
    RootFacts(Mean(n) + 1);
    var ns := h.nodes[2 * b + 1 := Interval(2 * b + 1)];
    SlotDescends(h, hash, ns, 0, b, Mean(n) + 1, n.max);
    LevelInArray(2 * b + 1);
    IntervalIsNotEmpty(2 * b + 1);
  }

  /** A hit at depth `k` of the path is the result of the whole lookup. */
  lemma {:induction false} LookupUp(h: Heap, x: int, key: Word, visited: seq<int>, k: nat)
    requires |h.buckets| == NODE_LIMIT && OnPath(h, x, visited) && k < |visited|
    requires Lookup(h, x, key, visited[k]).Some?
    ensures Lookup(h, x, key, 0) == Lookup(h, x, key, visited[k])
  {
    if k > 0 {
      assert visited[k] == Child(visited[k - 1], x);
      LookupUp(h, x, key, visited, k - 1);
    }
  }

  /** `visited` are consecutive path nodes for `x` starting at the root. */
  ghost predicate OnPath(h: Heap, x: int, visited: seq<int>) {
    && |visited| > 0 && visited[0] == 0
    && (forall i :: 0 <= i < |visited| ==> 0 <= visited[i] < 255 && Open(h, visited[i]) && Contains(Interval(visited[i]), x))
    && (forall i :: 1 <= i < |visited| ==> visited[i] == Child(visited[i - 1], x))
  }
}
