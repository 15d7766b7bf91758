/**
 The MaxHeap index of Antelope as a value: a binary tree of key intervals packed
 into an array, with a small bucket of (key, value) pairs at each node.

 A node is empty when both of its bounds are zero. Nodes are filled from the root
 downwards: when a bucket is full, its interval is divided between two children.
 The search never descends to a node whose own children would lie outside the
 array, so the bottom level of the array never receives pairs.
 */
module MaxHeap {
  import opened Wrappers

  const BUCKET_SIZE: nat := 128
  const NODE_LIMIT: nat := 511
  const KEY_MIN := 0
  const KEY_MAX := 65535

  type Word = x: int | 0 <= x < 65536

  datatype HeapNode = HeapNode(min: Word, max: Word)
  datatype Pair = Pair(key: Word, value: Word)
  const EMPTY_NODE := HeapNode(0, 0)
  const EMPTY_PAIR := Pair(0, 0)

  /** Nodes and bucket contents, both indexed by node number. */
  datatype Heap = Heap(nodes: seq<HeapNode>, buckets: seq<seq<Pair>>)

  // ---------------------------------------------------------------------------
  // Geometry of the array-packed tree
  // ---------------------------------------------------------------------------

  function Mean(n: HeapNode): Word
    requires n.min <= n.max
  {
    n.min + (n.max - n.min) / 2
  }

  /** The interval that the tree position `i` stands for. */
  function Interval(i: nat): (n: HeapNode)
    ensures n.min <= n.max
  {
    if i == 0 then HeapNode(KEY_MIN, KEY_MAX)
    else
      var p := Interval((i - 1) / 2);
      if p.min == p.max then p   // deeper than sixteen levels; never reached in the array
      else if i % 2 == 1 then HeapNode(p.min, Mean(p))
      else HeapNode(Mean(p) + 1, p.max)
  }

  lemma RootCovers(x: Word)
    ensures Contains(Interval(0), x)
  {
  }

  lemma RootFacts(x: int)
    ensures Level(0) == 0 && PathNode(x, 0) == 0
    ensures Interval(0).min == Start(0 - Leftmost(0), Width(0))
  {
  }

  predicate Contains(n: HeapNode, x: int) {
    n.min <= x <= n.max
  }

  function Level(i: nat): nat {
    if i == 0 then 0 else Level((i - 1) / 2) + 1
  }

  /** Number of keys in an interval at `level`. */
  function Width(level: nat): nat {
    if level == 0 then 65536 else Width(level - 1) / 2
  }

  /** Array position of the leftmost node at `level`. */
  function Leftmost(level: nat): nat {
    if level == 0 then 0 else 2 * Leftmost(level - 1) + 1
  }

  /** The child of `i` whose interval holds `x`. */
  function Child(i: nat, x: int): (c: nat)
    ensures c == 2 * i + 1 || c == 2 * i + 2
  {
    if x <= Mean(Interval(i)) then 2 * i + 1 else 2 * i + 2
  }

  /** The node at `level` on the way from the root to `x`. */
  function PathNode(x: int, level: nat): nat {
    if level == 0 then 0 else Child(PathNode(x, level - 1), x)
  }

  lemma {:induction false} LevelBounds(i: nat)
    ensures Leftmost(Level(i)) <= i < Leftmost(Level(i) + 1)
  {
    if i > 0 {
      LevelBounds((i - 1) / 2);
    }
  }

  lemma {:induction false} LeftmostMonotone(a: nat, b: nat)
    requires a <= b
    ensures Leftmost(a) <= Leftmost(b)
    decreases b
  {
    if a < b {
      LeftmostMonotone(a, b - 1);
    }
  }

  lemma LevelTable()
    ensures Leftmost(7) == 127 && Leftmost(8) == 255 && Leftmost(9) == 511
    ensures Width(7) == 512 && Width(8) == 256 && Width(9) == 128
  {
    assert Leftmost(3) == 7;
    assert Leftmost(6) == 63;
    assert Width(3) == 8192;
    assert Width(6) == 1024;
  }

  lemma LevelInArray(i: nat)
    ensures i < NODE_LIMIT <==> Level(i) <= 8
    ensures i < 255 <==> Level(i) <= 7
  {
    LevelTable();
    LevelBounds(i);
    if Level(i) <= 7 { LeftmostMonotone(Level(i) + 1, 8); }
    if Level(i) <= 8 { LeftmostMonotone(Level(i) + 1, 9); }
    if Level(i) >= 8 { LeftmostMonotone(8, Level(i)); }
    if Level(i) >= 9 { LeftmostMonotone(9, Level(i)); }
  }

  lemma {:induction false} WidthIsEven(level: nat)
    requires level <= 9
    ensures Width(level) > 1 && Width(level) % 2 == 0
  {
    LevelTable();
    assert Width(0) == 65536 && Width(1) == 32768 && Width(2) == 16384 && Width(3) == 8192;
    assert Width(4) == 4096 && Width(5) == 2048 && Width(6) == 1024;
  }

  lemma {:induction false} IntervalWidth(i: nat)
    requires Level(i) <= 9
    ensures Interval(i).max - Interval(i).min + 1 == Width(Level(i))
  {
    if i > 0 {
      var p := (i - 1) / 2;
      IntervalWidth(p);
      WidthIsEven(Level(p));
    }
  }

  /** The two children of a node divide its interval between them. */
  lemma ChildrenPartition(i: nat, x: int)
    requires Level(i) <= 8
    ensures Level(2 * i + 1) == Level(i) + 1 && Level(2 * i + 2) == Level(i) + 1
    ensures Interval(2 * i + 1) == HeapNode(Interval(i).min, Mean(Interval(i)))
    ensures Mean(Interval(i)) + 1 < 65536
    ensures Interval(2 * i + 2) == HeapNode(Mean(Interval(i)) + 1, Interval(i).max)
    ensures Contains(Interval(i), x) <==> Contains(Interval(2 * i + 1), x) || Contains(Interval(2 * i + 2), x)
    ensures !(Contains(Interval(2 * i + 1), x) && Contains(Interval(2 * i + 2), x))
    ensures Contains(Interval(i), x) ==> Contains(Interval(Child(i, x)), x)
    ensures Interval(i).min < Interval(i).max
  {
    IntervalWidth(i);
    WidthIsEven(Level(i));
    assert (2 * i + 1 - 1) / 2 == i && (2 * i + 2 - 1) / 2 == i;
  }

  /** Every array position stands for a dyadic interval: the j-th node of a level
      covers the j-th run of `Width` consecutive keys. */
  lemma {:induction false} IntervalIsDyadic(i: nat)
    requires Level(i) <= 8
    ensures Interval(i).min == Start(i - Leftmost(Level(i)), Width(Level(i)))
    ensures Interval(i).max == Interval(i).min + Width(Level(i)) - 1
  {
    hide Interval, Mean, Level, Width, Leftmost, Start;
    IntervalWidth(i);
    if i == 0 {
      RootFacts(0);
    } else {
      var p := (i - 1) / 2;
      LevelStep(i);
      IntervalIsDyadic(p);
      IntervalOfChild(p);
      Scale(p - Leftmost(Level(p)), Width(Level(i)));
      assert i == 2 * p + 1 || i == 2 * p + 2;
    }
  }

  lemma LevelStep(i: nat)
    requires i > 0
    ensures Level(i) == Level((i - 1) / 2) + 1
  {
  }

  lemma IntervalOfChild(p: nat)
    requires Level(p) <= 8
    ensures Level(2 * p + 1) == Level(2 * p + 2) == Level(p) + 1
    ensures Leftmost(Level(p) + 1) == 2 * Leftmost(Level(p)) + 1
    ensures Width(Level(p)) == 2 * Width(Level(p) + 1)
    ensures Interval(2 * p + 1).min == Interval(p).min
    ensures Interval(2 * p + 2).min == Interval(p).min + Width(Level(p) + 1)
  {
    WidthIsEven(Level(p));
    ChildrenPartition(p, 0);
    IntervalWidth(2 * p + 1);
  }

  /** First key of the j-th run of `w` keys. */
  function Start(j: int, w: int): int {
    j * w
  }

  lemma Scale(j: int, w: int)
    ensures Start(j, 2 * w) == Start(2 * j, w) && Start(2 * j + 1, w) == Start(j, 2 * w) + w
  {
  }

  lemma {:induction false} PathNodeLevel(x: int, level: nat)
    requires level <= 9 && Contains(Interval(0), x)
    ensures Level(PathNode(x, level)) == level && Contains(Interval(PathNode(x, level)), x)
  {
    hide Interval, Mean, Level, PathNode;
    if level == 0 {
      RootFacts(x);
    } else {
      PathNodeLevel(x, level - 1);
      ChildrenPartition(PathNode(x, level - 1), x);
      PathNext(x, level - 1);
    }
  }

  /** A node that covers `x` is the path node of its level, so intervals of one
      level are disjoint. */
  lemma {:induction false} CoveringNodeIsOnPath(i: nat, x: int)
    requires Level(i) <= 9 && Contains(Interval(i), x)
    ensures i == PathNode(x, Level(i))
  {
    hide Interval, Level, PathNode;
    if i == 0 {
      RootFacts(x);
    } else {
      var p := (i - 1) / 2;
      LevelStep(i);
      assert i == 2 * p + 1 || i == 2 * p + 2;
      ChildrenPartition(p, x);
      CoveringNodeIsOnPath(p, x);
      PathNext(x, Level(p));
    }
  }

  /** No interval of the array is mistaken for an empty node. */
  lemma IntervalIsNotEmpty(i: nat)
    requires Level(i) <= 8
    ensures Interval(i) != EMPTY_NODE
  {
    ChildrenPartition(i, 0);
  }

  // ---------------------------------------------------------------------------
  // The loops of heap_insert and heap_find
  // ---------------------------------------------------------------------------

  /** Slot chosen by heap_insert, scanning from `i`; -1 when it runs off the array. */
  function FindSlot(nodes: seq<HeapNode>, i: nat, min: int, max: int): int
    decreases |nodes| - i
  {
    if i >= |nodes| then -1
    else if nodes[i] == EMPTY_NODE then i
    else if nodes[i].min <= min && max <= nodes[i].max then FindSlot(nodes, 2 * i + 1, min, max)
    else FindSlot(nodes, i + 1, min, max)
  }

  /** Node chosen by heap_find, scanning from `i` for the hashed key `x`. */
  function FindFrom(nodes: seq<HeapNode>, i: nat, x: int): int
    decreases |nodes| - i
  {
    if i >= |nodes| then -1
    else if nodes[i] == EMPTY_NODE then -1
    else if Contains(nodes[i], x) then (if 2 * i + 1 >= |nodes| then -1 else i)
    else FindFrom(nodes, i + 1, x)
  }

  // ---------------------------------------------------------------------------
  // Heap operations
  // ---------------------------------------------------------------------------

  predicate Open(h: Heap, i: nat) {
    i < |h.nodes| && h.nodes[i] != EMPTY_NODE
  }

  /** The deepest node below `i` that the search for `x` reaches. */
  function Home(h: Heap, x: int, i: nat): (b: nat)
    requires i < 255
    ensures b < 255
    decreases 255 - i
  {
    var c := Child(i, x);
    if c < 255 && Open(h, c) then Home(h, x, c) else i
  }

  predicate Full(h: Heap, b: nat) {
    b < |h.buckets| && |h.buckets[b]| == BUCKET_SIZE
  }

  function Append(h: Heap, b: nat, p: Pair): Heap
    requires b < |h.buckets|
  {
    h.(buckets := h.buckets[b := h.buckets[b] + [p]])
  }

  function OpenChildren(h: Heap, b: nat): Heap
    requires 2 * b + 2 < |h.nodes|
  {
    h.(nodes := h.nodes[2 * b + 1 := Interval(2 * b + 1)][2 * b + 2 := Interval(2 * b + 2)])
  }

  /** insert_item: the new heap, and whether the pair was stored. */
  function Insert(h: Heap, hash: Word -> Word, p: Pair): (Heap, bool)
    requires |h.nodes| == NODE_LIMIT && |h.buckets| == NODE_LIMIT
  {
    var b := Home(h, hash(p.key), 0);
    if |h.buckets[b]| < BUCKET_SIZE then (Append(h, b, p), true)
    else if Open(h, 2 * b + 1) then (h, false)
    else
      var split := OpenChildren(h, b);
      var c := Child(b, hash(p.key));
      if c < 255 then (Append(split, c, p), true) else (split, false)
  }

  function Create(): Heap {
    Heap(seq(NODE_LIMIT, i => if i == 0 then Interval(0) else EMPTY_NODE), seq(NODE_LIMIT, i => []))
  }

  function FirstIn(bucket: seq<Pair>, key: Word): Option<Word> {
    if bucket == [] then None
    else if bucket[0].key == key then Some(bucket[0].value)
    else FirstIn(bucket[1..], key)
  }

  /** get_next on a fresh iterator: the buckets on the key's path, deepest first. */
  function Lookup(h: Heap, x: int, key: Word, i: nat): Option<Word>
    requires i < 255 && |h.buckets| == NODE_LIMIT
    decreases 255 - i
  {
    var c := Child(i, x);
    var below := if c < 255 && Open(h, c) then Lookup(h, x, key, c) else None;
    if below.Some? then below else FirstIn(h.buckets[i], key)
  }

  /** All stored pairs. */
  function Stored(buckets: seq<seq<Pair>>): multiset<Pair> {
    if buckets == [] then multiset{} else multiset(buckets[0]) + Stored(buckets[1..])
  }

  // ---------------------------------------------------------------------------
  // The invariant of every run
  // ---------------------------------------------------------------------------

  ghost predicate NodeOk(h: Heap, i: nat)
    requires |h.nodes| == NODE_LIMIT && |h.buckets| == NODE_LIMIT && i < NODE_LIMIT
  {
    && (Open(h, i) ==> h.nodes[i] == Interval(i))
    && (Open(h, i) && i > 0 ==>
          && Open(h, (i - 1) / 2)
          && |h.buckets[(i - 1) / 2]| == BUCKET_SIZE
          && Open(h, if i % 2 == 1 then i + 1 else i - 1))
    && |h.buckets[i]| <= BUCKET_SIZE
    && (h.buckets[i] != [] ==> Open(h, i) && i < 255)
  }

  ghost predicate PairOk(h: Heap, hash: Word -> Word, i: nat, k: nat)
    requires i < |h.buckets| && k < |h.buckets[i]|
  {
    Contains(Interval(i), hash(h.buckets[i][k].key))
  }

  /** Non-empty nodes are closed under parents and siblings, each holds its own
      dyadic interval, a parent with children is full, and every stored pair lies in
      a node whose interval covers its hashed key. */
  ghost predicate Inv(h: Heap, hash: Word -> Word) {
    && |h.nodes| == NODE_LIMIT && |h.buckets| == NODE_LIMIT
    && Open(h, 0)
    && (forall i :: 0 <= i < NODE_LIMIT ==> NodeOk(h, i))
    && (forall i, k :: 0 <= i < NODE_LIMIT && 0 <= k < |h.buckets[i]| ==> PairOk(h, hash, i, k))
  }

  lemma CreateInv(hash: Word -> Word)
    ensures Inv(Create(), hash)
  {
  }

  /** The search position at `b` is on the path to `x`, every node down to it is
      non-empty, and the search cannot go further. */
  lemma {:induction false} HomeIsOnPath(h: Heap, hash: Word -> Word, x: int, i: nat)
    requires Inv(h, hash) && i < 255 && Open(h, i) && Contains(Interval(i), x)
    ensures var b := Home(h, x, i);
            && Open(h, b) && Contains(Interval(b), x)
            && !(Child(b, x) < 255 && Open(h, Child(b, x)))
            && Level(b) <= 7 && Level(i) <= Level(b)
            && (forall l :: Level(i) <= l < Level(b) ==> Full(h, PathNode(x, l)))
    decreases 255 - i
  {
    hide Interval, Level, Mean;
    LevelInArray(i);
    ChildrenPartition(i, x);
    CoveringNodeIsOnPath(i, x);
    var c := Child(i, x);
    assert NodeOk(h, i);
    if c < 255 && Open(h, c) {
      HomeIsOnPath(h, hash, x, c);
      assert NodeOk(h, c);
    }
  }

  /** From the pair of children of `b`, heap_find stops at the child for `x`. */
  lemma FindFromChildren(h: Heap, hash: Word -> Word, b: nat, x: int)
    requires Inv(h, hash) && b < 255 && Contains(Interval(b), x)
    ensures var c := Child(b, x);
            FindFrom(h.nodes, 2 * b + 1, x) == if c < 255 && Open(h, c) then c else -1
  {
    hide Interval, Level, Mean;
    LevelInArray(b);
    ChildrenPartition(b, x);
    assert NodeOk(h, 2 * b + 1) && NodeOk(h, 2 * b + 2);
  }

  lemma FindFromRoot(h: Heap, hash: Word -> Word, x: Word)
    requires Inv(h, hash)
    ensures FindFrom(h.nodes, 0, x) == 0 && Open(h, 0)
  {
    assert NodeOk(h, 0);
  }

  /** heap_insert of an interval inside `b` descends from any path node above `b`
      to the first child of `b`. The nodes from that child on do not matter. */
  lemma {:induction false} SlotDescends(h: Heap, hash: Word -> Word, ns: seq<HeapNode>,
                                        level: nat, b: nat, min: int, max: int)
    requires Inv(h, hash) && b < 255 && Open(h, b) && level <= Level(b)
    requires |ns| == NODE_LIMIT && forall i :: 0 <= i <= 2 * b ==> ns[i] == h.nodes[i]
    requires Interval(b).min <= min <= max <= Interval(b).max
    ensures FindSlot(ns, PathNode(min, level), min, max) == FindSlot(ns, 2 * b + 1, min, max)
    decreases Level(b) - level
  {
    hide Interval, Level, Mean, PathNode;
    LevelInArray(b);
    CoveringNodeIsOnPath(b, min);
    RootCovers(min);
    PathIsOpen(h, hash, b, min, level);
    PathCovers(min, max, level, Level(b));
    PathNodeLevel(min, level);
    PathIncreases(min, level, Level(b));
    var a := PathNode(min, level);
    assert NodeOk(h, a);
    if level < Level(b) {
      SlotDescends(h, hash, ns, level + 1, b, min, max);
      PathIsOpen(h, hash, b, min, level + 1);
      PathCovers(min, max, level + 1, Level(b));
      PathNodeLevel(min, level + 1);
      PathIncreases(min, level + 1, Level(b));
      PathNext(min, level);
      LevelInArray(a);
      StepNodes(h, hash, ns, a, PathNode(min, level + 1));
      SlotStep(ns, a, PathNode(min, level + 1), min, max);
    }
  }

  lemma PathNext(x: int, level: nat)
    ensures PathNode(x, level + 1) == Child(PathNode(x, level), x)
  {
  }

  /** The nodes that the descent reads on its way from `a` to its child `c`. */
  lemma StepNodes(h: Heap, hash: Word -> Word, ns: seq<HeapNode>, a: nat, c: nat)
    requires Inv(h, hash) && (c == 2 * a + 1 || c == 2 * a + 2) && Open(h, a) && Open(h, c)
    requires |ns| == NODE_LIMIT && 2 * c < NODE_LIMIT
    requires forall i :: 0 <= i <= 2 * c ==> ns[i] == h.nodes[i]
    ensures ns[a] == Interval(a) && ns[a] != EMPTY_NODE
    ensures c == 2 * a + 2 ==> ns[2 * a + 1] == Interval(2 * a + 1) && ns[2 * a + 1] != EMPTY_NODE
  {
    hide Interval, Level, Mean;
    assert NodeOk(h, a) && NodeOk(h, c) && NodeOk(h, 2 * a + 1);
  }

  /** One node of the descent: past `a`, and past its first child if that one does
      not hold the interval. */
  lemma SlotStep(ns: seq<HeapNode>, a: nat, c: nat, min: int, max: int)
    requires |ns| == NODE_LIMIT && 2 * a + 2 < NODE_LIMIT && Level(a) <= 7
    requires ns[a] == Interval(a) && ns[a] != EMPTY_NODE && c == Child(a, min)
    requires c == 2 * a + 2 ==> ns[2 * a + 1] == Interval(2 * a + 1) && ns[2 * a + 1] != EMPTY_NODE
    requires min <= max && Contains(Interval(a), min) && Contains(Interval(a), max)
    ensures FindSlot(ns, a, min, max) == FindSlot(ns, c, min, max)
  {
    hide Interval, Level, Mean, Child, FindSlot;
    ChildrenPartition(a, min);
    SlotUnfold(ns, a, min, max);
    if c == 2 * a + 2 {
      SlotUnfold(ns, 2 * a + 1, min, max);
    }
  }

  lemma SlotUnfold(ns: seq<HeapNode>, i: nat, min: int, max: int)
    requires i < |ns| && ns[i] != EMPTY_NODE
    ensures FindSlot(ns, i, min, max) ==
            if ns[i].min <= min && max <= ns[i].max then FindSlot(ns, 2 * i + 1, min, max)
            else FindSlot(ns, i + 1, min, max)
  {
  }

  lemma {:induction false} PathIsOpen(h: Heap, hash: Word -> Word, b: nat, x: int, level: nat)
    requires Inv(h, hash) && Open(h, b) && Contains(Interval(b), x) && level <= Level(b)
    ensures Open(h, PathNode(x, level))
    decreases b
  {
    hide Interval, Mean;
    LevelInArray(b);
    CoveringNodeIsOnPath(b, x);
    assert NodeOk(h, b);
    if level < Level(b) {
      ChildrenPartition((b - 1) / 2, x);
      assert b == 2 * ((b - 1) / 2) + 1 || b == 2 * ((b - 1) / 2) + 2;
      LevelInArray((b - 1) / 2);
      PathIsOpen(h, hash, (b - 1) / 2, x, level);
    }
  }

  /** If two keys share the path node of a level, they share all nodes above it. */
  lemma {:induction false} PathCovers(x: int, y: int, level: nat, deep: nat)
    requires level <= deep <= 9 && Contains(Interval(0), x)
    requires Contains(Interval(PathNode(x, deep)), y)
    ensures Contains(Interval(PathNode(x, level)), y)
    decreases deep
  {
    hide Interval, Level;
    if level < deep {
      PathNodeLevel(x, deep - 1);
      ChildrenPartition(PathNode(x, deep - 1), y);
      PathCovers(x, y, level, deep - 1);
    }
  }

  // ---------------------------------------------------------------------------
  // Insertion keeps the invariant and loses nothing
  // ---------------------------------------------------------------------------

  lemma AppendInv(h: Heap, hash: Word -> Word, b: nat, p: Pair)
    requires Inv(h, hash) && b < 255 && Open(h, b) && |h.buckets[b]| < BUCKET_SIZE
    requires Contains(Interval(b), hash(p.key))
    ensures Inv(Append(h, b, p), hash)
  {
    hide Interval, Level, Mean;
    var r := Append(h, b, p);
    forall i | 0 <= i < NODE_LIMIT
      ensures NodeOk(r, i)
    {
      assert NodeOk(h, i);
    }
    forall i, k | 0 <= i < NODE_LIMIT && 0 <= k < |r.buckets[i]|
      ensures PairOk(r, hash, i, k)
    {
      if k < |h.buckets[i]| {
        assert PairOk(h, hash, i, k);
      }
    }
  }

  lemma OpenChildrenInv(h: Heap, hash: Word -> Word, b: nat)
    requires Inv(h, hash) && b < 255 && Full(h, b) && !Open(h, 2 * b + 1)
    ensures Inv(OpenChildren(h, b), hash)
    ensures Open(OpenChildren(h, b), 2 * b + 1) && Open(OpenChildren(h, b), 2 * b + 2)
    ensures h.buckets[2 * b + 1] == [] && h.buckets[2 * b + 2] == []
  {
    LevelInArray(2 * b + 1);
    LevelInArray(2 * b + 2);
    IntervalIsNotEmpty(2 * b + 1);
    IntervalIsNotEmpty(2 * b + 2);
    hide Interval, Level, Mean;
    assert NodeOk(h, b) && NodeOk(h, 2 * b + 1) && NodeOk(h, 2 * b + 2);
    assert (2 * b + 1 - 1) / 2 == b && (2 * b + 2 - 1) / 2 == b;
    var r := OpenChildren(h, b);
    forall i | 0 <= i < NODE_LIMIT
      ensures NodeOk(r, i)
    {
      OpenChildrenNodeOk(h, hash, b, i);
    }
    forall i, k | 0 <= i < NODE_LIMIT && 0 <= k < |r.buckets[i]|
      ensures PairOk(r, hash, i, k)
    {
      OpenChildrenPairOk(h, hash, b, i, k);
    }
  }

  lemma OpenChildrenPairOk(h: Heap, hash: Word -> Word, b: nat, i: nat, k: nat)
    requires Inv(h, hash) && b < 255 && Full(h, b)
    requires i < NODE_LIMIT && k < |h.buckets[i]|
    ensures var r := OpenChildren(h, b);
            |r.buckets| == NODE_LIMIT && k < |r.buckets[i]| && PairOk(r, hash, i, k)
  {
    hide Interval;
    assert PairOk(h, hash, i, k);
  }

  lemma OpenChildrenNodeOk(h: Heap, hash: Word -> Word, b: nat, i: nat)
    requires Inv(h, hash) && b < 255 && Full(h, b) && Open(h, b) && i < NODE_LIMIT
    requires !Open(h, 2 * b + 1) && !Open(h, 2 * b + 2)
    requires Interval(2 * b + 1) != EMPTY_NODE && Interval(2 * b + 2) != EMPTY_NODE
    ensures NodeOk(OpenChildren(h, b), i)
  {
    hide Interval;
    assert NodeOk(h, i);
    var r := OpenChildren(h, b);
    assert forall j :: 0 <= j < NODE_LIMIT && Open(h, j) ==> Open(r, j);
    if i == 2 * b + 1 || i == 2 * b + 2 {
      assert (i - 1) / 2 == b;
    }
  }

  lemma {:induction false} StoredAppend(buckets: seq<seq<Pair>>, b: nat, p: Pair)
    requires b < |buckets|
    ensures Stored(buckets[b := buckets[b] + [p]]) == Stored(buckets) + multiset{p}
  {
    var r := buckets[b := buckets[b] + [p]];
    if b == 0 {
      assert r[1..] == buckets[1..];
    } else {
      StoredAppend(buckets[1..], b - 1, p);
      assert r[1..] == buckets[1..][b - 1 := buckets[1..][b - 1] + [p]];
    }
  }

  /** insert_item keeps the invariant; it stores exactly the given pair on success
      and nothing on failure; and it fails if and only if the eight buckets on the
      way to the hashed key are all full. */
  lemma InsertCorrect(h: Heap, hash: Word -> Word, p: Pair)
    requires Inv(h, hash)
    ensures var (r, ok) := Insert(h, hash, p);
            && Inv(r, hash)
            && Stored(r.buckets) == Stored(h.buckets) + (if ok then multiset{p} else multiset{})
            && (!ok <==> forall l :: 0 <= l < 8 ==> Full(h, PathNode(hash(p.key), l)))
  {
    var x := hash(p.key);
    RootCovers(x);
    HomeIsOnPath(h, hash, x, 0);
    var b := Home(h, x, 0);
    CoveringNodeIsOnPath(b, x);
    hide Interval, Level, Mean, Home, PathNode, Child;
    if |h.buckets[b]| < BUCKET_SIZE {
      AppendInv(h, hash, b, p);
      StoredAppend(h.buckets, b, p);
      assert !Full(h, PathNode(x, Level(b)));
    } else {
      assert NodeOk(h, b);
      InsertSplits(h, hash, p, b);
    }
  }

  lemma InsertSplits(h: Heap, hash: Word -> Word, p: Pair, b: nat)
    requires Inv(h, hash) && b == Home(h, hash(p.key), 0) && Full(h, b) && Open(h, b)
    requires Contains(Interval(b), hash(p.key)) && Level(b) <= 7 && PathNode(hash(p.key), Level(b)) == b
    requires !(Child(b, hash(p.key)) < 255 && Open(h, Child(b, hash(p.key))))
    requires forall l :: Level(0) <= l < Level(b) ==> Full(h, PathNode(hash(p.key), l))
    ensures var (r, ok) := Insert(h, hash, p);
            && Inv(r, hash)
            && Stored(r.buckets) == Stored(h.buckets) + (if ok then multiset{p} else multiset{})
            && (!ok <==> forall l :: 0 <= l < 8 ==> Full(h, PathNode(hash(p.key), l)))
  {
    hide Interval, Level, Mean, Home, PathNode, Child;
    var x := hash(p.key);
    var c := Child(b, x);
    LevelInArray(c);
    assert (2 * b + 2 - 1) / 2 == b && (2 * b + 1 - 1) / 2 == b;
    assert NodeOk(h, 2 * b + 1) && NodeOk(h, 2 * b + 2);
    if !Open(h, 2 * b + 1) {
      OpenChildrenInv(h, hash, b);
    }
    ChildrenPartition(b, x);
    if c < 255 {
      AppendInv(OpenChildren(h, b), hash, c, p);
      StoredAppend(h.buckets, c, p);
      PathStep(x, b, c);
      assert !Full(h, PathNode(x, Level(c)));
    } else {
      AllFull(h, x, b);
    }
  }

  lemma PathStep(x: int, b: nat, c: nat)
    requires c == Child(b, x) && b == PathNode(x, Level(b)) && Level(c) == Level(b) + 1
    ensures PathNode(x, Level(c)) == c
  {
  }

  lemma AllFull(h: Heap, x: int, b: nat)
    requires Level(b) == 7 && b == PathNode(x, 7) && Full(h, b)
    requires forall l :: Level(0) <= l < Level(b) ==> Full(h, PathNode(x, l))
    ensures forall l :: 0 <= l < 8 ==> Full(h, PathNode(x, l))
  {
    hide PathNode;
    forall l | 0 <= l < 8
      ensures Full(h, PathNode(x, l))
    {
      assert Level(0) == 0;
      if l == 7 { assert PathNode(x, l) == b; }
    }
  }

  // ---------------------------------------------------------------------------
  // Capacity
  // ---------------------------------------------------------------------------

  lemma StoredHead(a: seq<seq<Pair>>)
    ensures Stored(a) == if a == [] then multiset{} else multiset(a[0]) + Stored(a[1..])
  {
  }

  lemma SumsAssociate(x: multiset<Pair>, y: multiset<Pair>, z: multiset<Pair>)
    ensures x + (y + z) == x + y + z
  {
  }

  lemma {:induction false} StoredSplit(a: seq<seq<Pair>>, b: seq<seq<Pair>>)
    ensures Stored(a + b) == Stored(a) + Stored(b)
  {
    hide Stored;
    if a == [] {
      assert a + b == b;
      StoredHead(a);
    } else {
      StoredSplit(a[1..], b);
      assert (a + b)[1..] == a[1..] + b && (a + b)[0] == a[0];
      StoredHead(a);
      StoredHead(a + b);
      SumsAssociate(multiset(a[0]), Stored(a[1..]), Stored(b));
    }
  }

  /** Full buckets along a path are different buckets, so they add up. */
  lemma {:induction false} PathFills(h: Heap, x: Word, level: nat)
    requires level < 8 && forall l :: 0 <= l <= level ==> Full(h, PathNode(x, l))
    ensures Full(h, PathNode(x, level))
    ensures |Stored(h.buckets[..PathNode(x, level) + 1])| >= BUCKET_SIZE * (level + 1)
  {
    hide Interval, Mean, Level;
    var i := PathNode(x, level);
    assert Full(h, i);
    assert h.buckets[..i + 1] == h.buckets[..i] + [h.buckets[i]];
    StoredSplit(h.buckets[..i], [h.buckets[i]]);
    assert Stored([h.buckets[i]]) == multiset(h.buckets[i]);
    if level > 0 {
      PathFills(h, x, level - 1);
      var j := PathNode(x, level - 1);
      assert j + 1 <= i;
      assert h.buckets[..i] == h.buckets[..j + 1] + h.buckets[j + 1..i];
      StoredSplit(h.buckets[..j + 1], h.buckets[j + 1..i]);
    }
  }

  /** As long as fewer than 8 * 128 pairs are stored, no insertion fails, whatever
      the hash function. */
  lemma CapacityBound(h: Heap, hash: Word -> Word, p: Pair)
    requires Inv(h, hash) && |Stored(h.buckets)| < 1024
    ensures Insert(h, hash, p).1
  {
    InsertCorrect(h, hash, p);
    if !Insert(h, hash, p).1 {
      var x := hash(p.key);
      PathFills(h, x, 7);
      var i := PathNode(x, 7);
      assert Full(h, i);
      assert h.buckets == h.buckets[..i + 1] + h.buckets[i + 1..];
      StoredSplit(h.buckets[..i + 1], h.buckets[i + 1..]);
    }
  }

  // ---------------------------------------------------------------------------
  // Lookup
  // ---------------------------------------------------------------------------

  lemma {:induction false} FirstInCorrect(bucket: seq<Pair>, key: Word)
    ensures FirstIn(bucket, key) == None <==> forall k :: 0 <= k < |bucket| ==> bucket[k].key != key
    ensures FirstIn(bucket, key).Some? ==> Pair(key, FirstIn(bucket, key).value) in bucket
  {
    if bucket != [] && bucket[0].key != key {
      FirstInCorrect(bucket[1..], key);
      assert forall k :: 1 <= k < |bucket| ==> bucket[k] == bucket[1..][k - 1];
    }
  }

  lemma {:induction false} StoredMember(buckets: seq<seq<Pair>>, p: Pair)
    ensures p in Stored(buckets) <==> exists i :: 0 <= i < |buckets| && p in buckets[i]
  {
    if buckets != [] {
      StoredMember(buckets[1..], p);
      if p in buckets[0] {
        assert 0 <= 0 < |buckets| && p in buckets[0];
      }
      if i :| 0 <= i < |buckets[1..]| && p in buckets[1..][i] {
        assert p in buckets[i + 1];
      }
      if i :| 0 <= i < |buckets| && p in buckets[i] {
        if i > 0 { assert p in buckets[1..][i - 1]; }
      }
    }
  }

  /** Searching down from path node `i` finds exactly the keys stored at `i` or below. */
  lemma {:induction false} LookupFrom(h: Heap, hash: Word -> Word, key: Word, i: nat)
    requires Inv(h, hash) && i < 255 && Open(h, i) && Contains(Interval(i), hash(key))
    ensures var r := Lookup(h, hash(key), key, i);
            && (r.Some? ==> Pair(key, r.value) in Stored(h.buckets))
            && (r == None ==> forall l, k :: Level(i) <= l <= 8 && PathNode(hash(key), l) < NODE_LIMIT
                                && 0 <= k < |h.buckets[PathNode(hash(key), l)]|
                                ==> h.buckets[PathNode(hash(key), l)][k].key != key)
    decreases 255 - i
  {
    hide Interval, Mean, Level, PathNode, Child;
    var x := hash(key);
    var c := Child(i, x);
    LevelInArray(i);
    ChildrenPartition(i, x);
    CoveringNodeIsOnPath(i, x);
    FirstInCorrect(h.buckets[i], key);
    var deeper := c < 255 && Open(h, c);
    if deeper {
      LookupFrom(h, hash, key, c);
    }
    var r := Lookup(h, x, key, i);
    if r.Some? && Pair(key, r.value) in h.buckets[i] {
      StoredMember(h.buckets, Pair(key, r.value));
    }
    if r == None {
      forall l, k | Level(i) <= l <= 8 && PathNode(x, l) < NODE_LIMIT && 0 <= k < |h.buckets[PathNode(x, l)]|
        ensures h.buckets[PathNode(x, l)][k].key != key
      {
        if l > Level(i) && !deeper {
          NothingBelow(h, hash, x, i, l);
        }
      }
    }
  }

  /** Below a closed or bottom child on the path there are no pairs. */
  lemma {:induction false} NothingBelow(h: Heap, hash: Word -> Word, x: Word, i: nat, level: nat)
    requires Inv(h, hash) && i < 255 && Open(h, i) && Contains(Interval(i), x)
    requires !(Child(i, x) < 255 && Open(h, Child(i, x)))
    requires Level(i) < level <= 8 && PathNode(x, level) < NODE_LIMIT
    ensures h.buckets[PathNode(x, level)] == []
  {
    hide Interval, Mean, Level, PathNode, Child;
    LevelInArray(i);
    CoveringNodeIsOnPath(i, x);
    PathNext(x, Level(i));
    RootCovers(x);
    PathNodeLevel(x, level);
    PathNodeLevel(x, Level(i) + 1);
    var n := PathNode(x, level);
    if h.buckets[n] != [] {
      assert NodeOk(h, n);
      LevelInArray(n);
      LevelInArray(Child(i, x));
      PathIsOpen(h, hash, n, x, Level(i) + 1);
    }
  }

  /** The first lookup of a key returns a value stored under it, and INVALID_TUPLE
      if and only if there is none. */
  lemma LookupCorrect(h: Heap, hash: Word -> Word, key: Word)
    requires Inv(h, hash)
    ensures var r := Lookup(h, hash(key), key, 0);
            && (r.Some? ==> Pair(key, r.value) in Stored(h.buckets))
            && (r == None <==> forall v :: Pair(key, v) !in Stored(h.buckets))
  {
    var x := hash(key);
    var r := Lookup(h, x, key, 0);
    RootCovers(x);
    LookupFrom(h, hash, key, 0);
    if r == None {
      forall v | Pair(key, v) in Stored(h.buckets)
        ensures false
      {
        StoredMember(h.buckets, Pair(key, v));
        var i :| 0 <= i < |h.buckets| && Pair(key, v) in h.buckets[i];
        var k :| 0 <= k < |h.buckets[i]| && h.buckets[i][k] == Pair(key, v);
        assert PairOk(h, hash, i, k);
        LevelInArray(i);
        CoveringNodeIsOnPath(i, x);
      }
    }
  }

  // ---------------------------------------------------------------------------
  // Whole runs
  // ---------------------------------------------------------------------------

  /** A fresh index after a sequence of insertions, with the pairs that were stored. */
  function Run(hash: Word -> Word, ps: seq<Pair>): (r: (Heap, multiset<Pair>))
    ensures |r.0.nodes| == NODE_LIMIT && |r.0.buckets| == NODE_LIMIT
  {
    if ps == [] then (Create(), multiset{})
    else
      var (h, stored) := Run(hash, ps[..|ps| - 1]);
      var p := ps[|ps| - 1];
      var (r, ok) := Insert(h, hash, p);
      (r, stored + (if ok then multiset{p} else multiset{}))
  }

  lemma {:induction false} EmptyStored(buckets: seq<seq<Pair>>)
    requires forall i :: 0 <= i < |buckets| ==> buckets[i] == []
    ensures Stored(buckets) == multiset{}
  {
    if buckets != [] {
      EmptyStored(buckets[1..]);
    }
  }

  /** After any sequence of insertions the invariant holds and the buckets hold
      exactly the pairs whose insertion succeeded. */
  lemma {:induction false} RunInvariant(hash: Word -> Word, ps: seq<Pair>)
    ensures var (h, stored) := Run(hash, ps);
            Inv(h, hash) && Stored(h.buckets) == stored && |stored| <= |ps|
  {
    if ps == [] {
      CreateInv(hash);
      EmptyStored(Create().buckets);
    } else {
      RunInvariant(hash, ps[..|ps| - 1]);
      InsertCorrect(Run(hash, ps[..|ps| - 1]).0, hash, ps[|ps| - 1]);
    }
  }

  /** The first 1024 insertions into a fresh index all succeed, for any hash
      function and any keys, equal or not. */
  lemma {:induction false} FirstInsertionsSucceed(hash: Word -> Word, ps: seq<Pair>)
    requires |ps| <= 1024
    ensures Run(hash, ps).1 == multiset(ps)
  {
    if ps != [] {
      var prev := ps[..|ps| - 1];
      FirstInsertionsSucceed(hash, prev);
      RunInvariant(hash, prev);
      CapacityBound(Run(hash, prev).0, hash, ps[|ps| - 1]);
      assert ps == prev + [ps[|ps| - 1]];
    }
  }

  /** Looking up any key after any run: a value stored under it, or none exists. */
  lemma RunLookup(hash: Word -> Word, ps: seq<Pair>, key: Word)
    ensures var (h, stored) := Run(hash, ps);
            var r := Lookup(h, hash(key), key, 0);
            && (r.Some? ==> Pair(key, r.value) in stored)
            && (r == None <==> forall v :: Pair(key, v) !in stored)
  {
    RunInvariant(hash, ps);
    LookupCorrect(Run(hash, ps).0, hash, key);
  }

  lemma {:induction false} StoredEmptyRange(h: Heap, i: nat, j: nat)
    requires i <= j <= |h.buckets|
    requires forall k :: i <= k < j ==> h.buckets[k] == []
    ensures Stored(h.buckets[..j]) == Stored(h.buckets[..i])
  {
    assert h.buckets[..j] == h.buckets[..i] + h.buckets[i..j];
    StoredSplit(h.buckets[..i], h.buckets[i..j]);
    EmptyStored(h.buckets[i..j]);
  }

  /** If only path buckets hold pairs, they hold at most a bucket's worth per level. */
  lemma {:induction false} PathHolds(h: Heap, hash: Word -> Word, x: Word, level: nat)
    requires Inv(h, hash) && level <= 8
    requires forall i :: 0 <= i < NODE_LIMIT && h.buckets[i] != [] ==> i == PathNode(x, Level(i))
    ensures PathNode(x, level) < NODE_LIMIT
    ensures |Stored(h.buckets[..PathNode(x, level)])| <= BUCKET_SIZE * level
  {
    hide Interval, Level, Mean, PathNode, Child;
    RootCovers(x);
    PathNodeLevel(x, level);
    var i := PathNode(x, level);
    LevelInArray(i);
    if level == 0 {
      PathStart(h, x);
    } else {
      PathHolds(h, hash, x, level - 1);
      var j := PathNode(x, level - 1);
      PathIncreases(x, level - 1, level);
      GapIsEmpty(h, x, level - 1);
      StoredEmptyRange(h, j + 1, i);
      assert h.buckets[..j + 1] == h.buckets[..j] + [h.buckets[j]];
      StoredSplit(h.buckets[..j], [h.buckets[j]]);
      StoredOne(h, hash, j);
    }
  }

  lemma GapIsEmpty(h: Heap, x: Word, level: nat)
    requires |h.buckets| == NODE_LIMIT && level < 8 && PathNode(x, level + 1) < NODE_LIMIT
    requires forall i :: 0 <= i < NODE_LIMIT && h.buckets[i] != [] ==> i == PathNode(x, Level(i))
    ensures forall k :: PathNode(x, level) < k < PathNode(x, level + 1) ==> h.buckets[k] == []
  {
    hide Interval, Level, Mean, PathNode;
    forall k | PathNode(x, level) < k < PathNode(x, level + 1)
      ensures h.buckets[k] == []
    {
      BetweenLevels(x, level, k);
    }
  }

  lemma PathStart(h: Heap, x: Word)
    requires |h.buckets| == NODE_LIMIT
    ensures PathNode(x, 0) == 0 && Stored(h.buckets[..0]) == multiset{}
  {
  }

  lemma StoredOne(h: Heap, hash: Word -> Word, j: nat)
    requires Inv(h, hash) && j < NODE_LIMIT
    ensures |Stored([h.buckets[j]])| <= BUCKET_SIZE
  {
    assert Stored([h.buckets[j]]) == multiset(h.buckets[j]);
    assert NodeOk(h, j);
  }

  lemma {:induction false} PathIncreases(x: Word, a: nat, b: nat)
    requires a <= b
    ensures PathNode(x, a) + (b - a) <= PathNode(x, b)
    decreases b
  {
    hide Interval, Mean;
    if a < b {
      PathIncreases(x, a, b - 1);
    }
  }

  /** No position strictly between consecutive path nodes is itself on the path. */
  lemma BetweenLevels(x: Word, level: nat, k: nat)
    requires level < 8 && PathNode(x, level) < k < PathNode(x, level + 1)
    ensures k != PathNode(x, Level(k))
  {
    hide Interval, Mean, PathNode, Level;
    if Level(k) <= level {
      PathIncreases(x, Level(k), level);
    } else {
      PathIncreases(x, level + 1, Level(k));
    }
  }

  /** The bound is sharp: when all keys hash alike, at most 1024 of any number of
      insertions succeed. */
  lemma ConstantHashHoldsAtMost(hash: Word -> Word, x: Word, ps: seq<Pair>)
    requires forall k: Word :: hash(k) == x
    ensures |Run(hash, ps).1| <= 1024
  {
    RunInvariant(hash, ps);
    var h := Run(hash, ps).0;
    forall i | 0 <= i < NODE_LIMIT && h.buckets[i] != []
      ensures i == PathNode(x, Level(i)) && Level(i) <= 7
    {
      assert PairOk(h, hash, i, 0);
      assert NodeOk(h, i);
      LevelInArray(i);
      CoveringNodeIsOnPath(i, x);
    }
    PathHolds(h, hash, x, 8);
    var n := PathNode(x, 8);
    forall k | n <= k < NODE_LIMIT
      ensures h.buckets[k] == []
    {
      if h.buckets[k] != [] {
        PathIncreases(x, Level(k), 8);
      }
    }
    StoredEmptyRange(h, n, NODE_LIMIT);
    assert h.buckets[..NODE_LIMIT] == h.buckets;
  }

  // ---------------------------------------------------------------------------
  // Which of several values is found
  // ---------------------------------------------------------------------------

  /** The first pair of a bucket with a key. */
  ghost predicate FirstPair(bucket: seq<Pair>, key: Word, j: nat) {
    j < |bucket| && bucket[j].key == key && forall i :: 0 <= i < j ==> bucket[i].key != key
  }

  lemma {:induction false} FirstInExactly(bucket: seq<Pair>, key: Word, v: Word)
    ensures FirstIn(bucket, key) == Some(v) <==> exists j: nat :: FirstPair(bucket, key, j) && bucket[j].value == v
    ensures FirstIn(bucket, key) == None <==> forall j :: 0 <= j < |bucket| ==> bucket[j].key != key
  {
    if bucket != [] {
      FirstInExactly(bucket[1..], key, v);
      if bucket[0].key == key {
        assert FirstPair(bucket, key, 0);
        assert forall j: nat :: FirstPair(bucket, key, j) ==> j == 0;
      } else {
        forall j: nat ensures FirstPair(bucket, key, j + 1) <==> FirstPair(bucket[1..], key, j) {
          ShiftedFirst(bucket, key, j);
        }
        if j: nat :| FirstPair(bucket[1..], key, j) && bucket[1..][j].value == v {
          assert FirstPair(bucket, key, j + 1) && bucket[j + 1].value == v;
        }
        if j: nat :| FirstPair(bucket, key, j) && bucket[j].value == v {
          assert FirstPair(bucket[1..], key, j - 1) && bucket[1..][j - 1].value == v;
        }
      }
    }
  }

  lemma ShiftedFirst(bucket: seq<Pair>, key: Word, j: nat)
    requires bucket != [] && bucket[0].key != key
    ensures FirstPair(bucket, key, j + 1) <==> FirstPair(bucket[1..], key, j)
  {
    if FirstPair(bucket, key, j + 1) {
      assert forall i :: 0 <= i < j ==> bucket[1..][i].key == bucket[i + 1].key;
    }
    if FirstPair(bucket[1..], key, j) {
      assert forall i :: 0 < i < j + 1 ==> bucket[i].key == bucket[1..][i - 1].key;
    }
  }

  /** A bucket on the way to `x` holds no pair with the key. */
  ghost predicate Without(h: Heap, x: int, level: nat, key: Word)
    requires |h.buckets| == NODE_LIMIT
  {
    PathNode(x, level) < NODE_LIMIT ==>
      forall k :: 0 <= k < |h.buckets[PathNode(x, level)]| ==> h.buckets[PathNode(x, level)][k].key != key
  }

  /** Of several values of a key a lookup returns the one that was stored first in the
      deepest bucket of the key's path that holds any. */
  lemma {:induction false} LookupPicks(h: Heap, hash: Word -> Word, key: Word, i: nat) returns (level: nat, j: nat)
    requires Inv(h, hash) && i < 255 && Open(h, i) && Contains(Interval(i), hash(key))
    requires Lookup(h, hash(key), key, i).Some?
    ensures Level(i) <= level <= 7 && PathNode(hash(key), level) < NODE_LIMIT
    ensures FirstPair(h.buckets[PathNode(hash(key), level)], key, j)
    ensures h.buckets[PathNode(hash(key), level)][j].value == Lookup(h, hash(key), key, i).value
    ensures forall l :: level < l <= 8 ==> Without(h, hash(key), l, key)
    decreases 255 - i
  {
    hide Interval, Mean, Level, PathNode, Child, FirstIn;
    var x := hash(key);
    var c := Child(i, x);
    LevelInArray(i);
    ChildrenPartition(i, x);
    CoveringNodeIsOnPath(i, x);
    var deeper := c < 255 && Open(h, c);
    if deeper && Lookup(h, x, key, c).Some? {
      level, j := LookupPicks(h, hash, key, c);
    } else {
      level := Level(i);
      FirstInExactly(h.buckets[i], key, Lookup(h, x, key, i).value);
      j :| FirstPair(h.buckets[i], key, j) && h.buckets[i][j].value == Lookup(h, x, key, i).value;
      if deeper {
        LookupFrom(h, hash, key, c);
      }
      forall l | level < l <= 8
        ensures Without(h, x, l, key)
      {
        if !deeper && PathNode(x, l) < NODE_LIMIT {
          NothingBelow(h, hash, x, i, l);
        }
      }
    }
  }
}
