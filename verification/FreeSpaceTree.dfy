/**
 * The free-space map as a value: a heap-shaped tree in an array. For capacity c the
 * first c - 1 nodes are internal, node c - 1 + p is the leaf of page p, and node i has
 * children 2i + 1 and 2i + 2. Every node holds the largest bucket of the leaves below.
 */
module FreeSpaceTrees {
  import opened Storage

  type Bucket = x: nat | x < 0x100

  const BUCKET_COUNT := 8
  const BUCKET_SIZE := 512

  datatype Node = Node(maxBucket: Option<Bucket>, pageId: Option<PageId>)

  datatype FreeSpaceMapError = InvalidArgument | InvalidFreeSpace | InvalidPageId | PageDoesNotExist

  /** The bucket of an amount of free space: its number of whole 512-byte units, below 4096 bytes. */
  function GetBucketId(freeSpace: nat): (r: Result<Bucket, FreeSpaceMapError>)
    ensures r.Success? <==> freeSpace < 4096
    ensures r.Success? ==> 512 * r.value <= freeSpace < 512 * (r.value + 1)
    ensures r.Failure? ==> r.error == InvalidFreeSpace
  {
    if freeSpace < 512 then Success(0)
    else if freeSpace < 1024 then Success(1)
    else if freeSpace < 1536 then Success(2)
    else if freeSpace < 2048 then Success(3)
    else if freeSpace < 2560 then Success(4)
    else if freeSpace < 3072 then Success(5)
    else if freeSpace < 3584 then Success(6)
    else if freeSpace < 4096 then Success(7)
    else Failure(InvalidFreeSpace)
  }

  /** More space never has a smaller bucket, so a page with enough room is never hidden from a search. */
  lemma BucketsAreMonotone(a: nat, b: nat)
    requires a <= b < BUCKET_COUNT * BUCKET_SIZE
    ensures GetBucketId(a).value <= GetBucketId(b).value
  {
  }

  // ---------------------------------------------------------------------------
  // Shape and invariant
  // ---------------------------------------------------------------------------

  /** `None`, an empty subtree, is below every bucket. */
  predicate AtLeast(b: Option<Bucket>, required: Bucket) {
    b.Some? && b.value >= required
  }

  predicate Greater(a: Option<Bucket>, b: Option<Bucket>) {
    a.Some? && (b.Some? ==> a.value > b.value)
  }

  function Max(left: Option<Bucket>, right: Option<Bucket>): (m: Option<Bucket>)
    ensures m == left || m == right
    ensures forall b :: AtLeast(m, b) <==> AtLeast(left, b) || AtLeast(right, b)
  {
    if Greater(left, right) then left else right
  }

  ghost predicate Shape(nodes: seq<Node>, c: nat) {
    c >= 1 && |nodes| == 2 * c - 1
  }

  ghost predicate Consistent(nodes: seq<Node>, c: nat, i: nat)
    requires Shape(nodes, c) && i < c - 1
  {
    nodes[i].maxBucket == Max(nodes[2 * i + 1].maxBucket, nodes[2 * i + 2].maxBucket)
  }

  /** A leaf names its own page once that page is registered, and is empty before. */
  ghost predicate LeafOk(nodes: seq<Node>, c: nat, i: nat)
    requires Shape(nodes, c) && c - 1 <= i < |nodes|
  {
    && (nodes[i].maxBucket.Some? <==> nodes[i].pageId.Some?)
    && (nodes[i].pageId.Some? ==> nodes[i].pageId.value == i - (c - 1))
  }

  ghost predicate LeavesOk(nodes: seq<Node>, c: nat)
    requires Shape(nodes, c)
  {
    && (forall i :: c - 1 <= i < |nodes| ==> LeafOk(nodes, c, i))
    && (forall i :: 0 <= i < c - 1 ==> nodes[i].pageId.None?)
  }

  ghost predicate IsTree(nodes: seq<Node>, c: nat) {
    && Shape(nodes, c)
    && LeavesOk(nodes, c)
    && (forall i :: 0 <= i < c - 1 ==> Consistent(nodes, c, i))
  }

  /** What the tree is an index of: the bucket of each page, `None` for a page not registered. */
  ghost function Leaves(nodes: seq<Node>, c: nat): (leaves: seq<Option<Bucket>>)
    requires Shape(nodes, c)
    ensures |leaves| == c
  {
    seq(c, p requires 0 <= p < c => nodes[c - 1 + p].maxBucket)
  }

  /** The leaves determine the whole tree. */
  lemma {:induction false} LeavesDetermineTree(a: seq<Node>, b: seq<Node>, c: nat, i: nat)
    requires IsTree(a, c) && IsTree(b, c) && Leaves(a, c) == Leaves(b, c) && i < |a|
    ensures a[i] == b[i]
    decreases |a| - i
  {
    if i < c - 1 {
      LeavesDetermineTree(a, b, c, 2 * i + 1);
      LeavesDetermineTree(a, b, c, 2 * i + 2);
      assert Consistent(a, c, i) && Consistent(b, c, i);
    } else {
      assert Leaves(a, c)[i - (c - 1)] == Leaves(b, c)[i - (c - 1)];
      assert LeafOk(a, c, i) && LeafOk(b, c, i);
    }
  }

  // ---------------------------------------------------------------------------
  // Searches
  // ---------------------------------------------------------------------------

  /** The search that backtracks over excluded pages. */
  function FindPageRecursive(nodes: seq<Node>, c: nat, i: nat, required: Bucket, excluded: set<PageId>): Option<PageId>
    requires Shape(nodes, c) && i < |nodes|
    decreases |nodes| - i
  {
    if !AtLeast(nodes[i].maxBucket, required) then None
    else if i >= c - 1 then
      if nodes[i].pageId.None? || nodes[i].pageId.value in excluded then None else nodes[i].pageId
    else
      var left := if 2 * i + 1 < |nodes| then FindPageRecursive(nodes, c, 2 * i + 1, required, excluded) else None;
      if left.Some? then left
      else if 2 * i + 2 < |nodes| then FindPageRecursive(nodes, c, 2 * i + 2, required, excluded)
      else None
  }

  /** The greedy descent, which never turns back. */
  function FindLeaf(nodes: seq<Node>, c: nat, i: nat, required: Bucket): Option<PageId>
    requires Shape(nodes, c) && i < |nodes|
    decreases |nodes| - i
  {
    if i >= c - 1 then
      if AtLeast(nodes[i].maxBucket, required) then nodes[i].pageId else None
    else if AtLeast(nodes[2 * i + 1].maxBucket, required) then FindLeaf(nodes, c, 2 * i + 1, required)
    else if AtLeast(nodes[2 * i + 2].maxBucket, required) then FindLeaf(nodes, c, 2 * i + 2, required)
    else None
  }

  /** With nothing excluded, turning back is never needed. */
  lemma {:induction false} GreedyIsBacktracking(nodes: seq<Node>, c: nat, i: nat, required: Bucket)
    requires IsTree(nodes, c) && i < |nodes|
    ensures FindLeaf(nodes, c, i, required) == FindPageRecursive(nodes, c, i, required, {})
    ensures AtLeast(nodes[i].maxBucket, required) <==> FindLeaf(nodes, c, i, required).Some?
    decreases |nodes| - i
  {
    if i < c - 1 {
      assert Consistent(nodes, c, i);
      GreedyIsBacktracking(nodes, c, 2 * i + 1, required);
      GreedyIsBacktracking(nodes, c, 2 * i + 2, required);
    } else {
      assert LeafOk(nodes, c, i);
    }
  }

  /** How many nodes the backtracking search looks at. */
  function Visits(nodes: seq<Node>, c: nat, i: nat, required: Bucket, excluded: set<PageId>): nat
    requires Shape(nodes, c) && i < |nodes|
    decreases |nodes| - i
  {
    if !AtLeast(nodes[i].maxBucket, required) || i >= c - 1 then 1
    else
      1 + Visits(nodes, c, 2 * i + 1, required, excluded)
      + if FindPageRecursive(nodes, c, 2 * i + 1, required, excluded).Some? then 0
        else Visits(nodes, c, 2 * i + 2, required, excluded)
  }

  function Height(c: nat, i: nat): nat
    requires i < 2 * c - 1
    decreases 2 * c - 1 - i
  {
    if i >= c - 1 then 0
    else
      var left, right := Height(c, 2 * i + 1), Height(c, 2 * i + 2);
      1 + if left > right then left else right
  }

  lemma {:induction false} VisitsAreFew(nodes: seq<Node>, c: nat, i: nat, required: Bucket)
    requires IsTree(nodes, c) && i < |nodes|
    ensures Visits(nodes, c, i, required, {}) <= 2 * Height(c, i) + 1
    decreases |nodes| - i
  {
    if i < c - 1 {
      VisitsAreFew(nodes, c, 2 * i + 1, required);
      VisitsAreFew(nodes, c, 2 * i + 2, required);
      GreedyIsBacktracking(nodes, c, 2 * i + 1, required);
    }
  }

  // ---------------------------------------------------------------------------
  // The order in which a search meets the pages
  // ---------------------------------------------------------------------------

  /** The pages of the leaves below node i, from left to right. */
  ghost function LeafOrder(c: nat, i: nat): seq<nat>
    requires i < 2 * c - 1
    decreases 2 * c - 1 - i
  {
    if i >= c - 1 then [i - (c - 1)] else LeafOrder(c, 2 * i + 1) + LeafOrder(c, 2 * i + 2)
  }

  predicate Qualifies(leaves: seq<Option<Bucket>>, p: nat, required: Bucket, excluded: set<PageId>) {
    p < |leaves| && AtLeast(leaves[p], required) && p !in excluded
  }

  /** The first page of `order` that qualifies. */
  ghost function FirstQualifying(order: seq<nat>, leaves: seq<Option<Bucket>>, required: Bucket, excluded: set<PageId>): (r: Option<nat>)
    ensures r.Some? ==> r.value in order && Qualifies(leaves, r.value, required, excluded)
    ensures r.None? <==> forall p :: p in order ==> !Qualifies(leaves, p, required, excluded)
  {
    if order == [] then None
    else if Qualifies(leaves, order[0], required, excluded) then Some(order[0])
    else FirstQualifying(order[1..], leaves, required, excluded)
  }

  lemma {:induction false} FirstOfConcat(a: seq<nat>, b: seq<nat>, leaves: seq<Option<Bucket>>, required: Bucket, excluded: set<PageId>)
    ensures FirstQualifying(a + b, leaves, required, excluded) ==
            var first := FirstQualifying(a, leaves, required, excluded);
            if first.Some? then first else FirstQualifying(b, leaves, required, excluded)
  {
    if a == [] {
      assert a + b == b;
    } else {
      assert (a + b)[1..] == a[1..] + b;
      FirstOfConcat(a[1..], b, leaves, required, excluded);
    }
  }

  /** No page below node i has a larger bucket than the node says. */
  lemma {:induction false} NodeBoundsLeaves(nodes: seq<Node>, c: nat, i: nat, p: nat, required: Bucket)
    requires IsTree(nodes, c) && i < |nodes|
    requires p in LeafOrder(c, i) && p < c && AtLeast(Leaves(nodes, c)[p], required)
    ensures AtLeast(nodes[i].maxBucket, required)
    decreases |nodes| - i
  {
    if i < c - 1 {
      assert Consistent(nodes, c, i);
      NodeBoundsLeaves(nodes, c, if p in LeafOrder(c, 2 * i + 1) then 2 * i + 1 else 2 * i + 2, p, required);
    }
  }

  /** Pruning loses nothing: the search finds the first qualifying page from left to right. */
  lemma {:induction false} SearchIsFirst(nodes: seq<Node>, c: nat, i: nat, required: Bucket, excluded: set<PageId>)
    requires IsTree(nodes, c) && i < |nodes|
    ensures FindPageRecursive(nodes, c, i, required, excluded)
            == FirstQualifying(LeafOrder(c, i), Leaves(nodes, c), required, excluded)
    decreases |nodes| - i
  {
    var leaves := Leaves(nodes, c);
    if !AtLeast(nodes[i].maxBucket, required) {
      forall p | p in LeafOrder(c, i) ensures !Qualifies(leaves, p, required, excluded) {
        if Qualifies(leaves, p, required, excluded) {
          NodeBoundsLeaves(nodes, c, i, p, required);
        }
      }
    } else if i < c - 1 {
      SearchIsFirst(nodes, c, 2 * i + 1, required, excluded);
      SearchIsFirst(nodes, c, 2 * i + 2, required, excluded);
      FirstOfConcat(LeafOrder(c, 2 * i + 1), LeafOrder(c, 2 * i + 2), leaves, required, excluded);
    } else {
      assert LeafOk(nodes, c, i);
      assert leaves[i - (c - 1)] == nodes[i].maxBucket;
    }
  }

  // --- the order in closed form ---

  function Pow2(h: nat): (m: nat)
    ensures m >= 1
  {
    if h == 0 then 1 else 2 * Pow2(h - 1)
  }

  /** The height of a tree with c leaves. */
  function CeilLog2(c: nat): nat {
    if c <= 1 then 0 else 1 + CeilLog2((c + 1) / 2)
  }

  /** The least power of two that is not below c. */
  lemma {:induction false} CeilLog2IsLeast(c: nat)
    requires c >= 1
    ensures c <= Pow2(CeilLog2(c)) < 2 * c
  {
    if c > 1 {
      CeilLog2IsLeast((c + 1) / 2);
    }
  }

  /** The numbers from a up to but not including b. */
  function Range(a: nat, b: nat): (r: seq<nat>)
    ensures |r| == if a < b then b - a else 0
    ensures forall k :: 0 <= k < |r| ==> r[k] == a + k
  {
    if a < b then seq(b - a, k => a + k) else []
  }

  /** The leftmost place d levels below node i. */
  function Leftmost(i: nat, d: nat): nat
    decreases d
  {
    if d == 0 then i else Leftmost(2 * i + 1, d - 1)
  }

  lemma {:induction false} LeftmostIsChildOfAbove(i: nat, d: nat)
    requires d >= 1
    ensures Leftmost(i, d) == 2 * Leftmost(i, d - 1) + 1
    decreases d
  {
    if d > 1 {
      LeftmostIsChildOfAbove(2 * i + 1, d - 1);
    }
  }

  lemma {:induction false} LeftmostOfNext(i: nat, d: nat)
    ensures Leftmost(i + 1, d) == Leftmost(i, d) + Pow2(d)
    decreases d
  {
    if d > 0 {
      LeftmostOfNext(2 * i + 2, d - 1);
      LeftmostOfNext(2 * i + 1, d - 1);
    }
  }

  lemma {:induction false} LeftmostIsFar(i: nat, d: nat)
    requires d >= 2
    ensures Leftmost(i, d) >= 4 * i + 3 && Pow2(d) >= 4
    decreases d
  {
    if d > 2 {
      LeftmostIsFar(2 * i + 1, d - 1);
    } else {
      assert Leftmost(i, 2) == Leftmost(2 * i + 1, 1) == Leftmost(4 * i + 3, 0);
    }
  }

  lemma {:induction false} LeftmostOfRoot(h: nat)
    ensures Leftmost(0, h) == Pow2(h) - 1
  {
    if h > 0 {
      LeftmostOfRoot(h - 1);
      LeftmostIsChildOfAbove(0, h);
    }
  }

  /** Node i is d levels above the lowest level, which starts at place Pow2(h) - 1. */
  ghost predicate AtLevel(c: nat, i: nat, d: nat, h: nat) {
    && c <= Pow2(h) < 2 * c
    && i < 2 * c - 1
    && Pow2(h) - 1 <= Leftmost(i, d) && Leftmost(i, d) + Pow2(d) <= 2 * Pow2(h) - 1
  }

  /** How many leaves lie among the first i nodes. */
  function LeavesBefore(c: nat, i: nat): nat
    requires c >= 1
  {
    if i < c - 1 then 0 else if i < 2 * c - 1 then i - (c - 1) else c
  }

  /** The pages of the leaves among nodes start, ..., end - 1. */
  ghost function PagesIn(c: nat, start: nat, end: nat): seq<nat>
    requires c >= 1
  {
    Range(LeavesBefore(c, start), LeavesBefore(c, end))
  }

  lemma PagesJoin(c: nat, start: nat, middle: nat, end: nat)
    requires c >= 1 && start <= middle <= end
    ensures PagesIn(c, start, middle) + PagesIn(c, middle, end) == PagesIn(c, start, end)
  {
  }

  /** A row of leaves on the lowest level, and after it a row on the level above. */
  ghost function TwoRows(c: nat, first: nat, last: nat, above: nat, end: nat): seq<nat>
    requires c >= 1
  {
    PagesIn(c, first, last) + PagesIn(c, above, end)
  }

  /** The pages of the leaves below node i, if those are on the two lowest levels. */
  ghost function RowsBelow(c: nat, i: nat, d: nat): seq<nat>
    requires c >= 1
  {
    if d == 0 then PagesIn(c, i, i + 1)
    else TwoRows(c, Leftmost(i, d), Leftmost(i + 1, d), Leftmost(i, d - 1), Leftmost(i + 1, d - 1))
  }

  lemma ChildrenAtLevel(c: nat, i: nat, d: nat, h: nat)
    requires AtLevel(c, i, d, h) && d >= 1 && i < c - 1
    ensures AtLevel(c, 2 * i + 1, d - 1, h) && AtLevel(c, 2 * i + 2, d - 1, h)
    ensures Leftmost(2 * i + 2, d - 1) == Leftmost(i, d) + Pow2(d - 1)
  {
    LeftmostOfNext(2 * i + 1, d - 1);
  }

  /** Two half-rows of leaves on the lowest level and two on the level above: one of the middle two is empty. */
  lemma HalfRowsJoin(c: nat, first: nat, mid: nat, last: nat, above: nat, halfway: nat, end: nat)
    requires c >= 1 && first <= mid <= last && above <= halfway <= end && mid == 2 * halfway + 1
    ensures TwoRows(c, first, mid, above, halfway) + TwoRows(c, mid, last, halfway, end) == TwoRows(c, first, last, above, end)
  {
    var a, b := PagesIn(c, first, mid), PagesIn(c, above, halfway);
    var x, y := PagesIn(c, mid, last), PagesIn(c, halfway, end);
    PagesJoin(c, first, mid, last);
    PagesJoin(c, above, halfway, end);
    assert a + x == PagesIn(c, first, last) && b + y == PagesIn(c, above, end);
    assert b == [] || x == [];
    Regroup(a, b, x, y);
  }

  lemma Regroup(a: seq<nat>, b: seq<nat>, x: seq<nat>, y: seq<nat>)
    requires b == [] || x == []
    ensures a + b + (x + y) == (a + x) + (b + y)
  {
    assert b + x == x + b;
    assert a + b + (x + y) == a + (b + x) + y;
    assert (a + x) + (b + y) == a + (x + b) + y;
  }

  /** The rows below a node are those below its children, side by side. */
  lemma HalvesJoin(c: nat, i: nat, d: nat)
    requires c >= 1 && d >= 2
    ensures RowsBelow(c, 2 * i + 1, d - 1) + RowsBelow(c, 2 * i + 2, d - 1) == RowsBelow(c, i, d)
  {
    var left, right, next := 2 * i + 1, 2 * i + 2, 2 * i + 3;
    LeftmostOfNext(left, d - 1);
    LeftmostOfNext(right, d - 1);
    LeftmostOfNext(left, d - 2);
    LeftmostOfNext(right, d - 2);
    LeftmostIsChildOfAbove(right, d - 1);
    HalfRowsJoin(c, Leftmost(left, d - 1), Leftmost(right, d - 1), Leftmost(next, d - 1),
                 Leftmost(left, d - 2), Leftmost(right, d - 2), Leftmost(next, d - 2));
  }

  /** A node at the lowest level or just above it. */
  lemma LowLeafOrder(c: nat, i: nat, d: nat, h: nat)
    requires AtLevel(c, i, d, h) && (i >= c - 1 || d == 1)
    ensures LeafOrder(c, i) == RowsBelow(c, i, d)
  {
    if d >= 2 {
      LeftmostIsFar(i, d);
    } else if d == 1 {
      assert Leftmost(i + 1, 1) == Leftmost(2 * i + 3, 0) == 2 * i + 3;
      assert Leftmost(i, 1) == Leftmost(2 * i + 1, 0) == 2 * i + 1;
    }
  }

  lemma {:induction false} LeafOrderAt(c: nat, i: nat, d: nat, h: nat)
    requires AtLevel(c, i, d, h)
    ensures LeafOrder(c, i) == RowsBelow(c, i, d)
    decreases d
  {
    if d >= 2 && i < c - 1 {
      ChildrenAtLevel(c, i, d, h);
      LeafOrderAt(c, 2 * i + 1, d - 1, h);
      LeafOrderAt(c, 2 * i + 2, d - 1, h);
      HalvesJoin(c, i, d);
    } else {
      LowLeafOrder(c, i, d, h);
    }
  }

  /**
   * The order in which a search meets the pages of a map of capacity c: with m the least
   * power of two not below c, first m - c, ..., c - 1 and then 0, ..., m - c - 1.
   */
  ghost function SearchOrder(c: nat): (order: seq<nat>)
    requires c >= 1
  {
    var m := Pow2(CeilLog2(c));
    CeilLog2IsLeast(c);
    Range(m - c, c) + Range(0, m - c)
  }

  lemma LeafOrderOfRoot(c: nat)
    requires c >= 1
    ensures LeafOrder(c, 0) == SearchOrder(c)
  {
    var h := CeilLog2(c);
    CeilLog2IsLeast(c);
    LeftmostOfRoot(h);
    if h > 0 {
      LeftmostOfRoot(h - 1);
    }
    LeftmostOfNext(0, h);
    if h > 0 {
      LeftmostOfNext(0, h - 1);
    }
    LeafOrderAt(c, 0, h, h);
  }

  lemma {:induction false} HeightAt(c: nat, i: nat, d: nat, h: nat)
    requires AtLevel(c, i, d, h)
    ensures Height(c, i) <= d
    ensures Leftmost(i, d) < 2 * c - 1 ==> Height(c, i) == d
    decreases d
  {
    if d >= 2 {
      LeftmostIsFar(i, d);
    }
    if d >= 1 && i < c - 1 {
      ChildrenAtLevel(c, i, d, h);
      HeightAt(c, 2 * i + 1, d - 1, h);
      HeightAt(c, 2 * i + 2, d - 1, h);
    }
  }

  lemma HeightOfRoot(c: nat)
    requires c >= 1
    ensures Height(c, 0) == CeilLog2(c)
  {
    var h := CeilLog2(c);
    CeilLog2IsLeast(c);
    LeftmostOfRoot(h);
    HeightAt(c, 0, h, h);
  }

  /** The order holds every page of the map, once. */
  lemma SearchOrderIsPermutation(c: nat)
    requires c >= 1
    ensures |SearchOrder(c)| == c
    ensures forall p :: p in SearchOrder(c) <==> 0 <= p < c
    ensures forall j, k :: 0 <= j < k < c ==> SearchOrder(c)[j] != SearchOrder(c)[k]
  {
    var m := Pow2(CeilLog2(c));
    CeilLog2IsLeast(c);
    forall p | 0 <= p < c ensures p in SearchOrder(c) {
      assert SearchOrder(c)[Rank(c, p)] == p;
    }
  }

  /** The place of page p in the order. */
  ghost function Rank(c: nat, p: nat): (k: nat)
    requires p < c
    ensures k < c
  {
    var m := Pow2(CeilLog2(c));
    CeilLog2IsLeast(c);
    if p >= m - c then p - (m - c) else p + 2 * c - m
  }

  lemma {:induction false} FirstHasLeastRank(order: seq<nat>, leaves: seq<Option<Bucket>>, required: Bucket, excluded: set<PageId>, j: nat)
    requires j < |order| && Qualifies(leaves, order[j], required, excluded)
    ensures var r := FirstQualifying(order, leaves, required, excluded);
            r.Some? && exists k :: 0 <= k <= j && order[k] == r.value
  {
    if !Qualifies(leaves, order[0], required, excluded) {
      FirstHasLeastRank(order[1..], leaves, required, excluded, j - 1);
      var r := FirstQualifying(order, leaves, required, excluded);
      var k :| 0 <= k <= j - 1 && order[1..][k] == r.value;
      assert order[k + 1] == r.value;
    } else {
      assert order[0] == FirstQualifying(order, leaves, required, excluded).value;
    }
  }

  lemma RankIsPlace(c: nat, k: nat)
    requires k < c
    ensures |SearchOrder(c)| == c && SearchOrder(c)[k] < c && Rank(c, SearchOrder(c)[k]) == k
    ensures SearchOrder(c)[Rank(c, k)] == k
  {
    CeilLog2IsLeast(c);
  }

  /** The first qualifying page in search order is the one of least rank, and there is one if any page qualifies. */
  lemma FirstIsOfLeastRank(c: nat, leaves: seq<Option<Bucket>>, required: Bucket, excluded: set<PageId>, q: nat)
    requires c >= 1 && |leaves| == c && Qualifies(leaves, q, required, excluded)
    ensures var r := FirstQualifying(SearchOrder(c), leaves, required, excluded);
            r.Some? && Qualifies(leaves, r.value, required, excluded) && Rank(c, r.value) <= Rank(c, q)
  {
    var order := SearchOrder(c);
    RankIsPlace(c, q);
    FirstHasLeastRank(order, leaves, required, excluded, Rank(c, q));
    var r := FirstQualifying(order, leaves, required, excluded);
    var k :| 0 <= k <= Rank(c, q) && order[k] == r.value;
    RankIsPlace(c, k);
  }

  /** Among capacities, the powers of two are exactly those for which a search meets the pages by number. */
  lemma RankIsPageNumber(c: nat)
    requires c >= 1
    ensures (forall p :: 0 <= p < c ==> Rank(c, p) == p) <==> c == Pow2(CeilLog2(c))
  {
    CeilLog2IsLeast(c);
    if c != Pow2(CeilLog2(c)) {
      assert Rank(c, 0) != 0;
    }
  }

  /** The whole search: it answers a qualifying page of least rank, and nothing only if no page qualifies. */
  lemma SearchFromRoot(nodes: seq<Node>, c: nat, required: Bucket, excluded: set<PageId>)
    requires IsTree(nodes, c)
    ensures var leaves, r := Leaves(nodes, c), FindPageRecursive(nodes, c, 0, required, excluded);
            && r == FirstQualifying(SearchOrder(c), leaves, required, excluded)
            && (r.Some? ==> r.value < c && r.value !in excluded && leaves[r.value].Some? && leaves[r.value].value >= required)
            && (forall q: nat :: q < c && q !in excluded && leaves[q].Some? && leaves[q].value >= required ==>
                  r.Some? && Rank(c, r.value) <= Rank(c, q))
  {
    SearchIsFirst(nodes, c, 0, required, excluded);
    LeafOrderOfRoot(c);
    var leaves := Leaves(nodes, c);
    forall q: nat | q < c && q !in excluded && leaves[q].Some? && leaves[q].value >= required
      ensures var r := FindPageRecursive(nodes, c, 0, required, excluded); r.Some? && r.value < c && Rank(c, r.value) <= Rank(c, q)
    {
      FirstIsOfLeastRank(c, leaves, required, excluded, q);
    }
  }

  /** On a map of any capacity c, a search without exclusions looks at no more than 2 * ceil(log2 c) + 1 nodes. */
  lemma SearchIsShort(nodes: seq<Node>, c: nat, required: Bucket)
    requires IsTree(nodes, c)
    ensures Visits(nodes, c, 0, required, {}) <= 2 * CeilLog2(c) + 1
  {
    VisitsAreFew(nodes, c, 0, required);
    HeightOfRoot(c);
  }
}
