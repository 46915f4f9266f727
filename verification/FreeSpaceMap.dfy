/** The free-space map of a heap file: an array of nodes updated from a leaf up. */
module FreeSpaceMaps {
  import opened Storage
  import opened FreeSpaceTrees

  /** From a to b only the buckets of internal nodes have changed. */
  ghost predicate OnlyInnerBucketsChange(a: seq<Node>, b: seq<Node>, c: nat) {
    && c >= 1 && |b| == |a|
    && (forall i :: 0 <= i < |a| ==> b[i].pageId == a[i].pageId)
    && (forall i :: c - 1 <= i < |a| ==> b[i] == a[i])
  }

  class FreeSpaceMap {
    const capacity: nat
    const nodes: array<Node>

    ghost predicate Valid()
      reads nodes
    {
      IsTree(nodes[..], capacity)
    }

    /** The bucket registered for each page. */
    ghost function Buckets(): (leaves: seq<Option<Bucket>>)
      requires Valid()
      reads nodes
      ensures |leaves| == capacity
    {
      Leaves(nodes[..], capacity)
    }

    constructor Empty(capacity: nat)
      requires capacity >= 1
      ensures this.capacity == capacity && Valid() && fresh(nodes)
      ensures Buckets() == seq(capacity, p => None)
    {
      this.capacity := capacity;
      nodes := new Node[2 * capacity - 1](i => Node(None, None));
    }

    /** new: refuses capacity zero. */
    static method New(capacity: nat) returns (r: Result<FreeSpaceMap, FreeSpaceMapError>)
      ensures r.Failure? <==> capacity == 0
      ensures r.Failure? ==> r.error == InvalidArgument
      ensures r.Success? ==>
                var m := r.value;
                fresh(m) && fresh(m.nodes) && m.capacity == capacity && m.Valid() && m.Buckets() == seq(capacity, p => None)
    {
      if capacity == 0 {
        return Failure(InvalidArgument);
      }
      var m := new FreeSpaceMap.Empty(capacity);
      return Success(m);
    }

    /** Sets a leaf's bucket to `bucket` and brings its ancestors up to date. */
    method SetLeaf(pageId: PageId, bucket: Bucket)
      requires Valid() && pageId < capacity
      modifies nodes
      ensures Valid() && Buckets() == old(Buckets())[pageId := Some(bucket)]
    {
      ghost var before := nodes[..];
      var leafIndex := capacity - 1 + pageId;
      nodes[leafIndex] := Node(Some(bucket), Some(pageId));
      ghost var middle := nodes[..];
      assert forall i :: 0 <= i < |middle| && i != leafIndex ==> middle[i] == before[i];
      if leafIndex != 0 {
        var parent := (leafIndex - 1) / 2;
        forall i | 0 <= i < capacity - 1 && i != parent ensures Consistent(middle, capacity, i) {
          assert Consistent(before, capacity, i);
        }
        LeafSetKeepsLeaves(before, middle, capacity, pageId);
        RecomputeAncestors(parent);
        SameLeaves(middle, nodes[..], capacity);
      }
      LeafSetKeepsLeaves(before, middle, capacity, pageId);
      assert Leaves(middle, capacity) == Leaves(before, capacity)[pageId := Some(bucket)];
    }

    method RegisterPage(pageId: PageId, freeSpace: nat) returns (r: Result<Bucket, FreeSpaceMapError>)
      requires Valid()
      modifies nodes
      ensures Valid()
      ensures pageId >= capacity ==> r == Failure(InvalidPageId)
      ensures pageId < capacity ==> r == GetBucketId(freeSpace)
      ensures Buckets() == if r.Success? then old(Buckets())[pageId := Some(r.value)] else old(Buckets())
    {
      if pageId >= capacity {
        return Failure(InvalidPageId);
      }
      var bucket := GetBucketId(freeSpace);
      if bucket.Failure? {
        return bucket;
      }
      SetLeaf(pageId, bucket.value);
      return bucket;
    }

    method UpdatePage(pageId: PageId, freeSpace: nat) returns (r: Result<Bucket, FreeSpaceMapError>)
      requires Valid()
      modifies nodes
      ensures Valid()
      ensures pageId >= capacity ==> r == Failure(InvalidPageId)
      ensures pageId < capacity ==>
                r == if GetBucketId(freeSpace).Success? && old(Buckets())[pageId].None? then Failure(PageDoesNotExist)
                     else GetBucketId(freeSpace)
      ensures Buckets() == if r.Success? then old(Buckets())[pageId := Some(r.value)] else old(Buckets())
    {
      if pageId >= capacity {
        return Failure(InvalidPageId);
      }
      var bucket := GetBucketId(freeSpace);
      if bucket.Failure? {
        return bucket;
      }
      var leafIndex := capacity - 1 + pageId;
      assert LeafOk(nodes[..], capacity, leafIndex);
      if nodes[leafIndex].pageId != Some(pageId) {
        return Failure(PageDoesNotExist);
      }
      SetLeaf(pageId, bucket.value);
      return bucket;
    }

    /**
     * Repairs the bucket of one internal node and then those above it. The first leaf is
     * the one node that neither the guard turns away nor has children.
     */
    method RecomputeAncestors(internalNode: nat)
      requires Shape(nodes[..], capacity) && internalNode != capacity - 1
      requires forall i :: 0 <= i < capacity - 1 && i != internalNode ==> Consistent(nodes[..], capacity, i)
      modifies nodes
      ensures forall i :: 0 <= i < capacity - 1 ==> Consistent(nodes[..], capacity, i)
      ensures OnlyInnerBucketsChange(old(nodes[..]), nodes[..], capacity)
      decreases internalNode
    {
      if internalNode > capacity - 1 {
        return;
      }
      ghost var before := nodes[..];
      var left := nodes[2 * internalNode + 1].maxBucket;
      var right := nodes[2 * internalNode + 2].maxBucket;
      nodes[internalNode] := nodes[internalNode].(maxBucket := if Greater(left, right) then left else right);
      ghost var after := nodes[..];
      assert forall i :: 0 <= i < |after| && i != internalNode ==> after[i] == before[i];
      forall i | 0 <= i < capacity - 1 && (internalNode == 0 || i != (internalNode - 1) / 2)
        ensures Consistent(after, capacity, i)
      {
        assert i != internalNode ==> Consistent(before, capacity, i);
      }
      if internalNode != 0 {
        RecomputeAncestors((internalNode - 1) / 2);
      }
    }

    function FindPageExcluding(requiredSpace: nat, excluded: set<PageId>): (r: Result<Option<PageId>, FreeSpaceMapError>)
      requires Valid()
      reads nodes
      ensures r.Failure? <==> GetBucketId(requiredSpace).Failure?
      ensures r.Failure? ==> r.error == InvalidFreeSpace
      ensures r.Success? ==>
                r.value == FirstQualifying(SearchOrder(capacity), Buckets(), GetBucketId(requiredSpace).value, excluded)
    {
      var bucket := GetBucketId(requiredSpace);
      if bucket.Failure? then Failure(bucket.error)
      else
        SearchFromRoot(nodes[..], capacity, bucket.value, excluded);
        Success(FindPageRecursive(nodes[..], capacity, 0, bucket.value, excluded))
    }

    function FindPage(requiredSpace: nat): (r: Result<Option<PageId>, FreeSpaceMapError>)
      requires Valid()
      reads nodes
      ensures r.Failure? <==> requiredSpace >= 4096
      ensures r.Failure? ==> r.error == InvalidFreeSpace
      ensures GetBucketId(requiredSpace).Success? ==>
                r == Success(FindLeaf(nodes[..], capacity, 0, GetBucketId(requiredSpace).value))
    {
      if GetBucketId(requiredSpace).Success? then
        GreedyIsBacktracking(nodes[..], capacity, 0, GetBucketId(requiredSpace).value);
        FindPageExcluding(requiredSpace, {})
      else FindPageExcluding(requiredSpace, {})
    }

    function GetLeafBucket(pageId: PageId): (r: Result<Option<Bucket>, FreeSpaceMapError>)
      requires Valid()
      reads nodes
      ensures r == if pageId < capacity then Success(Buckets()[pageId]) else Failure(InvalidPageId)
    {
      if pageId >= capacity then Failure(InvalidPageId)
      else Success(nodes[capacity - 1 + pageId].maxBucket)
    }
  }

  lemma SameLeaves(a: seq<Node>, b: seq<Node>, c: nat)
    requires Shape(a, c) && OnlyInnerBucketsChange(a, b, c)
    ensures Leaves(b, c) == Leaves(a, c)
    ensures LeavesOk(a, c) ==> LeavesOk(b, c)
  {
    if LeavesOk(a, c) {
      forall i | c - 1 <= i < |b| ensures LeafOk(b, c, i) {
        assert LeafOk(a, c, i);
      }
    }
  }

  lemma LeafSetKeepsLeaves(a: seq<Node>, b: seq<Node>, c: nat, p: PageId)
    requires Shape(a, c) && LeavesOk(a, c) && p < c && |b| == |a|
    requires b[c - 1 + p].maxBucket.Some? && b[c - 1 + p].pageId == Some(p)
    requires forall i :: 0 <= i < |a| && i != c - 1 + p ==> b[i] == a[i]
    ensures LeavesOk(b, c) && Leaves(b, c) == Leaves(a, c)[p := b[c - 1 + p].maxBucket]
  {
    forall i | c - 1 <= i < |b| ensures LeafOk(b, c, i) {
      assert i != c - 1 + p ==> LeafOk(a, c, i);
    }
  }
}
