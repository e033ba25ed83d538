/**
 * The fixed-capacity directed graph of graph.h, in place.
 *
 * The client supplies the node array and every bucket. A node's id is its
 * index in the node array; its out-edges live in a linked chain of buckets
 * of BUCKET_SIZE slots. The operations walk and update that linked
 * structure; the ghost fields give its value: `Contents[i]` is node i's
 * chain as a `Chains.Chain`, and every operation is specified by the
 * function of module Chains that it implements.
 *
 * Return codes follow the source: 0 means success (or "present"), 1 means
 * failure (or "absent").
 */
module Graph {
  import opened Chains

  /** A bucket of edges out of a node (BucketTag): its slots and the next bucket, null if last. */
  class Bucket {
    const adjNodes: array<Slot>
    var next: Bucket?

    /** The client's allocation of a bucket: its slots hold unspecified values until it is added. */
    constructor ()
      ensures fresh(adjNodes) && adjNodes.Length == BUCKET_SIZE
    {
      adjNodes := new Slot[BUCKET_SIZE];
    }

    /** The initialisation graph_add_bucket gives a bucket: no next bucket, every slot null. */
    method Init()
      requires adjNodes.Length == BUCKET_SIZE
      modifies this, adjNodes
      ensures next == null && adjNodes[..] == EmptyBucket()
    {
      next := null;
      for idx := 0 to BUCKET_SIZE
        invariant forall j :: 0 <= j < idx ==> adjNodes[j] == None
        modifies adjNodes
      {
        adjNodes[idx] := None;
      }
    }
  }

  /** A node (NodeTag): its id and the first bucket of its chain, null if it has none. */
  datatype Node = Node(id: int, edgesOut: Bucket?)

  /** A pointer to an edge slot (a Node**): null, or slot `index` of `bucket`. */
  datatype SlotRef = Null | Ref(bucket: Bucket, index: nat)

  /** A graph (GraphTag). */
  class Graph {
    var size: int
    var numNodes: int
    var numEdges: int
    var nodes: array<Node>

    /** Contents[i]: the slot contents of node i's chain. */
    ghost var Contents: seq<Chain>
    /** Buckets[i]: the bucket objects of node i's chain, in chain order. */
    ghost var Buckets: seq<seq<Bucket>>
    /** Where each linked bucket, and its slot array, sits: (node, place in the chain). */
    ghost var Owner: map<object, (int, int)>
    /** The buckets and slot arrays in use. */
    ghost var Repr: set<object>

    ghost predicate Valid()
      reads this, nodes, Repr
    {
      && 0 <= size <= nodes.Length && this !in Repr && nodes !in Repr
      && |Contents| == size && |Buckets| == size
      && (forall i :: 0 <= i < size ==> |Buckets[i]| == |Contents[i]|)
      && (forall i :: 0 <= i < size ==> NodeValid(i))
    }

    /** Node i has id i, and its linked chain holds exactly Contents[i]. */
    ghost predicate NodeValid(i: int)
      reads this, nodes, Repr
      requires 0 <= i < size <= nodes.Length && |Contents| == size && |Buckets| == size
      requires |Buckets[i]| == |Contents[i]|
    {
      && nodes[i].id == i
      && WellFormed(Contents[i], size)
      && nodes[i].edgesOut == (if Buckets[i] == [] then null else Buckets[i][0])
      && forall k :: 0 <= k < |Buckets[i]| ==> BucketValid(i, k)
    }

    /** Bucket k of node i is linked to bucket k + 1, owned by no other place, and holds Contents[i][k]. */
    ghost predicate BucketValid(i: int, k: int)
      reads this, Repr
      requires 0 <= i < |Buckets| == |Contents| && 0 <= k < |Buckets[i]| == |Contents[i]|
    {
      var b := Buckets[i][k];
      && b in Repr && b.adjNodes in Repr
      && b in Owner && Owner[b] == (i, k)
      && b.adjNodes in Owner && Owner[b.adjNodes] == (i, k)
      && b.adjNodes[..] == Contents[i][k]
      && b.next == (if k + 1 < |Buckets[i]| then Buckets[i][k + 1] else null)
    }

    /**
     * graph_init: the graph uses `nodeArr` for its nodes; every node gets its
     * index as id and no bucket chain; nodes past `nodeArrSize` are untouched.
     */
    constructor Init(nodeArr: array<Node>, nodeArrSize: int)
      requires 0 <= nodeArrSize <= nodeArr.Length
      modifies nodeArr
      ensures Valid()
      ensures size == nodeArrSize && numNodes == 0 && numEdges == 0 && nodes == nodeArr
      ensures forall i :: 0 <= i < nodeArrSize ==> nodeArr[i] == Node(i, null)
      ensures forall i :: nodeArrSize <= i < nodeArr.Length ==> nodeArr[i] == old(nodeArr[i])
      ensures |Contents| == nodeArrSize && forall i :: 0 <= i < nodeArrSize ==> Contents[i] == []
      ensures Repr == {}
    {
      size := nodeArrSize;
      numNodes := 0;
      numEdges := 0;
      nodes := nodeArr;
      Contents := seq(nodeArrSize, _ => []);
      Buckets := seq(nodeArrSize, _ => []);
      Owner := map[];
      Repr := {};
      new;
      for idx := 0 to nodeArrSize
        invariant forall j :: 0 <= j < idx ==> nodeArr[j] == Node(j, null)
        invariant forall j :: idx <= j < nodeArr.Length ==> nodeArr[j] == old(nodeArr[j])
        modifies nodeArr
      {
        nodeArr[idx] := Node(idx, null);
      }
    }

    /**
     * graph_add_bucket: clears the client's bucket and links it as the last
     * bucket of the node's chain. Nothing else changes.
     */
    method AddBucket(nodeId: int, bucket: Bucket)
      requires Valid() && 0 <= nodeId < size
      requires bucket.adjNodes.Length == BUCKET_SIZE
      requires bucket !in Repr && bucket.adjNodes !in Repr
      modifies this, nodes, Repr, bucket, bucket.adjNodes
      ensures Valid()
      ensures size == old(size) && numNodes == old(numNodes) && numEdges == old(numEdges) && nodes == old(nodes)
      ensures Contents == old(Contents)[nodeId := Chains.AddBucket(old(Contents[nodeId]))]
      ensures Buckets == old(Buckets)[nodeId := old(Buckets[nodeId]) + [bucket]]
      ensures Repr == old(Repr) + {bucket, bucket.adjNodes}
      ensures forall i :: 0 <= i < nodes.Length && i != nodeId ==> nodes[i] == old(nodes[i])
    {
      ghost var chain := Buckets[nodeId];
      var node := FindNodeById(nodeId);

      bucket.Init();
      assert Valid();

      if node.edgesOut == null {
        nodes[nodeId] := node.(edgesOut := bucket);
      } else {
        var cursor := FindLastBucket(nodeId);
        cursor.next := bucket;
      }

      Owner := Owner[bucket := (nodeId, |chain|)][bucket.adjNodes := (nodeId, |chain|)];
      Repr := Repr + {bucket, bucket.adjNodes};
      Buckets := Buckets[nodeId := chain + [bucket]];
      Contents := Contents[nodeId := Contents[nodeId] + [EmptyBucket()]];

      assert forall o :: o in old(Repr) && o != Last(chain, bucket) ==> unchanged(o);
      LinkKeepsValid(nodeId);
    }

    /**
     * The walk of graph_add_bucket: from the node's first bucket along
     * `next` to the bucket whose `next` is null, the last of the chain.
     */
    method FindLastBucket(nodeId: int) returns (cursor: Bucket)
      requires Valid() && 0 <= nodeId < size && Buckets[nodeId] != []
      ensures cursor == Buckets[nodeId][|Buckets[nodeId]| - 1] && cursor.next == null && cursor in Repr
    {
      ghost var chain := Buckets[nodeId];
      assert NodeValid(nodeId);
      cursor := nodes[nodeId].edgesOut;
      ghost var k := 0;
      while cursor.next != null
        invariant 0 <= k < |chain| && cursor == chain[k]
        decreases |chain| - k
      {
        assert BucketValid(nodeId, k);
        cursor := cursor.next;
        k := k + 1;
      }
      assert BucketValid(nodeId, k);
    }

    /** The last bucket of a chain, or `dflt` for an empty chain. */
    ghost function Last(chain: seq<Bucket>, dflt: Bucket): Bucket
    {
      if chain == [] then dflt else chain[|chain| - 1]
    }

    /**
     * Linking a cleared bucket that was not in use at the end of node
     * `nodeId`'s chain (through the node when the chain was empty, else
     * through the last bucket's `next`) keeps the graph valid. The new
     * bucket is the last one of the new chain.
     */
    twostate lemma LinkKeepsValid(nodeId: int)
      requires old(Valid()) && 0 <= nodeId < old(size)
      requires size == old(size) && nodes == old(nodes)
      requires |Buckets| == size && |Buckets[nodeId]| == |old(Buckets[nodeId])| + 1
      requires
        var chain, bucket := old(Buckets[nodeId]), Buckets[nodeId][|Buckets[nodeId]| - 1];
        && bucket !in old(Repr) && bucket.adjNodes !in old(Repr)
        && bucket.next == null && bucket.adjNodes[..] == EmptyBucket()
        && (forall i :: 0 <= i < size && i != nodeId ==> nodes[i] == old(nodes[i]))
        && nodes[nodeId].id == old(nodes[nodeId].id)
        && nodes[nodeId].edgesOut == (if chain == [] then bucket else old(nodes[nodeId].edgesOut))
        && (chain != [] ==> Last(chain, bucket).next == bucket)
        && (forall o :: o in old(Repr) && o != Last(chain, bucket) ==> unchanged(o))
        && Owner == old(Owner)[bucket := (nodeId, |chain|)][bucket.adjNodes := (nodeId, |chain|)]
        && Repr == old(Repr) + {bucket, bucket.adjNodes}
        && Buckets == old(Buckets)[nodeId := chain + [bucket]]
        && Contents == old(Contents)[nodeId := Chains.AddBucket(old(Contents[nodeId]))]
      ensures Valid()
    {
      ghost var chain, bucket := old(Buckets[nodeId]), Buckets[nodeId][|Buckets[nodeId]| - 1];
      assert old(NodeValid(nodeId));
      AddBucketWellFormed(old(Contents[nodeId]), size);
      forall i | 0 <= i < size
        ensures NodeValid(i)
      {
        assert old(NodeValid(i));
        forall j | 0 <= j < |Buckets[i]|
          ensures BucketValid(i, j)
        {
          if i != nodeId || j < |chain| {
            assert old(BucketValid(i, j));
            if chain != [] && (i, j) != (nodeId, |chain| - 1) {
              assert old(BucketValid(nodeId, |chain| - 1));
              assert Buckets[i][j] != Last(chain, bucket);
            }
          }
        }
      }
    }

    /**
     * graph_add_edge: 1 when `fromId` has no empty slot, with nothing
     * changed; otherwise 0, and the first empty slot of `fromId` points at
     * `toId`.
     */
    method AddEdge(fromId: int, toId: int) returns (r: int)
      requires Valid() && 0 <= fromId < size && 0 <= toId < size
      modifies this, Repr
      ensures Valid()
      ensures size == old(size) && numNodes == old(numNodes) && numEdges == old(numEdges) && nodes == old(nodes)
      ensures Buckets == old(Buckets) && Repr == old(Repr)
      ensures (Contents[fromId], r) == Chains.AddEdge(old(Contents[fromId]), toId)
      ensures forall i :: 0 <= i < size && i != fromId ==> Contents[i] == old(Contents[i])
    {
      var edgeSpot := FindEmptyEdge(fromId);
      if edgeSpot == Null {
        return 1;
      }
      assert NodeValid(fromId);
      ghost var p := FindSlot(Contents[fromId], None).value;
      assert BucketValid(fromId, p.bucket);

      var nodeTo := FindNodeById(toId);
      edgeSpot.bucket.adjNodes[edgeSpot.index] := Some(nodeTo.id);
      Contents := Contents[fromId := SetSlot(Contents[fromId], p, Some(toId))];
      AddEdgeWellFormed(old(Contents[fromId]), toId, size);
      forall i | 0 <= i < size
        ensures NodeValid(i)
      {
        assert old(NodeValid(i));
        forall j | 0 <= j < |Buckets[i]|
          ensures BucketValid(i, j)
        {
          assert old(BucketValid(i, j));
        }
      }
      return 0;
    }

    /**
     * graph_del_edge: when some slot of `fromId` points at `toId`, the
     * first such slot becomes null; otherwise nothing changes.
     */
    method DelEdge(fromId: int, toId: int)
      requires Valid() && 0 <= fromId < size && 0 <= toId < size
      modifies this, Repr
      ensures Valid()
      ensures size == old(size) && numNodes == old(numNodes) && numEdges == old(numEdges) && nodes == old(nodes)
      ensures Buckets == old(Buckets) && Repr == old(Repr)
      ensures Contents == old(Contents)[fromId := Chains.DelEdge(old(Contents[fromId]), toId)]
    {
      var edge := FindEdge(fromId, toId);
      if edge == Null {
        return;
      }
      assert NodeValid(fromId);
      ghost var p := FindSlot(Contents[fromId], Some(toId)).value;
      assert BucketValid(fromId, p.bucket);

      edge.bucket.adjNodes[edge.index] := None;
      Contents := Contents[fromId := SetSlot(Contents[fromId], p, None)];
      DelEdgeWellFormed(old(Contents[fromId]), toId, size);
      forall i | 0 <= i < size
        ensures NodeValid(i)
      {
        assert old(NodeValid(i));
        forall j | 0 <= j < |Buckets[i]|
          ensures BucketValid(i, j)
        {
          assert old(BucketValid(i, j));
        }
      }
    }

    /** graph_has_edge: 0 when some slot of `fromId` points at `toId`, 1 otherwise; changes nothing. */
    method HasEdge(fromId: int, toId: int) returns (r: int)
      requires Valid() && 0 <= fromId < size && 0 <= toId < size
      ensures r == Chains.HasEdge(Contents[fromId], toId)
      ensures r == 0 <==> Occurs(Contents[fromId], Some(toId))
      ensures r == 1 <==> !Occurs(Contents[fromId], Some(toId))
    {
      var edgePtr := FindEdge(fromId, toId);
      if edgePtr == Null {
        return 1;
      } else {
        return 0;
      }
    }

    /**
     * graph_node_id_valid: 1 for an id that names no node, 0 for one that
     * does (the opposite of what its comment says; this follows the code).
     */
    function NodeIdValid(nodeId: int): (r: int)
      reads this, nodes, Repr
      requires Valid()
      ensures r == 0 || r == 1
      ensures r == 0 <==> 0 <= nodeId < |Contents|
    {
      if nodeId < 0 || nodeId >= size then 1 else 0
    }

    /**
     * What the comment of graph_node_id_valid promises: 1 for an id that
     * names a node, 0 for one that does not; always the opposite of the
     * code's answer.
     */
    function NodeIdValidAsDocumented(nodeId: int): (r: int)
      reads this, nodes, Repr
      requires Valid()
      ensures r == 0 || r == 1
      ensures r == 1 <==> 0 <= nodeId < |Contents|
      ensures r == 1 - NodeIdValid(nodeId)
    {
      if 0 <= nodeId < size then 1 else 0
    }

    /** graph_find_node_by_id: the node with that id, which is the one at that index. */
    function FindNodeById(nodeId: int): (node: Node)
      reads this, nodes, Repr
      requires Valid() && 0 <= nodeId < size
      ensures node.id == nodeId
      ensures node.edgesOut == (if Buckets[nodeId] == [] then null else Buckets[nodeId][0])
    {
      assert NodeValid(nodeId);
      nodes[nodeId]
    }

    /** graph_find_edge: the first slot of `fromId` that points at `toId`, or null. */
    method FindEdge(fromId: int, toId: int) returns (ref: SlotRef)
      requires Valid() && 0 <= fromId < size && 0 <= toId < size
      ensures match FindSlot(Contents[fromId], Some(toId))
              case None => ref == Null
              case Some(p) => ref == Ref(Buckets[fromId][p.bucket], p.slot)
    {
      var nodeTo := FindNodeById(toId);
      ref := FindPointer(fromId, Some(nodeTo.id));
    }

    /** graph_find_empty_edge: the first empty slot of `nodeId`, or null. */
    method FindEmptyEdge(nodeId: int) returns (ref: SlotRef)
      requires Valid() && 0 <= nodeId < size
      ensures match FindSlot(Contents[nodeId], None)
              case None => ref == Null
              case Some(p) => ref == Ref(Buckets[nodeId][p.bucket], p.slot)
    {
      ref := FindPointer(nodeId, None);
    }

    /**
     * graph_find_pointer: walks the chain of node `fromId`, buckets in chain
     * order and slots in index order, and returns the first slot holding
     * `target`; null when none does.
     */
    method FindPointer(fromId: int, target: Slot) returns (ref: SlotRef)
      requires Valid() && 0 <= fromId < size
      ensures match FindSlot(Contents[fromId], target)
              case None => ref == Null
              case Some(p) => ref == Ref(Buckets[fromId][p.bucket], p.slot)
    {
      ghost var c := Contents[fromId];
      ghost var chain := Buckets[fromId];
      assert NodeValid(fromId);

      var cursor := nodes[fromId].edgesOut;
      ghost var k := 0;
      while cursor != null
        invariant 0 <= k <= |chain|
        invariant cursor == (if k < |chain| then chain[k] else null)
        invariant FindFrom(c, target, k) == FindSlot(c, target)
        decreases |chain| - k
      {
        assert BucketValid(fromId, k);
        for idx := 0 to BUCKET_SIZE
          invariant FindInBucket(c[k], target, idx) == FindInBucket(c[k], target, 0)
        {
          var adjNodes := cursor.adjNodes;
          if adjNodes[idx] == target {
            return Ref(cursor, idx);
          }
        }
        cursor := cursor.next;
        k := k + 1;
      }
      return Null;
    }
  }

  /**
   * graph_node_id_valid as written, on a graph of two nodes: 0 for id 0,
   * which names a node, and 1 for id 2, which names none.
   */
  method NodeIdValidInverted() returns (existing: int, missing: int)
    ensures existing == 0 && missing == 1
  {
    var nodeArr := new Node[2];
    var g := new Graph.Init(nodeArr, 2);
    existing := g.NodeIdValid(0);
    missing := g.NodeIdValid(2);
  }

  /**
   * How a client uses the graph: without a bucket, adding an edge fails;
   * after one bucket is added it succeeds and the edge is then present.
   */
  method AddEdgeNeedsBucket() returns (before: int, after: int, present: int)
    ensures before == 1 && after == 0 && present == 0
  {
    var nodeArr := new Node[2];
    var g := new Graph.Init(nodeArr, 2);
    before := g.AddEdge(0, 1);
    AddEdgeFails([], 1);
    var bucket := new Bucket();
    g.AddBucket(0, bucket);
    after := g.AddEdge(0, 1);
    AddBucketFirstEmpty([], 1);
    present := g.HasEdge(0, 1);
  }
}
