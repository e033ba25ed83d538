# Tyrannosaurus-Regex graph: a verified Dafny model

This project models `src/graph.h`, the header of Tyrannosaurus-Regex that holds
all of its working code. It is a fixed-capacity directed graph stored as an
adjacency list. The client supplies a node array, and each node's id is its
index in that array. A node's out-edges live in a linked chain of buckets, each
with `BUCKET_SIZE` (10) slots. A slot is a null pointer or a pointer to the
target node. The client also supplies the buckets, and an edge can only be added
once the node has a bucket with a free slot. Return codes follow the header:
0 means success (or "present") and 1 means failure (or "absent").

The regex engine is described as using this graph for its automaton's states
and transitions. In the repository, the regex files hold only declarations and
stubs, so this model covers the graph alone.

Two modules:

- `Chains` (`chains.dfy`) gives one node's out-edge storage as a value. A
  `Chain` is the sequence of its buckets' slot contents, in chain order.
  - A slot pointing at node `t` is `Some(t)`; a null slot is `None`. This works
    because a node pointer is always `&nodes[t]`.
  - `FindSlot` is the first-match scan of `graph_find_pointer`: buckets in chain
    order, slots in index order.
  - `AddBucket`, `AddEdge`, `DelEdge` and `HasEdge` are defined through that
    scan.
  - The lemmas state what these operations do to the chain's contents, its
    capacity and the number of copies of each value.
- `Graph` (`graph.dfy`) is the in-place structure.
  - `Graph.Graph` holds the header's `GraphTag` fields over an `array<Node>`.
  - `Graph.Bucket` is a class with a slot `array` and a `next` field.
  - `Graph.SlotRef` stands for the header's `Node**`: null, or a slot of a bucket.
  - Ghost fields give the abstract value of the linked structure:
    - `Contents[i]` is node i's `Chain`;
    - `Buckets[i]` lists its bucket objects in chain order;
    - `Owner` and `Repr` keep distinct buckets and slot arrays apart.
  - `Valid()` ties the fields together:
    - node i has id i;
    - its `edgesOut` is the first bucket of `Buckets[i]`;
    - each bucket's `next` is the following bucket;
    - each bucket's slots hold `Contents[i][k]`.
  - Every operation keeps `Valid()` and states its new `Contents` by the
    matching `Chains` function.

Two helpers have no function of their own in the header:

- `Bucket.Init` is the bucket initialisation written inline in
  `graph_add_bucket`.
- `Graph.FindLastBucket` is the walk to the last bucket written inline there.

`graph_node_id_valid` returns 1 for an id that names **no** node. Its comment
says the opposite. The model follows the code: see "## Findings".

## Model

| member | source | states |
|---|---|---|
| Graph.Graph.Init | src/graph.h:116-130 | the graph uses the given array with the given size and zero counters; node i becomes (id i, no buckets) for every i below the size; later entries are untouched; the graph is valid and every chain is empty |
| Graph.Bucket.Init | src/graph.h:148-153 | the bucket gets no next bucket and all BUCKET_SIZE slots null |
| Graph.Graph.FindLastBucket | src/graph.h:160-169 | walking `next` from the node's first bucket stops at the last bucket of its chain, whose `next` is null |
| Graph.Graph.LinkKeepsValid | src/graph.h:155-169 | linking an unused, cleared bucket at the end of a chain keeps the graph valid: from the node when the chain was empty, else from the last bucket |
| Graph.Graph.AddBucket | src/graph.h:140-170 | the graph stays valid; the node's chain gains one empty bucket at its end (`Chains.AddBucket`); every other node, chain and the counters are unchanged |
| Graph.Graph.AddEdge | src/graph.h:179-195 | returns 1 and changes nothing when the node has no empty slot; otherwise writes `to` into the first empty slot and returns 0 (`Chains.AddEdge`); other nodes are unchanged and the graph stays valid |
| Graph.Graph.DelEdge | src/graph.h:203-218 | clears the first slot of `from` that points at `to`; nothing changes when there is none (`Chains.DelEdge`); the graph stays valid |
| Graph.Graph.HasEdge | src/graph.h:227-242 | returns 0 exactly when some slot of `from` points at `to`, 1 exactly when none does; changes nothing |
| Graph.Graph.NodeIdValid | src/graph.h:249-257 | as written: returns 0 exactly when the id names a node of the graph, 1 otherwise |
| Graph.Graph.NodeIdValidAsDocumented | src/graph.h:244-248 | returns 1 exactly when the id names a node, 0 otherwise, which is always the opposite of `NodeIdValid` |
| Graph.NodeIdValidInverted | src/graph.h:249-257 | on a graph of two nodes, the code's answer is 0 for the existing id 0 and 1 for the missing id 2 |
| Graph.Graph.FindNodeById | src/graph.h:269-273 | the node at index `id` has that id, and its `edgesOut` is the first bucket of its chain |
| Graph.Graph.FindEdge | src/graph.h:285-294 | the first slot of `from` that points at `to` (the position `FindSlot` gives), or null when there is none |
| Graph.Graph.FindEmptyEdge | src/graph.h:305-313 | the first null slot of the node (the position `FindSlot` gives), or null when it has none |
| Graph.Graph.FindPointer | src/graph.h:326-352 | walks buckets in chain order and slots in index order; returns the first slot holding the target, or null exactly when no slot holds it |
| Graph.AddEdgeNeedsBucket | src/graph.h:21-23 | on a fresh graph, add_edge fails before any bucket is added; after one add_bucket it succeeds, and the edge is then present |
| Chains.FindInBucket | src/graph.h:337-345 | the first slot at or after `from` holding the value, or none when no such slot holds it |
| Chains.FindFrom | src/graph.h:333-348 | the first position, in chain order from bucket `from`, whose slot holds the value, or none when no such position exists |
| Chains.FindSlot | src/graph.h:326-352 | returns a position only if it is the first, in chain order, holding the value; returns none exactly when the value occurs nowhere |
| Chains.FindSlotExactly | src/graph.h:326-352 | the first match is unique: `FindSlot` returns `p` exactly when `p` is the first position holding the value |
| Chains.HasEdge | src/graph.h:227-242 | 0 exactly when some slot points at `to`, 1 exactly when none does |
| Chains.CountInUpdate | src/graph.h:190-192 | overwriting one slot of a bucket takes one away from the old value's count and adds one to the new value's count |
| Chains.CountSetSlot | src/graph.h:190-192 | overwriting one slot of a chain takes one away from the old value's count and adds one to the new value's count |
| Chains.CountInPositive | src/graph.h:337-345 | a value's count in a bucket is positive exactly when some slot of that bucket holds it |
| Chains.CountPositive | src/graph.h:326-352 | a value's count in a chain is positive exactly when some slot of the chain holds it |
| Chains.CountAppend | src/graph.h:160-169 | counts add up over appended chains |
| Chains.CapacityAppend | src/graph.h:160-169 | capacities add up over appended chains |
| Chains.CountInAll | src/graph.h:150-153 | a bucket whose slots all hold one value counts that value once per slot |
| Chains.AddBucketGrows | src/graph.h:140-170 | adding a bucket keeps every existing bucket and appends an empty one; capacity and free slots both grow by BUCKET_SIZE |
| Chains.AddBucketFirstEmpty | src/graph.h:21-23 | after a bucket is added, the first empty slot is the earlier one, or slot 0 of the new bucket when there was none; so add_edge then succeeds |
| Chains.AddBucketWellFormed | src/graph.h:140-170 | adding a bucket keeps every bucket at BUCKET_SIZE slots and every target a node of the graph |
| Chains.CapacityWellFormed | src/graph.h:53-54 | a chain of well-formed buckets has BUCKET_SIZE slots per bucket |
| Chains.AddEdgeFails | src/graph.h:184-189 | add_edge returns 1 exactly when no slot is empty (and always when there is no bucket), and then changes nothing; it only returns 0 or 1 |
| Chains.AddEdgeWritesFirstEmpty | src/graph.h:184-194 | a successful add changes exactly the first empty slot, which then points at `to`; every other slot and the shape of the chain stay the same |
| Chains.AddEdgeCounts | src/graph.h:179-195 | after a successful add the edge is present; copies of it grow by one (duplicates are not refused) and free slots shrink by one |
| Chains.AddEdgeWellFormed | src/graph.h:179-195 | adding an edge to a node of the graph keeps the chain well formed |
| Chains.DelEdgeAbsent | src/graph.h:208-215 | deleting an absent edge changes nothing, so deleting twice is the same as deleting once |
| Chains.DelEdgeClearsFirst | src/graph.h:203-218 | deleting a present edge clears exactly the first slot pointing at `to`; later copies and every other slot stay |
| Chains.DelEdgeCounts | src/graph.h:203-218 | deleting a present edge removes one copy of it and frees one slot |
| Chains.DelEdgeWellFormed | src/graph.h:203-218 | deleting an edge keeps the chain well formed |
| Chains.AddThenDel | src/graph.h:179-218 | an edge added to a node that had no copy of it is absent again after one delete |

## Findings

| source | as written | input that shows it | evidently intended | confidence | as-written member | corrected member |
|---|---|---|---|---|---|---|
| src/graph.h:244-257 | `graph_node_id_valid` returns 1 when `node_id < 0 \|\| node_id >= size` and 0 otherwise | a graph of size 2: id 0 gives 0 and id 2 gives 1 | "1 if the node id is valid, 0 if not", as its comment and its name say | medium (not executed; either the comment or the code is wrong, and nothing in the header calls it) | Graph.NodeIdValidInverted | Graph.Graph.NodeIdValidAsDocumented |

The rest of the model keeps the code's behaviour in `Graph.Graph.NodeIdValid`.
No other operation uses either variant.

## Left out

- `src/regex.c` and `src/regex.h` hold only declarations and empty stubs; there is no regex behaviour to model.
- No memory management: `new` objects stand in for storage the client allocates. `Graph.Bucket`'s constructor stands in for the client's bucket allocation.
- The bucket constructor fixes the slot array's length at BUCKET_SIZE. In C, that length is part of the bucket's type.
- Re-initialising a graph over a new node array (src/graph.h:110-111) is not modelled. `Graph.Graph.Init` is a constructor, so it always builds a fresh graph object.
- Graph.Graph.AddBucket: requires that the bucket is not already linked into the graph. The header only says the bucket is "assumed to be just allocated". Re-adding a linked bucket first sets its `next` to null (src/graph.h:149), which cuts its old chain after it, and clears its slots, which drops their edges (src/graph.h:150-153). What happens next depends on where it is re-added:
  - Into a different node's chain, nothing cycles. The bucket is appended there (src/graph.h:158 or src/graph.h:168), and the two nodes then share it.
  - Back into the chain that still reaches it, the walk (src/graph.h:164-167) stops at the bucket itself and sets its `next` to itself (src/graph.h:168). After that, `graph_find_empty_edge` returns the chain's first empty slot while one exists up to and including the cleared bucket. Once those slots are all full it loops forever (src/graph.h:347), and so does `graph_add_edge`. `graph_find_edge` for an absent edge, and the next `graph_add_bucket` on that node, loop forever as well.
- Invalid node ids are excluded by preconditions. The header states that every operation assumes valid ids, and that an invalid id is undefined behaviour (src/graph.h:11-13). So three comments whose promises depend on invalid ids have no `ensures`; the code does not keep any of them:
  - Graph.Graph.FindEdge: src/graph.h:283 promises null when "either node id is invalid", but src/graph.h:290-293 checks neither id.
  - Graph.Graph.FindNodeById: src/graph.h:267 says the result may be null, but src/graph.h:272 always returns `&nodes[node_id]`.
  - Graph.Graph.Init: src/graph.h:76 calls ids "Always positive", but src/graph.h:127 gives node 0 the id 0. The model gives node i the id i, as the code does.
- `num_nodes` and `num_edges` are set to 0 by `graph_init`, and no other operation touches them. The model states only that they stay unchanged; it makes no claim that they count anything.
- C `int` width and pointer arithmetic are not modelled. Ids are mathematical integers, already bounded by the node array's size.
- Node pointers are modelled as node ids: a slot holds `Some(id)` where C stores `&nodes[id]`. `Valid()` keeps the two views in step, because node `id` sits at index `id`.
