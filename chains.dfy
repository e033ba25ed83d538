/**
 * The out-edge storage of ONE node of the adjacency-list graph, as a value.
 *
 * A node keeps its out-edges in a chain of buckets; each bucket has
 * BUCKET_SIZE slots, and a slot is either a null pointer or a pointer to a
 * target node. Because a node pointer is always `&nodes[id]`, a slot is
 * modelled by `None` (null) or `Some(id)`. A chain is the sequence of its
 * buckets' slot contents, in chain order.
 *
 * Every lookup of the graph is one first-match scan (graph_find_pointer):
 * buckets in chain order, slots in index order. `FindSlot` is that scan;
 * the edge operations are defined through it, and the lemmas below state
 * what the graph promises about them.
 */
module Chains {

  /** How many edges out per bucket. */
  const BUCKET_SIZE: nat := 10

  datatype Option<T> = None | Some(value: T)

  /** A slot of a bucket: `None` is a null pointer, `Some(t)` points at node t. */
  type Slot = Option<nat>

  /** The slot contents of a node's buckets, in chain order. */
  type Chain = seq<seq<Slot>>

  /** The place of a slot: which bucket of the chain, which slot of the bucket. */
  datatype Pos = Pos(bucket: nat, slot: nat)

  /** Every bucket has BUCKET_SIZE slots and every non-null slot names one of `n` nodes. */
  predicate WellFormed(c: Chain, n: int)
  {
    && (forall b :: 0 <= b < |c| ==> |c[b]| == BUCKET_SIZE)
    && (forall b, s :: 0 <= b < |c| && 0 <= s < |c[b]| && c[b][s].Some? ==> c[b][s].value < n)
  }

  predicate ValidPos(c: Chain, p: Pos)
  {
    p.bucket < |c| && p.slot < |c[p.bucket]|
  }

  /** Slot (b, s) is scanned before position p. */
  predicate Precedes(b: int, s: int, p: Pos)
  {
    b < p.bucket || (b == p.bucket && s < p.slot)
  }

  /** Some slot of the chain holds `v`. */
  predicate Occurs(c: Chain, v: Slot)
  {
    exists b, s :: 0 <= b < |c| && 0 <= s < |c[b]| && c[b][s] == v
  }

  /** p holds `v` and no slot scanned before p does. */
  predicate IsFirst(c: Chain, v: Slot, p: Pos)
  {
    && ValidPos(c, p)
    && c[p.bucket][p.slot] == v
    && forall b, s :: 0 <= b < |c| && 0 <= s < |c[b]| && Precedes(b, s, p) ==> c[b][s] != v
  }

  /** The scan of one bucket, from slot `from` on. */
  function FindInBucket(bk: seq<Slot>, v: Slot, from: nat): (r: Option<nat>)
    requires from <= |bk|
    decreases |bk| - from
    ensures r.Some? ==> from <= r.value < |bk| && bk[r.value] == v
    ensures r.Some? ==> forall s :: from <= s < r.value ==> bk[s] != v
    ensures r.None? ==> forall s :: from <= s < |bk| ==> bk[s] != v
  {
    if from == |bk| then None
    else if bk[from] == v then Some(from)
    else FindInBucket(bk, v, from + 1)
  }

  /** The scan of the chain, from bucket `from` on. */
  function FindFrom(c: Chain, v: Slot, from: nat): (r: Option<Pos>)
    requires from <= |c|
    decreases |c| - from
    ensures r.Some? ==> from <= r.value.bucket && ValidPos(c, r.value) && c[r.value.bucket][r.value.slot] == v
    ensures r.Some? ==> forall b, s :: from <= b < |c| && 0 <= s < |c[b]| && Precedes(b, s, r.value) ==> c[b][s] != v
    ensures r.None? ==> forall b, s :: from <= b < |c| && 0 <= s < |c[b]| ==> c[b][s] != v
  {
    if from == |c| then None
    else match FindInBucket(c[from], v, 0)
      case Some(s) => Some(Pos(from, s))
      case None => FindFrom(c, v, from + 1)
  }

  /**
   * graph_find_pointer: the first slot, buckets in chain order and slots in
   * index order, that holds `v`; None when no slot does. With `v == None`
   * this is the first empty slot.
   */
  function FindSlot(c: Chain, v: Slot): (r: Option<Pos>)
    ensures r.Some? ==> IsFirst(c, v, r.value)
    ensures r.None? <==> !Occurs(c, v)
  {
    FindFrom(c, v, 0)
  }

  /** The chain with the slot at p overwritten by v (a write through a Node**). */
  function SetSlot(c: Chain, p: Pos, v: Slot): (r: Chain)
    requires ValidPos(c, p)
  {
    c[p.bucket := c[p.bucket][p.slot := v]]
  }

  /** A freshly initialised bucket: all slots null. */
  function EmptyBucket(): (r: seq<Slot>)
  {
    seq(BUCKET_SIZE, _ => None)
  }

  /** graph_add_bucket: the new bucket goes at the end of the chain. */
  function AddBucket(c: Chain): (r: Chain)
  {
    c + [EmptyBucket()]
  }

  /** graph_add_edge: 1 and no change when no slot is empty, else 0 and the first empty slot points at `to`. */
  function AddEdge(c: Chain, to: nat): (r: (Chain, int))
  {
    match FindSlot(c, None)
    case None => (c, 1)
    case Some(p) => (SetSlot(c, p, Some(to)), 0)
  }

  /** graph_del_edge: the first slot pointing at `to` becomes null; no change when there is none. */
  function DelEdge(c: Chain, to: nat): (r: Chain)
  {
    match FindSlot(c, Some(to))
    case None => c
    case Some(p) => SetSlot(c, p, None)
  }

  /** graph_has_edge: 0 when some slot points at `to`, 1 when none does. */
  function HasEdge(c: Chain, to: nat): (r: int)
    ensures r == 0 <==> Occurs(c, Some(to))
    ensures r == 1 <==> !Occurs(c, Some(to))
  {
    if FindSlot(c, Some(to)).Some? then 0 else 1
  }

  /** Number of slots holding `v` in one bucket. */
  function CountIn(bk: seq<Slot>, v: Slot): (r: nat)
  {
    if bk == [] then 0 else (if bk[0] == v then 1 else 0) + CountIn(bk[1..], v)
  }

  /** Number of slots holding `v` in the chain: copies of an edge, or free slots for `None`. */
  function Count(c: Chain, v: Slot): (r: nat)
  {
    if c == [] then 0 else CountIn(c[0], v) + Count(c[1..], v)
  }

  /** Number of slots in the chain. */
  function Capacity(c: Chain): (r: nat)
  {
    if c == [] then 0 else |c[0]| + Capacity(c[1..])
  }

  // ---------------------------------------------------------------------
  // The first-match scan

  /** The first match is unique: FindSlot returns exactly the IsFirst position. */
  lemma {:induction false} FindSlotExactly(c: Chain, v: Slot, p: Pos)
    ensures FindSlot(c, v) == Some(p) <==> IsFirst(c, v, p)
  {
    if IsFirst(c, v, p) {
      var r := FindSlot(c, v);
      assert r.Some? by { assert c[p.bucket][p.slot] == v; }
      var q := r.value;
      assert !Precedes(q.bucket, q.slot, p) by { assert c[q.bucket][q.slot] == v; }
      assert !Precedes(p.bucket, p.slot, q);
    }
  }

  // ---------------------------------------------------------------------
  // Counting slots

  lemma {:induction false} CountInUpdate(bk: seq<Slot>, s: nat, u: Slot, v: Slot)
    requires s < |bk|
    ensures CountIn(bk[s := u], v) == CountIn(bk, v) - (if bk[s] == v then 1 else 0) + (if u == v then 1 else 0)
  {
    if s == 0 {
      assert bk[s := u][1..] == bk[1..];
    } else {
      assert bk[s := u][1..] == bk[1..][s - 1 := u];
      CountInUpdate(bk[1..], s - 1, u, v);
    }
  }

  /** Overwriting one slot moves exactly one slot out of the old value's count into the new one's. */
  lemma {:induction false} CountSetSlot(c: Chain, p: Pos, u: Slot, v: Slot)
    requires ValidPos(c, p)
    ensures Count(SetSlot(c, p, u), v)
            == Count(c, v) - (if c[p.bucket][p.slot] == v then 1 else 0) + (if u == v then 1 else 0)
  {
    var c' := SetSlot(c, p, u);
    if p.bucket == 0 {
      assert c'[1..] == c[1..];
      CountInUpdate(c[0], p.slot, u, v);
    } else {
      assert c'[1..] == SetSlot(c[1..], Pos(p.bucket - 1, p.slot), u);
      CountSetSlot(c[1..], Pos(p.bucket - 1, p.slot), u, v);
    }
  }

  lemma {:induction false} CountInPositive(bk: seq<Slot>, v: Slot)
    ensures CountIn(bk, v) > 0 <==> exists s :: 0 <= s < |bk| && bk[s] == v
  {
    if bk != [] {
      CountInPositive(bk[1..], v);
      if bk[0] != v && CountIn(bk, v) > 0 {
        var s :| 0 <= s < |bk[1..]| && bk[1..][s] == v;
        assert bk[s + 1] == v;
      }
      if exists s :: 0 <= s < |bk| && bk[s] == v {
        var s :| 0 <= s < |bk| && bk[s] == v;
        if s > 0 { assert bk[1..][s - 1] == v; }
      }
    }
  }

  /** A value occurs in the chain exactly when its count is positive. */
  lemma {:induction false} CountPositive(c: Chain, v: Slot)
    ensures Count(c, v) > 0 <==> Occurs(c, v)
  {
    if c != [] {
      CountPositive(c[1..], v);
      CountInPositive(c[0], v);
      if Count(c, v) > 0 {
        if CountIn(c[0], v) > 0 {
          var s :| 0 <= s < |c[0]| && c[0][s] == v;
          assert c[0][s] == v;
        } else {
          var b, s :| 0 <= b < |c[1..]| && 0 <= s < |c[1..][b]| && c[1..][b][s] == v;
          assert c[b + 1][s] == v;
        }
      }
      if Occurs(c, v) {
        var b, s :| 0 <= b < |c| && 0 <= s < |c[b]| && c[b][s] == v;
        if b > 0 { assert c[1..][b - 1][s] == v; }
      }
    }
  }

  lemma {:induction false} CountAppend(c: Chain, d: Chain, v: Slot)
    ensures Count(c + d, v) == Count(c, v) + Count(d, v)
  {
    if c != [] {
      assert (c + d)[0] == c[0];
      assert (c + d)[1..] == c[1..] + d;
      CountAppend(c[1..], d, v);
    } else {
      assert c + d == d;
    }
  }

  lemma {:induction false} CapacityAppend(c: Chain, d: Chain)
    ensures Capacity(c + d) == Capacity(c) + Capacity(d)
  {
    if c != [] {
      assert (c + d)[0] == c[0];
      assert (c + d)[1..] == c[1..] + d;
      CapacityAppend(c[1..], d);
    } else {
      assert c + d == d;
    }
  }

  lemma {:induction false} CountInAll(bk: seq<Slot>, v: Slot)
    requires forall s :: 0 <= s < |bk| ==> bk[s] == v
    ensures CountIn(bk, v) == |bk|
  {
    if bk != [] {
      CountInAll(bk[1..], v);
    }
  }

  // ---------------------------------------------------------------------
  // graph_add_bucket

  /**
   * Adding a bucket appends BUCKET_SIZE empty slots at the end of the chain:
   * the existing buckets and slots are unchanged, the capacity and the
   * number of free slots grow by exactly BUCKET_SIZE.
   */
  lemma AddBucketGrows(c: Chain)
    ensures |AddBucket(c)| == |c| + 1 && AddBucket(c)[..|c|] == c
    ensures AddBucket(c)[|c|] == EmptyBucket() && |EmptyBucket()| == BUCKET_SIZE
    ensures Capacity(AddBucket(c)) == Capacity(c) + BUCKET_SIZE
    ensures Count(AddBucket(c), None) == Count(c, None) + BUCKET_SIZE
  {
    CapacityAppend(c, [EmptyBucket()]);
    CountAppend(c, [EmptyBucket()], None);
    CountInAll(EmptyBucket(), None);
    assert [EmptyBucket()][1..] == [];
  }

  /**
   * After a bucket is added, the first empty slot is the one it was before,
   * or, when the chain was full, slot 0 of the new bucket. So an add_edge
   * after an add_bucket always succeeds.
   */
  lemma AddBucketFirstEmpty(c: Chain, to: nat)
    ensures FindSlot(AddBucket(c), None)
            == if Occurs(c, None) then FindSlot(c, None) else Some(Pos(|c|, 0))
    ensures AddEdge(AddBucket(c), to).1 == 0
  {
    var c' := AddBucket(c);
    var want := if Occurs(c, None) then FindSlot(c, None).value else Pos(|c|, 0);
    assert c'[|c|] == EmptyBucket();
    assert forall b :: 0 <= b < |c| ==> c'[b] == c[b];
    FindSlotExactly(c', None, want);
  }

  lemma AddBucketWellFormed(c: Chain, n: int)
    requires WellFormed(c, n)
    ensures WellFormed(AddBucket(c), n)
  {
    var c' := AddBucket(c);
    assert forall b :: 0 <= b < |c| ==> c'[b] == c[b];
  }

  /** A chain of well-formed buckets holds BUCKET_SIZE slots per bucket. */
  lemma {:induction false} CapacityWellFormed(c: Chain, n: int)
    requires WellFormed(c, n)
    ensures Capacity(c) == |c| * BUCKET_SIZE
  {
    if c != [] {
      assert WellFormed(c[1..], n) by {
        forall b, s | 0 <= b < |c[1..]| && 0 <= s < |c[1..][b]| && c[1..][b][s].Some?
          ensures c[1..][b][s].value < n
        {
          assert c[1..][b] == c[b + 1];
        }
      }
      CapacityWellFormed(c[1..], n);
    }
  }

  // ---------------------------------------------------------------------
  // graph_add_edge

  /** Adding an edge to a chain with no empty slot (also: with no bucket) fails and changes nothing. */
  lemma AddEdgeFails(c: Chain, to: nat)
    ensures AddEdge(c, to).1 == 1 <==> !Occurs(c, None)
    ensures AddEdge(c, to).1 == 1 ==> AddEdge(c, to).0 == c
    ensures AddEdge([], to) == ([], 1)
    ensures AddEdge(c, to).1 == 0 || AddEdge(c, to).1 == 1
  {
  }

  /**
   * A successful add changes exactly one slot: the first empty slot of the
   * chain, which now points at `to`. Every other slot and the chain's shape
   * are unchanged.
   */
  lemma AddEdgeWritesFirstEmpty(c: Chain, to: nat)
    requires AddEdge(c, to).1 == 0
    ensures var c' := AddEdge(c, to).0;
      && |c'| == |c|
      && (forall b :: 0 <= b < |c| ==> |c'[b]| == |c[b]|)
      && exists p :: IsFirst(c, None, p)
           && c'[p.bucket][p.slot] == Some(to)
           && forall b, s :: 0 <= b < |c| && 0 <= s < |c[b]| && (b, s) != (p.bucket, p.slot) ==> c'[b][s] == c[b][s]
  {
    var p := FindSlot(c, None).value;
    assert IsFirst(c, None, p);
  }

  /**
   * After a successful add, the edge is present. Adding never looks for an
   * existing edge, so duplicates arise: the number of slots pointing at
   * `to` grows by one and the number of free slots shrinks by one.
   */
  lemma AddEdgeCounts(c: Chain, to: nat)
    requires AddEdge(c, to).1 == 0
    ensures HasEdge(AddEdge(c, to).0, to) == 0
    ensures Count(AddEdge(c, to).0, Some(to)) == Count(c, Some(to)) + 1
    ensures Count(AddEdge(c, to).0, None) == Count(c, None) - 1
  {
    var p := FindSlot(c, None).value;
    CountSetSlot(c, p, Some(to), Some(to));
    CountSetSlot(c, p, Some(to), None);
    CountPositive(AddEdge(c, to).0, Some(to));
  }

  lemma AddEdgeWellFormed(c: Chain, to: nat, n: int)
    requires WellFormed(c, n) && to < n
    ensures WellFormed(AddEdge(c, to).0, n)
  {
  }

  // ---------------------------------------------------------------------
  // graph_del_edge

  /** Deleting an absent edge is a no-op, so repeating it changes nothing either. */
  lemma DelEdgeAbsent(c: Chain, to: nat)
    requires !Occurs(c, Some(to))
    ensures DelEdge(c, to) == c
    ensures DelEdge(DelEdge(c, to), to) == DelEdge(c, to)
  {
  }

  /**
   * Deleting a present edge clears exactly the first slot pointing at `to`;
   * every other slot, including later copies of the same edge, stays.
   */
  lemma DelEdgeClearsFirst(c: Chain, to: nat)
    requires Occurs(c, Some(to))
    ensures var c' := DelEdge(c, to);
      && |c'| == |c|
      && (forall b :: 0 <= b < |c| ==> |c'[b]| == |c[b]|)
      && exists p :: IsFirst(c, Some(to), p)
           && c'[p.bucket][p.slot] == None
           && forall b, s :: 0 <= b < |c| && 0 <= s < |c[b]| && (b, s) != (p.bucket, p.slot) ==> c'[b][s] == c[b][s]
  {
    var p := FindSlot(c, Some(to)).value;
    assert IsFirst(c, Some(to), p);
  }

  /** Deleting a present edge removes one copy of it and frees one slot. */
  lemma DelEdgeCounts(c: Chain, to: nat)
    requires Occurs(c, Some(to))
    ensures Count(DelEdge(c, to), Some(to)) == Count(c, Some(to)) - 1
    ensures Count(DelEdge(c, to), None) == Count(c, None) + 1
  {
    var p := FindSlot(c, Some(to)).value;
    CountSetSlot(c, p, None, Some(to));
    CountSetSlot(c, p, None, None);
  }

  lemma DelEdgeWellFormed(c: Chain, to: nat, n: int)
    requires WellFormed(c, n)
    ensures WellFormed(DelEdge(c, to), n)
  {
  }

  /** An edge added to a chain that held no copy of it is gone again after one delete. */
  lemma AddThenDel(c: Chain, to: nat)
    requires AddEdge(c, to).1 == 0 && !Occurs(c, Some(to))
    ensures HasEdge(DelEdge(AddEdge(c, to).0, to), to) == 1
  {
    AddEdgeCounts(c, to);
    CountPositive(c, Some(to));
    DelEdgeCounts(AddEdge(c, to).0, to);
    CountPositive(DelEdge(AddEdge(c, to).0, to), Some(to));
  }
}
