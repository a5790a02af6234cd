/** The consistent-hash ring as the program keeps it: adding and removing nodes,
    and the walk that lists a key's replicas.
 */
module Placement {
  import opened Wrappers
  import opened ByteStrings
  import opened Rings

  class ConsistentHashRing {
    const hash: Hash
    var ring: seq<VNode>
    var nodes: map<bytes, nat>

    /** The ring of the current node set. */
    ghost predicate Valid()
      reads this
    {
      RingOf(hash, nodes, ring)
    }

    constructor (h: Hash)
      ensures hash == h && nodes == map[] && ring == [] && Valid()
    {
      hash, ring, nodes := h, [], map[];
    }

    method AddNode(node: bytes, virtualNodes: nat)
      requires AscendingRing(ring)
      modifies this
      ensures nodes == if node == [] || virtualNodes == 0 || node in old(nodes) then old(nodes)
                       else old(nodes)[node := virtualNodes]
      ensures AscendingRing(ring) && (old(Valid()) ==> Valid())
    {
      if node == [] || virtualNodes == 0 { return; }
      if node in nodes { return; }
      ghost var before := nodes;
      nodes := nodes[node := virtualNodes];
      if old(Valid()) { NoClaimYet(hash, before, ring, node); }
      for i := 0 to virtualNodes
        invariant nodes == before[node := virtualNodes] && AscendingRing(ring)
        invariant old(Valid()) ==> RingOf(hash, before[node := i], ring)
      {
        var position := hash(VirtualName(node, i));
        if old(Valid()) {
          var partial: map<bytes, nat> := before[node := i];
          PlacedRing(hash, partial, ring, node, i);
          assert partial[node := i + 1] == before[node := i + 1];
        }
        PlacedAscending(ring, position, node, Least(ring, position));
        ring := Placed(ring, position, node);
      }
    }

    /** Afterwards the ring is the remaining set's exactly when no position of
        the removed node was contested. */
    method RemoveNode(node: bytes)
      requires Valid()
      modifies this
      ensures nodes == old(nodes) - {node} && AscendingRing(ring)
      ensures forall q :: At(ring, q) == if node in old(nodes) && At(old(ring), q) == Some(node) then None
                                         else At(old(ring), q)
      ensures Valid() <==> node !in old(nodes) || !Contested(hash, old(nodes), old(ring), node)
    {
      if node !in nodes { return; }
      var virtualNodes := nodes[node];
      ghost var before, was := ring, nodes;
      nodes := nodes - {node};
      for i := 0 to virtualNodes
        invariant AscendingRing(ring) && nodes == was - {node}
        invariant forall q :: At(ring, q) == if Freed(hash, node, i, before, q) then None else At(before, q)
      {
        var position := hash(VirtualName(node, i));
        ErasedFacts(ring, position, node);
        ghost var last := ring;
        ring := Erased(ring, position, node);
        forall q ensures At(ring, q) == if Freed(hash, node, i + 1, before, q) then None else At(before, q) {
          FreedNext(hash, node, i, before, q);
        }
      }
      forall q ensures At(ring, q) == if At(before, q) == Some(node) then None else At(before, q) {
        assert Owner(hash, was, q, At(before, q));
        assert At(before, q) == Some(node) ==> Claims(hash, was, node, q);
      }
      RemovedRing(hash, was, before, ring, node);
    }

    method Clear()
      modifies this
      ensures nodes == map[] && ring == [] && Valid()
    {
      ring, nodes := [], map[];
    }

    method Replicas(key: bytes, count: nat) returns (out: seq<bytes>)
      requires AscendingRing(ring)
      ensures out == ReplicaList(ring, hash(key), count)
      ensures NearestFirst(ring, hash(key), count, out)
      ensures out != [] ==> exists v :: v in ring && v.node == out[0] && FirstFrom(ring, hash(key), v)
    {
      ReplicasExactly(ring, hash(key), count);
      out := [];
      if count == 0 { return; }
      if ring == [] { return; }
      var it := FindLowerBound(ring, hash(key));
      NodesAt(Clockwise(ring, hash(key)));
      out := Walk(ring, it, count, NodesOf(Clockwise(ring, hash(key))));
    }
  }

  /** Where the walk is after `step` moves. */
  function Turn(start: nat, step: nat, size: nat): nat {
    if start + step < size then start + step else start + step - size
  }

  method Walk(ring: seq<VNode>, start: nat, count: nat, ghost names: seq<bytes>) returns (out: seq<bytes>)
    requires start <= |ring| && ring != [] && |names| == |ring|
    requires forall i :: 0 <= i < |ring| ==> names[i] == (ring[start..] + ring[..start])[i].node
    ensures out == FirstOf(Distinct(names), count)
  {
    out := [];
    var it := if start == |ring| then 0 else start;
    var step := 0;
    while step < |ring| && |out| < count
      invariant 0 <= step <= |ring| && |out| <= count && 0 <= it < |ring|
      invariant step < |ring| ==> it == Turn(start, step, |ring|)
      invariant out == Distinct(names[..step])
    {
      assert ring[it].node == names[step];
      out := Meet(out, ring[it].node, names, step);
      it := it + 1;
      if it == |ring| { it := 0; }
      step := step + 1;
    }
    DistinctPrefix(names, step);
    assert names[..|names|] == names;
  }

  method Meet(out: seq<bytes>, node: bytes, ghost names: seq<bytes>, ghost step: nat) returns (out': seq<bytes>)
    requires step < |names| && out == Distinct(names[..step]) && node == names[step]
    ensures out' == Distinct(names[..step + 1]) && |out'| <= |out| + 1
  {
    assert names[..step + 1] == names[..step] + [node];
    DistinctSnoc(names[..step], node);
    out' := if node in out then out else out + [node];
  }

  method FindLowerBound(ring: seq<VNode>, p: int) returns (i: nat)
    ensures i == LowerBound(ring, p)
  {
    i := 0;
    while i < |ring| && ring[i].position < p
      invariant i <= |ring|
      invariant LowerBound(ring, p) == i + LowerBound(ring[i..], p)
    {
      assert ring[i..][1..] == ring[i + 1..];
      i := i + 1;
    }
  }

  /** The node held this position and one of its first `i` virtual nodes names it. */
  ghost predicate Freed(hash: Hash, node: bytes, i: nat, ring: seq<VNode>, q: int) {
    At(ring, q) == Some(node) && exists j :: 0 <= j < i && hash(VirtualName(node, j)) == q
  }

  lemma FreedNext(hash: Hash, node: bytes, i: nat, ring: seq<VNode>, q: int)
    ensures Freed(hash, node, i + 1, ring, q) <==>
      Freed(hash, node, i, ring, q) || (q == hash(VirtualName(node, i)) && At(ring, q) == Some(node))
  {
    if Freed(hash, node, i + 1, ring, q) {
      var j :| 0 <= j < i + 1 && hash(VirtualName(node, j)) == q;
      assert j < i ==> Freed(hash, node, i, ring, q);
    }
    if Freed(hash, node, i, ring, q) {
      var j :| 0 <= j < i && hash(VirtualName(node, j)) == q;
      assert 0 <= j < i + 1;
    }
    assert 0 <= i < i + 1;
  }
}
