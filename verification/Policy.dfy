/** Who should hold a key, and who is owed it while away.
 */
module Policies {
  import opened Wrappers
  import opened ByteStrings
  import opened Rings
  import opened Placement

  datatype Lifecycle = Discovered | Allocated | Provisioned | Running | Degraded | Reclaimed
  datatype Peer = Peer(node: bytes, supervisor: bool, state: Lifecycle, lastSeen: int)
  datatype Options = Options(factor: nat, staleAfter: int, includeDegraded: bool, isSupervisor: bool)

  datatype Reason = NotHandshaked | IsSupervisor | IsReclaimed | IsDegraded | IsStale
  datatype Standing = Ignored | Never(reason: Reason) | Away(reason: Reason) | Live

  const BOOTSTRAP: bytes := [98, 111, 111, 116, 115, 116, 114, 97, 112, 35]  // "bootstrap#"

  function StandingOf(peer: Peer, options: Options, now: int): Standing {
    if peer.node == [] then Ignored
    else if BOOTSTRAP <= peer.node then Never(NotHandshaked)
    else if peer.supervisor then Never(IsSupervisor)
    else if peer.state.Reclaimed? then Never(IsReclaimed)
    else if peer.state.Degraded? && !options.includeDegraded then Away(IsDegraded)
    else if peer.lastSeen != 0 && now - peer.lastSeen > options.staleAfter then Away(IsStale)
    else Live
  }

  /** The ids that are placement targets. */
  function LiveIds(local: bytes, peers: seq<Peer>, options: Options, now: int): set<bytes> {
    if peers == [] then if local == [] || options.isSupervisor then {} else {local}
    else
      var last := peers[|peers| - 1];
      LiveIds(local, peers[..|peers| - 1], options, now) +
      if StandingOf(last, options, now).Live? then {last.node} else {}
  }

  /** The ids of peers that are degraded or stale. */
  function AwayIds(peers: seq<Peer>, options: Options, now: int): set<bytes> {
    if peers == [] then {} else
    var last := peers[|peers| - 1];
    AwayIds(peers[..|peers| - 1], options, now) + if StandingOf(last, options, now).Away? then {last.node} else {}
  }

  function SkippedPeers(peers: seq<Peer>, options: Options, now: int): seq<(bytes, Reason)> {
    if peers == [] then [] else
    var last := peers[|peers| - 1];
    var standing := StandingOf(last, options, now);
    SkippedPeers(peers[..|peers| - 1], options, now) +
    if standing.Never? || standing.Away? then [(last.node, standing.reason)] else []
  }

  ghost function Uniform(ids: set<bytes>): map<bytes, nat> {
    map n | n in ids :: VIRTUAL_NODES
  }

  /** Both node sets depend on the peers' standing and not on their order. */
  ghost function LiveNodes(local: bytes, peers: seq<Peer>, options: Options, now: int): map<bytes, nat> {
    Uniform(LiveIds(local, peers, options, now))
  }

  ghost function AllNodes(local: bytes, peers: seq<Peer>, options: Options, now: int): map<bytes, nat> {
    Uniform(LiveIds(local, peers, options, now) + AwayIds(peers, options, now))
  }

  lemma NextIds(local: bytes, peers: seq<Peer>, i: nat, options: Options, now: int)
    requires i < |peers|
    ensures var standing := StandingOf(peers[i], options, now);
      && LiveNodes(local, peers[..i + 1], options, now) ==
           (if standing.Live? then Joined(LiveNodes(local, peers[..i], options, now), peers[i].node)
            else LiveNodes(local, peers[..i], options, now))
      && AllNodes(local, peers[..i + 1], options, now) ==
           (if standing.Live? || standing.Away? then Joined(AllNodes(local, peers[..i], options, now), peers[i].node)
            else AllNodes(local, peers[..i], options, now))
      && SkippedPeers(peers[..i + 1], options, now) == SkippedPeers(peers[..i], options, now) +
           (if standing.Never? || standing.Away? then [(peers[i].node, standing.reason)] else [])
  {
    assert peers[..i + 1][..i] == peers[..i];
  }

  /** Those of `s` that are not in `t`, in order. */
  function Missing(s: seq<bytes>, t: seq<bytes>): seq<bytes> {
    if s == [] then [] else Missing(s[..|s| - 1], t) + if s[|s| - 1] in t then [] else [s[|s| - 1]]
  }

  function NotIn(s: seq<bytes>, live: set<bytes>): seq<bytes> {
    if s == [] then [] else NotIn(s[..|s| - 1], live) + if s[|s| - 1] in live then [] else [s[|s| - 1]]
  }

  function HashInput(collection: bytes, key: bytes, shard: bytes): bytes {
    if shard != [] then collection + [124, 115, 104, 97, 114, 100, 124] + shard  // "|shard|"
    else collection + [47] + key                                                 // "/"
  }

  datatype Plan = Plan(replicas: seq<bytes>, underReplicated: bool, displaced: seq<bytes>)

  class PlacementPolicy {
    const local: bytes
    const options: Options
    const ring: ConsistentHashRing
    const withAbsent: ConsistentHashRing
    var skipped: seq<(bytes, Reason)>

    ghost predicate Valid()
      reads this, ring, withAbsent
    {
      && ring != withAbsent && ring.hash == withAbsent.hash && ring.Valid() && withAbsent.Valid()
      && ring.nodes.Keys <= withAbsent.nodes.Keys
      && (forall n :: n in ring.nodes ==> withAbsent.nodes[n] == ring.nodes[n])
    }

    constructor (id: bytes, opts: Options, h: Hash)
      ensures Valid() && local == id && options == opts && ring.hash == h && fresh(ring) && fresh(withAbsent)
    {
      local, options, skipped := id, opts, [];
      ring := new ConsistentHashRing(h);
      withAbsent := new ConsistentHashRing(h);
    }

    method Rebuild(peers: seq<Peer>, now: int)
      requires Valid()
      modifies this, ring, withAbsent
      ensures Valid()
      ensures ring.nodes == LiveNodes(local, peers, options, now)
      ensures withAbsent.nodes == AllNodes(local, peers, options, now)
      ensures skipped == SkippedPeers(peers, options, now)
    {
      ring.Clear();
      withAbsent.Clear();
      skipped := [];
      if local != [] && !options.isSupervisor {
        ring.AddNode(local, VIRTUAL_NODES);
        withAbsent.AddNode(local, VIRTUAL_NODES);
      }
      for i := 0 to |peers|
        invariant ring.Valid() && withAbsent.Valid()
        invariant ring.nodes == LiveNodes(local, peers[..i], options, now)
        invariant withAbsent.nodes == AllNodes(local, peers[..i], options, now)
        invariant skipped == SkippedPeers(peers[..i], options, now)
      {
        NextIds(local, peers, i, options, now);
        Consider(peers[i], now);
      }
      assert peers[..|peers|] == peers;
    }

    /** One peer's part of the rebuild. */
    method Consider(peer: Peer, now: int)
      requires ring != withAbsent && ring.Valid() && withAbsent.Valid()
      modifies this, ring, withAbsent
      ensures ring.Valid() && withAbsent.Valid()
      ensures var standing := StandingOf(peer, options, now);
        && ring.nodes == (if standing.Live? then Joined(old(ring.nodes), peer.node) else old(ring.nodes))
        && withAbsent.nodes == (if standing.Live? || standing.Away? then Joined(old(withAbsent.nodes), peer.node)
                                else old(withAbsent.nodes))
        && skipped == old(skipped) + if standing.Never? || standing.Away? then [(peer.node, standing.reason)] else []
    {
      if peer.node == [] { return; }
      if BOOTSTRAP <= peer.node {
        skipped := skipped + [(peer.node, NotHandshaked)];
        return;
      }
      if peer.supervisor {
        skipped := skipped + [(peer.node, IsSupervisor)];
        return;
      }
      if peer.state.Reclaimed? {
        skipped := skipped + [(peer.node, IsReclaimed)];
        return;
      }
      if peer.state.Degraded? && !options.includeDegraded {
        skipped := skipped + [(peer.node, IsDegraded)];
        withAbsent.AddNode(peer.node, VIRTUAL_NODES);
        return;
      }
      if peer.lastSeen != 0 && now - peer.lastSeen > options.staleAfter {
        skipped := skipped + [(peer.node, IsStale)];
        withAbsent.AddNode(peer.node, VIRTUAL_NODES);
        return;
      }
      ring.AddNode(peer.node, VIRTUAL_NODES);
      withAbsent.AddNode(peer.node, VIRTUAL_NODES);
    }

    /** The displaced owners are everyone the full ring names and the live ring
        does not; comparing the node counts first never changes the answer. */
    method Place(collection: bytes, key: bytes, shard: bytes) returns (plan: Plan)
      requires Valid()
      ensures var p := ring.hash(HashInput(collection, key, shard));
        && plan.replicas == ReplicaList(ring.ring, p, options.factor)
        && plan.displaced == Missing(ReplicaList(withAbsent.ring, p, options.factor), plan.replicas)
      ensures plan.underReplicated <==> |plan.replicas| < options.factor
      ensures NearestFirst(ring.ring, ring.hash(HashInput(collection, key, shard)), options.factor, plan.replicas)
    {
      var hashed := HashInput(collection, key, shard);
      var replicas := ring.Replicas(hashed, options.factor);
      var displaced := [];
      if |withAbsent.nodes| > |ring.nodes| {
        var owners := withAbsent.Replicas(hashed, options.factor);
        displaced := Displaced(owners, replicas);
      } else {
        SameSetNoneMissing(ring.hash, withAbsent.nodes, withAbsent.ring, ring.nodes, ring.ring,
                           ring.hash(hashed), options.factor);
      }
      plan := Plan(replicas, |replicas| < options.factor, displaced);
    }
  }

  method Displaced(owners: seq<bytes>, replicas: seq<bytes>) returns (displaced: seq<bytes>)
    ensures displaced == Missing(owners, replicas)
  {
    displaced := [];
    for i := 0 to |owners|
      invariant displaced == Missing(owners[..i], replicas)
    {
      assert owners[..i + 1][..i] == owners[..i];
      if owners[i] !in replicas { displaced := displaced + [owners[i]]; }
    }
    assert owners[..|owners|] == owners;
  }

  function Joined(nodes: map<bytes, nat>, node: bytes): map<bytes, nat> {
    if node in nodes then nodes else nodes[node := VIRTUAL_NODES]
  }

  // ------------------------------------------------------------------
  // Displaced owners
  // ------------------------------------------------------------------

  lemma {:induction false} MissingNone(s: seq<bytes>, t: seq<bytes>)
    requires forall x :: x in s ==> x in t
    ensures Missing(s, t) == []
  {
    if s != [] {
      assert s[|s| - 1] in s;
      MissingNone(s[..|s| - 1], t);
    }
  }

  lemma SameSetNoneMissing(hash: Hash, nodes: map<bytes, nat>, full: seq<VNode>, live: map<bytes, nat>,
                           liveRing: seq<VNode>,
                           p: int, count: nat)
    requires RingOf(hash, nodes, full) && RingOf(hash, live, liveRing) && |nodes| <= |live|
    requires live.Keys <= nodes.Keys && forall n :: n in live ==> nodes[n] == live[n]
    ensures Missing(ReplicaList(full, p, count), ReplicaList(liveRing, p, count)) == []
  {
    SubsetSize(live.Keys, nodes.Keys);
    assert live == nodes;
    RingUnique(hash, nodes, full, liveRing);
    MissingNone(ReplicaList(full, p, count), ReplicaList(liveRing, p, count));
  }

  lemma SubsetSize(a: set<bytes>, b: set<bytes>)
    requires a <= b && |b| <= |a|
    ensures a == b
  {
    assert |b| == |a| + |b - a| by { assert b == a + (b - a); }
  }

  lemma {:induction false} MissingIsNotIn(s: seq<bytes>, t: seq<bytes>, live: set<bytes>)
    requires forall x :: x in s ==> (x in t <==> x in live)
    ensures Missing(s, t) == NotIn(s, live)
  {
    if s != [] {
      assert s[|s| - 1] in s;
      MissingIsNotIn(s[..|s| - 1], t, live);
    }
  }

  lemma ReplicaMember(ring: seq<VNode>, p: int, count: nat, x: bytes)
    requires x in ReplicaList(ring, p, count)
    ensures exists v :: v in ring && v.node == x
  {
    var walk := Clockwise(ring, p);
    var all := Distinct(NodesOf(walk));
    assert x in all;
    DistinctMembers(NodesOf(walk), x);
    NodesAt(walk);
    var i :| 0 <= i < |NodesOf(walk)| && NodesOf(walk)[i] == x;
    assert walk[i] in ring && walk[i].node == x;
  }

  /** Unless a live node loses a ring position to an absent one, the displaced
      owners are exactly the absent nodes in the full ring's list. */
  lemma DisplacedAreAbsent(hash: Hash, nodes: map<bytes, nat>, full: seq<VNode>, live: map<bytes, nat>,
                           liveRing: seq<VNode>,
                           p: int, count: nat)
    requires RingOf(hash, nodes, full) && RingOf(hash, live, liveRing)
    requires forall n :: n in live ==> n in nodes && nodes[n] == live[n]
    requires NoneLost(hash, full, live)
    ensures Missing(ReplicaList(full, p, count), ReplicaList(liveRing, p, count)) ==
      NotIn(ReplicaList(full, p, count), live.Keys)
    ensures KeepNodes(ReplicaList(full, p, count), live.Keys) <= ReplicaList(liveRing, p, count)
  {
    RestrictionExactly(hash, nodes, full, live, liveRing);
    LivePrefix(full, live.Keys, p, count);
    var owners, replicas := ReplicaList(full, p, count), ReplicaList(liveRing, p, count);
    forall x | x in owners ensures x in replicas <==> x in live.Keys {
      KeepNodesMembers(owners, live.Keys, x);
      if x in replicas {
        ReplicaMember(liveRing, p, count, x);
        var v :| v in liveRing && v.node == x;
        AtMember(liveRing, v);
        assert Owner(hash, live, v.position, Some(x));
      }
    }
    MissingIsNotIn(owners, replicas, live.Keys);
  }

  /** No position is claimed twice. */
  ghost predicate CollisionFree(hash: Hash, nodes: map<bytes, nat>) {
    forall m, n, p :: Claims(hash, nodes, m, p) && Claims(hash, nodes, n, p) ==> m == n
  }

  lemma CollisionFreeNoneLost(hash: Hash, nodes: map<bytes, nat>, full: seq<VNode>, live: map<bytes, nat>)
    requires RingOf(hash, nodes, full) && CollisionFree(hash, nodes)
    requires forall n :: n in live ==> n in nodes && nodes[n] == live[n]
    ensures NoneLost(hash, full, live)
  {
    forall v, n | v in full && Claims(hash, live, n, v.position) ensures v.node in live {
      AtMember(full, v);
      assert Owner(hash, nodes, v.position, Some(v.node));
      assert Claims(hash, nodes, n, v.position);
    }
  }

  lemma {:induction false} LiveMember(local: bytes, peers: seq<Peer>, options: Options, now: int, n: bytes)
    ensures n in LiveIds(local, peers, options, now) <==>
      (n == local && local != [] && !options.isSupervisor) ||
      exists peer :: peer in peers && peer.node == n && StandingOf(peer, options, now).Live?
  {
    if peers != [] {
      LiveMember(local, peers[..|peers| - 1], options, now, n);
      assert peers == peers[..|peers| - 1] + [peers[|peers| - 1]];
      assert peers[|peers| - 1] in peers;
    }
  }

  lemma {:induction false} AwayMember(peers: seq<Peer>, options: Options, now: int, n: bytes)
    ensures n in AwayIds(peers, options, now) <==>
      exists peer :: peer in peers && peer.node == n && StandingOf(peer, options, now).Away?
  {
    if peers != [] {
      AwayMember(peers[..|peers| - 1], options, now, n);
      assert peers == peers[..|peers| - 1] + [peers[|peers| - 1]];
      assert peers[|peers| - 1] in peers;
    }
  }

  /** What one node knows: its own id, its peer table, its options and its clock. */
  datatype View = View(local: bytes, peers: seq<Peer>, options: Options, now: int)

  ghost predicate Targets(v: View, n: bytes) {
    (n == v.local && v.local != [] && !v.options.isSupervisor) ||
    exists peer :: peer in v.peers && peer.node == n && StandingOf(peer, v.options, v.now).Live?
  }

  ghost predicate Awaits(v: View, n: bytes) {
    exists peer :: peer in v.peers && peer.node == n && StandingOf(peer, v.options, v.now).Away?
  }

  ghost function LiveFor(v: View): map<bytes, nat> {
    LiveNodes(v.local, v.peers, v.options, v.now)
  }

  ghost function AllFor(v: View): map<bytes, nat> {
    AllNodes(v.local, v.peers, v.options, v.now)
  }

  lemma SameLive(v: View, w: View)
    requires forall n :: Targets(v, n) <==> Targets(w, n)
    ensures LiveIds(v.local, v.peers, v.options, v.now) == LiveIds(w.local, w.peers, w.options, w.now)
  {
    forall n
      ensures n in LiveIds(v.local, v.peers, v.options, v.now) <==> n in LiveIds(w.local, w.peers, w.options, w.now)
    {
      LiveMember(v.local, v.peers, v.options, v.now, n);
      LiveMember(w.local, w.peers, w.options, w.now, n);
      assert Targets(v, n) <==> Targets(w, n);
    }
  }

  lemma SameAll(v: View, w: View)
    requires forall n :: Targets(v, n) || Awaits(v, n) <==> Targets(w, n) || Awaits(w, n)
    ensures AllFor(v) == AllFor(w)
  {
    forall n ensures n in AllFor(v) <==> n in AllFor(w) {
      LiveMember(v.local, v.peers, v.options, v.now, n);
      LiveMember(w.local, w.peers, w.options, w.now, n);
      AwayMember(v.peers, v.options, v.now, n);
      AwayMember(w.peers, w.options, w.now, n);
      assert Targets(v, n) || Awaits(v, n) <==> Targets(w, n) || Awaits(w, n);
    }
  }

  /** Two nodes, each with its own id, peer table, options and clock, that count
      the same ids as targets place every key alike; if they also await the same
      ids they name the same displaced owners. */
  lemma SameMembersSamePlaces(hash: Hash, v: View, w: View, r: seq<VNode>, r': seq<VNode>, f: seq<VNode>,
                              f': seq<VNode>)
    requires forall n :: Targets(v, n) <==> Targets(w, n)
    requires RingOf(hash, LiveFor(v), r) && RingOf(hash, LiveFor(w), r')
    requires RingOf(hash, AllFor(v), f) && RingOf(hash, AllFor(w), f')
    ensures r == r' && forall p, count :: ReplicaList(r, p, count) == ReplicaList(r', p, count)
    ensures (forall n :: Targets(v, n) || Awaits(v, n) <==> Targets(w, n) || Awaits(w, n)) ==>
      f == f' && forall p, count :: Missing(ReplicaList(f, p, count), ReplicaList(r, p, count)) ==
                                    Missing(ReplicaList(f', p, count), ReplicaList(r', p, count))
  {
    SameLive(v, w);
    RingUnique(hash, LiveFor(v), r, r');
    if forall n :: Targets(v, n) || Awaits(v, n) <==> Targets(w, n) || Awaits(w, n) {
      SameAll(v, w);
      RingUnique(hash, AllFor(v), f, f');
    }
  }

  /** `v` counts `n` as a target through its peer table. */
  ghost predicate Lists(v: View, n: bytes) {
    exists peer :: peer in v.peers && peer.node == n && StandingOf(peer, v.options, v.now).Live?
  }

  /** Two data nodes that list each other, and the same third parties, count the
      same ids as targets. */
  lemma MutualPeersAgree(v: View, w: View)
    requires v.local != [] && !v.options.isSupervisor && w.local != [] && !w.options.isSupervisor
    requires v.local != w.local ==> Lists(v, w.local) && Lists(w, v.local)
    requires forall n :: n != v.local && n != w.local ==> (Lists(v, n) <==> Lists(w, n))
    ensures forall n :: Targets(v, n) <==> Targets(w, n)
  {
    forall n ensures Targets(v, n) <==> Targets(w, n) {
      assert Targets(v, n) <==> n == v.local || Lists(v, n);
      assert Targets(w, n) <==> n == w.local || Lists(w, n);
    }
  }

  lemma {:induction false} NotInMember(s: seq<bytes>, live: set<bytes>, x: bytes)
    ensures x in NotIn(s, live) <==> x in s && x !in live
  {
    if s != [] {
      NotInMember(s[..|s| - 1], live, x);
      assert s == s[..|s| - 1] + [s[|s| - 1]];
    }
  }

  /** A displaced owner is a degraded or stale peer, never a placement target. */
  lemma DisplacedAreAway(hash: Hash, local: bytes, peers: seq<Peer>, options: Options, now: int,
                         full: seq<VNode>, liveRing: seq<VNode>, p: int, count: nat, x: bytes)
    requires RingOf(hash, AllNodes(local, peers, options, now), full)
    requires RingOf(hash, LiveNodes(local, peers, options, now), liveRing)
    requires NoneLost(hash, full, LiveNodes(local, peers, options, now))
    requires x in Missing(ReplicaList(full, p, count), ReplicaList(liveRing, p, count))
    ensures x !in LiveIds(local, peers, options, now)
    ensures exists peer :: peer in peers && peer.node == x && StandingOf(peer, options, now).Away?
  {
    var nodes, live := AllNodes(local, peers, options, now), LiveNodes(local, peers, options, now);
    DisplacedAreAbsent(hash, nodes, full, live, liveRing, p, count);
    NotInMember(ReplicaList(full, p, count), live.Keys, x);
    ReplicaMember(full, p, count, x);
    var v :| v in full && v.node == x;
    AtMember(full, v);
    assert Owner(hash, nodes, v.position, Some(x));
    AwayMember(peers, options, now, x);
  }

  // ------------------------------------------------------------------
  // With a collision a live node can be displaced
  // ------------------------------------------------------------------

  /** Ids "a" to "d"; "a" takes the positions that "c" and "d" want. */
  function ToyHash(x: bytes): int {
    if x == [] then 0
    else if x == [97, 35, 48] then 1
    else if x[0] == 97 then 2
    else if x[0] == 98 then 3
    else if x[0] == 99 then 1
    else 2
  }

  lemma ToyClaims(nodes: map<bytes, nat>, n: bytes, p: int)
    requires nodes.Keys <= {[97], [98], [99], [100]} && forall m :: m in nodes ==> nodes[m] == VIRTUAL_NODES
    ensures Claims(ToyHash, nodes, n, p) <==>
      n in nodes && (if n == [97] then p == 1 || p == 2 else p == if n == [98] then 3 else if n == [99] then 1 else 2)
  {
    assert VirtualName(n, 0) == n + [35, 48] by { assert Digits(0) == [48]; }
    assert VirtualName(n, 1) == n + [35, 49] by { assert Digits(1) == [49]; }
    if n in nodes {
      assert 0 < nodes[n] && 1 < nodes[n];
      assert n == [97] ==> VirtualName(n, 0) == [97, 35, 48] && VirtualName(n, 1) == [97, 35, 49];
      assert ToyHash(VirtualName(n, 0)) == if n == [97] then 1 else if n == [98] then 3 else if n == [99] then 1 else 2;
      assert n == [97] ==> ToyHash(VirtualName(n, 1)) == 2;
      forall i: nat ensures VirtualName(n, i)[0] == n[0] {}
    }
  }

  lemma AtThree(a: VNode, b: VNode, c: VNode, p: int)
    ensures At([a, b, c], p) ==
      if p == a.position then Some(a.node) else if p == b.position then Some(b.node)
      else if p == c.position then Some(c.node) else None
  {
    assert [a, b, c][1..] == [b, c] && [b, c][1..] == [c] && [c][1..] == [];
    assert At([c], p) == if p == c.position then Some(c.node) else None;
    assert At([b, c], p) == if p == b.position then Some(b.node) else At([c], p);
  }

  /** Three entries past the key: the first two different ids. */
  lemma FirstTwo(a: VNode, b: VNode, c: VNode)
    requires 0 < a.position < b.position < c.position && (a.node != b.node || a.node != c.node)
    ensures ReplicaList([a, b, c], 0, 2) == [a.node, if a.node != b.node then b.node else c.node]
  {
    var ring := [a, b, c];
    assert Clockwise(ring, 0) == ring;
    NodesAt(ring);
    assert NodesOf(ring) == [a.node, b.node, c.node];
    TwoDistinct(a.node, b.node, c.node);
  }

  lemma TwoDistinct(x: bytes, y: bytes, z: bytes)
    requires x != y || x != z
    ensures FirstOf(Distinct([x, y, z]), 2) == [x, if x != y then y else z]
  {
    assert Distinct([x]) == [x] by { DistinctSnoc([], x); assert [] + [x] == [x]; }
    DistinctSnoc([x], y);
    DistinctSnoc([x, y], z);
    assert [x] + [y] == [x, y] && [x, y] + [z] == [x, y, z];
  }

  function ToyNodes(withA: bool): map<bytes, nat> {
    var live: map<bytes, nat> := map[[98] := VIRTUAL_NODES, [99] := VIRTUAL_NODES, [100] := VIRTUAL_NODES];
    if withA then live[[97] := VIRTUAL_NODES] else live
  }

  function ToyRing(withA: bool): seq<VNode> {
    if withA then [VNode(1, [97]), VNode(2, [97]), VNode(3, [98])]
    else [VNode(1, [99]), VNode(2, [100]), VNode(3, [98])]
  }

  lemma ToyRings(withA: bool)
    ensures RingOf(ToyHash, ToyNodes(withA), ToyRing(withA))
  {
    var nodes, ring := ToyNodes(withA), ToyRing(withA);
    forall p ensures Owner(ToyHash, nodes, p, At(ring, p)) {
      AtThree(ring[0], ring[1], ring[2], p);
      forall n
        ensures Claims(ToyHash, nodes, n, p) <==>
          n in nodes &&
          (if n == [97] then p == 1 || p == 2 else p == if n == [98] then 3 else if n == [99] then 1 else 2)
      {
        ToyClaims(nodes, n, p);
      }
      assert Less([97], [99]) && Less([97], [100]);
    }
  }

  /** "b" is live, and named by the full ring but not by the live one. */
  lemma LiveNodeDisplaced()
    ensures RingOf(ToyHash, ToyNodes(true), ToyRing(true)) && RingOf(ToyHash, ToyNodes(false), ToyRing(false))
    ensures [98] in ToyNodes(false)
    ensures [98] in Missing(ReplicaList(ToyRing(true), 0, 2), ReplicaList(ToyRing(false), 0, 2))
    ensures !NoneLost(ToyHash, ToyRing(true), ToyNodes(false))
  {
    ToyRings(true);
    ToyRings(false);
    ToyDisplaced();
    ToyLost();
  }

  lemma ToyDisplaced()
    ensures [98] in Missing(ReplicaList(ToyRing(true), 0, 2), ReplicaList(ToyRing(false), 0, 2))
  {
    FirstTwo(VNode(1, [97]), VNode(2, [97]), VNode(3, [98]));
    FirstTwo(VNode(1, [99]), VNode(2, [100]), VNode(3, [98]));
    MissingMember([[97], [98]], [[99], [100]], [98]);
  }

  lemma ToyLost()
    ensures !NoneLost(ToyHash, ToyRing(true), ToyNodes(false))
  {
    var v := ToyRing(true)[0];
    assert v == VNode(1, [97]) && v in ToyRing(true);
    ToyClaims(ToyNodes(false), [99], 1);
    assert Claims(ToyHash, ToyNodes(false), [99], v.position);
  }

  /** "a" is removed: its positions stay empty, though "c" and "d" claim them. */
  lemma RemovalLeavesGaps()
    ensures RingOf(ToyHash, ToyNodes(true), ToyRing(true))
    ensures var left := [VNode(3, [98])];
      && (forall q :: At(left, q) == if At(ToyRing(true), q) == Some([97]) then None else At(ToyRing(true), q))
      && !RingOf(ToyHash, ToyNodes(true) - {[97]}, left)
  {
    var left := [VNode(3, [98])];
    ToyRings(true);
    ToyRings(false);
    forall q ensures At(left, q) == if At(ToyRing(true), q) == Some([97]) then None else At(ToyRing(true), q) {
      AtThree(VNode(1, [97]), VNode(2, [97]), VNode(3, [98]), q);
      assert left[1..] == [];
    }
    assert ToyNodes(true) - {[97]} == ToyNodes(false);
    if RingOf(ToyHash, ToyNodes(false), left) {
      RingUnique(ToyHash, ToyNodes(false), left, ToyRing(false));
    }
  }

  lemma {:induction false} MissingMember(s: seq<bytes>, t: seq<bytes>, x: bytes)
    ensures x in Missing(s, t) <==> x in s && x !in t
  {
    if s != [] {
      MissingMember(s[..|s| - 1], t, x);
      assert s == s[..|s| - 1] + [s[|s| - 1]];
    }
  }

  /** A peer may ever hold bytes: it has shown its id, and is neither a supervisor nor
      reclaimed. */
  predicate Eligible(peer: Peer) {
    peer.node != [] && !(BOOTSTRAP <= peer.node) && !peer.supervisor && peer.state != Reclaimed
  }

  /** It is in good health, unless degraded peers count, and was seen lately. */
  predicate Present(peer: Peer, options: Options, now: int) {
    && (peer.state == Degraded ==> options.includeDegraded)
    && (peer.lastSeen == 0 || now <= peer.lastSeen + options.staleAfter)
  }

  /** The targets are this node, unless it supervises, and the eligible peers that are
      present; the away ones are the eligible peers that are not. */
  lemma {:induction false} TargetsExactly(local: bytes, peers: seq<Peer>, options: Options, now: int, n: bytes)
    ensures n in LiveIds(local, peers, options, now) <==>
      || (n == local && n != [] && !options.isSupervisor)
      || exists i :: 0 <= i < |peers| && peers[i].node == n && Eligible(peers[i]) && Present(peers[i], options, now)
    ensures n in AwayIds(peers, options, now) <==>
      exists i :: 0 <= i < |peers| && peers[i].node == n && Eligible(peers[i]) && !Present(peers[i], options, now)
    decreases |peers|
  {
    if peers != [] {
      var t, last := peers[..|peers| - 1], peers[|peers| - 1];
      TargetsExactly(local, t, options, now, n);
      assert forall i :: 0 <= i < |t| ==> t[i] == peers[i];
      if i :| 0 <= i < |peers| && peers[i].node == n && Eligible(peers[i]) && Present(peers[i], options, now) {
        assert i < |t| ==> t[i].node == n;
      }
      if i :| 0 <= i < |peers| && peers[i].node == n && Eligible(peers[i]) && !Present(peers[i], options, now) {
        assert i < |t| ==> t[i].node == n;
      }
      assert peers[|t|] == last;
    }
  }

  /** Within a collection two documents are placed by the same hash input exactly when
      they are in the same shard, or both in none and the same document. */
  lemma HashInputExactly(collection: bytes, key: bytes, shard: bytes, key': bytes, shard': bytes)
    ensures HashInput(collection, key, shard) == HashInput(collection, key', shard') <==>
      if shard != [] || shard' != [] then shard == shard' else key == key'
  {
    var a, b := HashInput(collection, key, shard), HashInput(collection, key', shard');
    assert a[|collection|] == if shard != [] then 124 else 47;
    assert b[|collection|] == if shard' != [] then 124 else 47;
    if shard != [] && shard' != [] {
      Behind(collection + [124, 115, 104, 97, 114, 100, 124], shard, shard');
    } else if shard == [] && shard' == [] {
      Behind(collection + [47], key, key');
    }
  }

  lemma Behind(front: bytes, a: bytes, b: bytes)
    ensures front + a == front + b <==> a == b
  {
    assert (front + a)[|front|..] == a && (front + b)[|front|..] == b;
  }
}
