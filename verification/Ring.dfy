/** The consistent-hash ring: an ordered map from ring positions to node ids.
    The hash is a parameter; nothing is assumed of it.
 */
module Rings {
  import opened Wrappers
  import opened ByteStrings

  const VIRTUAL_NODES := 160

  type Hash = bytes -> int

  datatype VNode = VNode(position: int, node: bytes)

  /** The string hashed for virtual node `i`: the id, '#' and the number. */
  function VirtualName(node: bytes, i: nat): bytes {
    node + [35] + Digits(i)
  }

  /** An ordered map, as the sequence of its items. */
  predicate AscendingRing(ring: seq<VNode>) {
    forall i, j :: 0 <= i < j < |ring| ==> ring[i].position < ring[j].position
  }

  function At(ring: seq<VNode>, p: int): Option<bytes> {
    if ring == [] then None else if ring[0].position == p then Some(ring[0].node) else At(ring[1..], p)
  }

  lemma {:induction false} AtMember(ring: seq<VNode>, v: VNode)
    requires AscendingRing(ring)
    ensures v in ring <==> At(ring, v.position) == Some(v.node)
  {
    if ring != [] {
      AtMember(ring[1..], v);
      assert ring == [ring[0]] + ring[1..];
      assert forall w :: w in ring[1..] ==> ring[0].position < w.position;
      if ring[0].position == v.position { AtPast(ring[1..], v.position); }
    }
  }

  lemma {:induction false} AtPast(ring: seq<VNode>, p: int)
    requires forall v :: v in ring ==> p < v.position
    ensures At(ring, p) == None
  {
    if ring != [] {
      assert ring[0] in ring;
      AtPast(ring[1..], p);
    }
  }

  lemma {:induction false} SameRing(r: seq<VNode>, s: seq<VNode>)
    requires AscendingRing(r) && AscendingRing(s)
    requires forall p :: At(r, p) == At(s, p)
    ensures r == s
    decreases r
  {
    assert s != [] ==> At(s, s[0].position) == At(r, s[0].position);
    assert r != [] ==> At(r, r[0].position) == At(s, r[0].position);
    if r != [] && s != [] {
      Heads(r, s);
      Heads(s, r);
      forall p ensures At(r[1..], p) == At(s[1..], p) {
        if p == r[0].position {
          TailPast(r);
          TailPast(s);
        } else {
          assert At(r, p) == At(s, p);
        }
      }
      SameRing(r[1..], s[1..]);
      assert r == [r[0]] + r[1..] && s == [s[0]] + s[1..];
    }
  }

  lemma TailPast(r: seq<VNode>)
    requires AscendingRing(r) && r != []
    ensures At(r[1..], r[0].position) == None
  {
    AtPast(r[1..], r[0].position);
  }

  lemma Heads(r: seq<VNode>, s: seq<VNode>)
    requires AscendingRing(r) && AscendingRing(s) && r != [] && s != []
    requires forall p :: At(r, p) == At(s, p)
    ensures s[0].position <= r[0].position
    ensures s[0].position == r[0].position ==> s[0] == r[0]
  {
    assert At(r, r[0].position) == Some(r[0].node) == At(s, r[0].position);
    AtMember(s, r[0]);
    var i :| 0 <= i < |s| && s[i] == r[0];
  }

  // ------------------------------------------------------------------
  // What a ring should be: a function of the node set
  // ------------------------------------------------------------------

  /** One of the node's virtual nodes hashes to this position. */
  ghost predicate Claims(hash: Hash, nodes: map<bytes, nat>, node: bytes, p: int) {
    node in nodes && exists i :: 0 <= i < nodes[node] && hash(VirtualName(node, i)) == p
  }

  /** The smallest id among the claimants, or nobody. */
  ghost predicate Owner(hash: Hash, nodes: map<bytes, nat>, p: int, owner: Option<bytes>) {
    match owner
    case None => forall n :: !Claims(hash, nodes, n, p)
    case Some(node) => Claims(hash, nodes, node, p) && forall n :: Claims(hash, nodes, n, p) ==> AtMost(node, n)
  }

  ghost predicate RingOf(hash: Hash, nodes: map<bytes, nat>, ring: seq<VNode>) {
    AscendingRing(ring) && forall p :: Owner(hash, nodes, p, At(ring, p))
  }

  lemma OwnerUnique(hash: Hash, nodes: map<bytes, nat>, p: int, a: Option<bytes>, b: Option<bytes>)
    requires Owner(hash, nodes, p, a) && Owner(hash, nodes, p, b)
    ensures a == b
  {
    if a.Some? && b.Some? && a != b { LessAsymmetric(a.value, b.value); }
  }

  /** The ring depends on the node set alone, however it was built. */
  lemma RingUnique(hash: Hash, nodes: map<bytes, nat>, r: seq<VNode>, s: seq<VNode>)
    requires RingOf(hash, nodes, r) && RingOf(hash, nodes, s)
    ensures r == s
  {
    forall p ensures At(r, p) == At(s, p) {
      OwnerUnique(hash, nodes, p, At(r, p), At(s, p));
    }
    SameRing(r, s);
  }

  // ------------------------------------------------------------------
  // One virtual node
  // ------------------------------------------------------------------

  /** Takes the position unless a smaller or equal id already has it. */
  function Placed(ring: seq<VNode>, p: int, node: bytes): seq<VNode> {
    if ring == [] || p < ring[0].position then [VNode(p, node)] + ring
    else if ring[0].position == p then
      if AtMost(ring[0].node, node) then ring else [VNode(p, node)] + ring[1..]
    else [ring[0]] + Placed(ring[1..], p, node)
  }

  function Winner(held: Option<bytes>, node: bytes): bytes {
    if held.Some? && AtMost(held.value, node) then held.value else node
  }

  lemma ConsAscending(v: VNode, ring: seq<VNode>)
    requires AscendingRing(ring) && forall w :: w in ring ==> v.position < w.position
    ensures AscendingRing([v] + ring)
  {
    assert forall i :: 0 <= i < |ring| ==> ring[i] in ring;
  }

  lemma TailAscending(ring: seq<VNode>)
    requires AscendingRing(ring) && ring != []
    ensures AscendingRing(ring[1..]) && forall w :: w in ring[1..] ==> ring[0].position < w.position && w in ring
  {
  }

  lemma {:induction false} PlacedAscending(ring: seq<VNode>, p: int, node: bytes, low: int)
    requires AscendingRing(ring) && low < p && forall v :: v in ring ==> low < v.position
    ensures AscendingRing(Placed(ring, p, node)) && forall v :: v in Placed(ring, p, node) ==> low < v.position
  {
    if ring == [] {
    } else if p < ring[0].position {
      TailAscending(ring);
      assert forall w :: w in ring ==> w == ring[0] || w in ring[1..];
      ConsAscending(VNode(p, node), ring);
    } else {
      var rest := ring[1..];
      TailAscending(ring);
      assert ring[0] in ring;
      if ring[0].position == p {
        ConsAscending(VNode(p, node), rest);
      } else {
        PlacedAscending(rest, p, node, ring[0].position);
        ConsAscending(ring[0], Placed(rest, p, node));
      }
    }
  }

  lemma {:induction false} PlacedAt(ring: seq<VNode>, p: int, node: bytes, q: int)
    requires AscendingRing(ring)
    ensures At(Placed(ring, p, node), q) == if q == p then Some(Winner(At(ring, p), node)) else At(ring, q)
  {
    if ring == [] || p < ring[0].position {
      assert ([VNode(p, node)] + ring)[1..] == ring;
      if q == p { AtPast(ring, p); }
    } else {
      PlacedAt(ring[1..], p, node, q);
    }
  }

  /** Placing one more virtual node keeps the ring the ring of the set. */
  lemma PlacedRing(hash: Hash, nodes: map<bytes, nat>, ring: seq<VNode>, node: bytes, i: nat)
    requires node in nodes && nodes[node] == i && RingOf(hash, nodes, ring)
    ensures RingOf(hash, nodes[node := i + 1], Placed(ring, hash(VirtualName(node, i)), node))
  {
    var p := hash(VirtualName(node, i));
    var nodes', ring' := nodes[node := i + 1], Placed(ring, p, node);
    PlacedAscending(ring, p, node, Least(ring, p));
    forall q ensures Owner(hash, nodes', q, At(ring', q)) {
      PlacedAt(ring, p, node, q);
      assert Owner(hash, nodes, q, At(ring, q));
      OneMoreClaim(hash, nodes, nodes', node, i, q);
      if q == p { WinnerOwns(hash, nodes, node, i, At(ring, p)); }
    }
  }

  function Least(ring: seq<VNode>, p: int): (low: int)
    requires AscendingRing(ring)
    ensures low < p && forall v :: v in ring ==> low < v.position
  {
    if ring == [] || p < ring[0].position then p - 1 else ring[0].position - 1
  }

  lemma OneMoreClaim(hash: Hash, nodes: map<bytes, nat>, nodes': map<bytes, nat>, node: bytes, i: nat, q: int)
    requires node in nodes && nodes[node] == i && nodes' == nodes[node := i + 1]
    ensures forall n :: Claims(hash, nodes', n, q) <==>
      Claims(hash, nodes, n, q) || (n == node && q == hash(VirtualName(node, i)))
  {
    if Claims(hash, nodes', node, q) {
      var j :| 0 <= j < i + 1 && hash(VirtualName(node, j)) == q;
      assert j < i ==> Claims(hash, nodes, node, q);
    }
    if Claims(hash, nodes, node, q) {
      var j :| 0 <= j < i && hash(VirtualName(node, j)) == q;
      assert 0 <= j < nodes'[node];
    }
    assert i < nodes'[node];
  }

  /** Whoever ends up at the contested position is the smallest claimant. */
  lemma WinnerOwns(hash: Hash, nodes: map<bytes, nat>, node: bytes, i: nat, held: Option<bytes>)
    requires node in nodes && nodes[node] == i && Owner(hash, nodes, hash(VirtualName(node, i)), held)
    ensures Owner(hash, nodes[node := i + 1], hash(VirtualName(node, i)), Some(Winner(held, node)))
  {
    var p := hash(VirtualName(node, i));
    OneMoreClaim(hash, nodes, nodes[node := i + 1], node, i, p);
    if held.Some? {
      LessTotal(held.value, node);
      if !AtMost(held.value, node) {
        forall n | Claims(hash, nodes, n, p) ensures AtMost(node, n) {
          if held.value != n { LessTransitive(node, held.value, n); }
        }
      }
    }
  }

  lemma NoClaimYet(hash: Hash, nodes: map<bytes, nat>, ring: seq<VNode>, node: bytes)
    requires node !in nodes && RingOf(hash, nodes, ring)
    ensures RingOf(hash, nodes[node := 0], ring)
  {
    var nodes' := nodes[node := 0];
    forall p ensures Owner(hash, nodes', p, At(ring, p)) {
      assert Owner(hash, nodes, p, At(ring, p));
      assert forall n :: Claims(hash, nodes', n, p) <==> Claims(hash, nodes, n, p);
    }
  }

  // ------------------------------------------------------------------
  // Erasing
  // ------------------------------------------------------------------

  /** Frees the position if that node holds it. */
  function Erased(ring: seq<VNode>, p: int, node: bytes): seq<VNode> {
    if ring == [] then []
    else if ring[0] == VNode(p, node) then ring[1..]
    else [ring[0]] + Erased(ring[1..], p, node)
  }

  lemma {:induction false} ErasedFacts(ring: seq<VNode>, p: int, node: bytes)
    requires AscendingRing(ring)
    ensures AscendingRing(Erased(ring, p, node)) && forall v :: v in Erased(ring, p, node) ==> v in ring
    ensures forall q :: At(Erased(ring, p, node), q) ==
                        if q == p && At(ring, p) == Some(node) then None else At(ring, q)
  {
    if ring != [] {
      var rest := ring[1..];
      assert ring == [ring[0]] + rest;
      assert forall v :: v in rest ==> ring[0].position < v.position;
      ErasedFacts(rest, p, node);
      if ring[0] == VNode(p, node) {
        TailPast(ring);
      } else {
        var erased := Erased(rest, p, node);
        assert forall i :: 0 <= i < |erased| ==> erased[i] in erased;
      }
    }
  }

  /** A position the node holds is also wanted by another. */
  ghost predicate Contested(hash: Hash, nodes: map<bytes, nat>, ring: seq<VNode>, node: bytes) {
    exists n, p :: n != node && Claims(hash, nodes, n, p) && At(ring, p) == Some(node)
  }

  lemma OtherClaims(hash: Hash, nodes: map<bytes, nat>, node: bytes, n: bytes, p: int)
    ensures Claims(hash, nodes - {node}, n, p) <==> n != node && Claims(hash, nodes, n, p)
  {
  }

  /** Removing a node leaves the ring of the remaining set exactly when none of
      its positions was contested: the loser is not put back. */
  lemma RemovedRing(hash: Hash, nodes: map<bytes, nat>, ring: seq<VNode>, ring': seq<VNode>, node: bytes)
    requires RingOf(hash, nodes, ring) && AscendingRing(ring')
    requires forall q :: At(ring', q) == if At(ring, q) == Some(node) then None else At(ring, q)
    ensures RingOf(hash, nodes - {node}, ring') <==> !Contested(hash, nodes, ring, node)
  {
    var rest := nodes - {node};
    forall n, q ensures Claims(hash, rest, n, q) <==> n != node && Claims(hash, nodes, n, q) {
      OtherClaims(hash, nodes, node, n, q);
    }
    if n, p :| n != node && Claims(hash, nodes, n, p) && At(ring, p) == Some(node) {
      assert At(ring', p) == None && Claims(hash, rest, n, p);
    } else {
      forall p ensures Owner(hash, rest, p, At(ring', p)) {
        assert Owner(hash, nodes, p, At(ring, p));
        if At(ring, p) == Some(node) {
          forall n ensures !Claims(hash, rest, n, p) {
            assert n != node && Claims(hash, nodes, n, p) ==> Contested(hash, nodes, ring, node);
          }
        }
      }
    }
  }

  // ------------------------------------------------------------------
  // The clockwise walk
  // ------------------------------------------------------------------

  /** The index of the first position at or after `p`. */
  function LowerBound(ring: seq<VNode>, p: int): (i: nat)
    ensures i <= |ring|
    ensures forall j :: 0 <= j < i ==> ring[j].position < p
    ensures i < |ring| ==> p <= ring[i].position
  {
    if ring == [] || p <= ring[0].position then 0 else 1 + LowerBound(ring[1..], p)
  }

  function Clockwise(ring: seq<VNode>, p: int): (walk: seq<VNode>)
    ensures |walk| == |ring|
  {
    ring[LowerBound(ring, p)..] + ring[..LowerBound(ring, p)]
  }

  function NodesOf(s: seq<VNode>): seq<bytes> {
    if s == [] then [] else NodesOf(s[..|s| - 1]) + [s[|s| - 1].node]
  }

  /** First occurrences only. */
  function Distinct(s: seq<bytes>): seq<bytes> {
    if s == [] then [] else
    var d, x := Distinct(s[..|s| - 1]), s[|s| - 1];
    if x in d then d else d + [x]
  }

  function FirstOf(s: seq<bytes>, count: nat): seq<bytes> {
    if |s| <= count then s else s[..count]
  }

  /** The nodes met clockwise from `p`, each once, at most `count`. */
  function ReplicaList(ring: seq<VNode>, p: int, count: nat): seq<bytes> {
    FirstOf(Distinct(NodesOf(Clockwise(ring, p))), count)
  }

  lemma {:induction false} NodesAt(s: seq<VNode>)
    ensures |NodesOf(s)| == |s| && forall i :: 0 <= i < |s| ==> NodesOf(s)[i] == s[i].node
  {
    if s != [] { NodesAt(s[..|s| - 1]); }
  }

  lemma {:induction false} DistinctMembers(s: seq<bytes>, x: bytes)
    ensures x in Distinct(s) <==> x in s
  {
    if s != [] {
      DistinctMembers(s[..|s| - 1], x);
      assert s == s[..|s| - 1] + [s[|s| - 1]];
    }
  }

  lemma {:induction false} DistinctOnce(s: seq<bytes>)
    ensures forall i, j :: 0 <= i < j < |Distinct(s)| ==> Distinct(s)[i] != Distinct(s)[j]
  {
    if s != [] { DistinctOnce(s[..|s| - 1]); }
  }

  lemma {:induction false} DistinctPrefix(s: seq<bytes>, i: nat)
    requires i <= |s|
    ensures Distinct(s[..i]) <= Distinct(s)
    decreases |s|
  {
    if i < |s| {
      var t := s[..|s| - 1];
      DistinctPrefix(t, i);
      assert t[..i] == s[..i];
    } else {
      assert s[..i] == s;
    }
  }

  // ------------------------------------------------------------------
  // A key's replicas, from the positions
  // ------------------------------------------------------------------

  /** Going round from `p`, position `a` comes before position `b`. */
  predicate Sooner(p: int, a: int, b: int) {
    if a >= p <==> b >= p then a < b else a >= p
  }

  function Owners(ring: seq<VNode>): set<bytes> {
    set v | v in ring :: v.node
  }

  /** Some position of `x` comes before every position of `y`. */
  ghost predicate Nearer(ring: seq<VNode>, p: int, x: bytes, y: bytes) {
    exists v :: v in ring && v.node == x && Leads(ring, p, v, y)
  }

  predicate Leads(ring: seq<VNode>, p: int, v: VNode, y: bytes) {
    forall w :: w in ring && w.node == y ==> Sooner(p, v.position, w.position)
  }

  lemma ClockwiseOrder(ring: seq<VNode>, p: int)
    requires AscendingRing(ring)
    ensures var walk := Clockwise(ring, p);
      && (forall v :: v in walk <==> v in ring)
      && forall i, j :: 0 <= i < j < |walk| ==> Sooner(p, walk[i].position, walk[j].position)
  {
    var b := LowerBound(ring, p);
    var late, early := ring[b..], ring[..b];
    assert ring == early + late;
    assert forall i :: 0 <= i < |late| ==> late[i].position >= p by {
      forall i | 0 <= i < |late| ensures late[i].position >= p {
        assert late[i] == ring[b + i];
      }
    }
  }

  /** Of two names the one listed first also occurs first. */
  lemma {:induction false} DistinctOrder(s: seq<bytes>, a: nat, b: nat) returns (i: nat)
    requires a < b < |Distinct(s)|
    ensures i < |s| && s[i] == Distinct(s)[a] && forall j :: 0 <= j < |s| && s[j] == Distinct(s)[b] ==> i < j
    decreases |s|
  {
    var t := s[..|s| - 1];
    assert forall j :: 0 <= j < |t| ==> t[j] == s[j];
    if b < |Distinct(t)| {
      i := DistinctOrder(t, a, b);
    } else {
      DistinctMembers(t, Distinct(t)[a]);
      i :| 0 <= i < |t| && t[i] == Distinct(t)[a];
      DistinctMembers(t, s[|s| - 1]);
    }
  }

  lemma {:induction false} DistinctCount(s: seq<bytes>)
    ensures |Distinct(s)| == |set x | x in s|
    ensures (set x | x in Distinct(s)) == set x | x in s
  {
    if s != [] {
      var t, x := s[..|s| - 1], s[|s| - 1];
      DistinctCount(t);
      assert s == t + [x];
      assert (set y | y in s) == (set y | y in t) + {x};
      DistinctMembers(t, x);
    }
  }

  lemma WalkOwners(ring: seq<VNode>, p: int)
    requires AscendingRing(ring)
    ensures (set x | x in NodesOf(Clockwise(ring, p))) == Owners(ring)
  {
    var walk := Clockwise(ring, p);
    ClockwiseOrder(ring, p);
    NodesAt(walk);
    var names := NodesOf(walk);
    forall x | x in names ensures x in Owners(ring) {
      var i :| 0 <= i < |names| && names[i] == x;
      assert walk[i] in walk;
    }
    forall x | x in Owners(ring) ensures x in names {
      var v :| v in ring && v.node == x;
      assert v in walk;
      var i :| 0 <= i < |walk| && walk[i] == v;
      assert names[i] == x;
    }
  }

  /** The whole clockwise list orders the nodes by their nearest positions. */
  lemma ListedByDistance(ring: seq<VNode>, p: int, a: nat, b: nat)
    requires AscendingRing(ring) && a < b < |Distinct(NodesOf(Clockwise(ring, p)))|
    ensures var all := Distinct(NodesOf(Clockwise(ring, p))); Nearer(ring, p, all[a], all[b])
  {
    var walk := Clockwise(ring, p);
    var names := NodesOf(walk);
    var all := Distinct(names);
    ClockwiseOrder(ring, p);
    NodesAt(walk);
    var i := DistinctOrder(names, a, b);
    assert walk[i] in walk;
    forall w | w in ring && w.node == all[b] ensures Sooner(p, walk[i].position, w.position) {
      assert w in walk;
      var j :| 0 <= j < |walk| && walk[j] == w;
      assert names[j] == all[b];
    }
    assert Leads(ring, p, walk[i], all[b]);
  }

  /** What the list of replicas is, told from the positions alone. */
  ghost predicate NearestFirst(ring: seq<VNode>, p: int, count: nat, out: seq<bytes>) {
    && |out| == (if count <= |Owners(ring)| then count else |Owners(ring)|)
    && (forall x :: x in out ==> x in Owners(ring))
    && (forall i, j :: 0 <= i < j < |out| ==> out[i] != out[j] && Nearer(ring, p, out[i], out[j]))
    && (forall i, y :: 0 <= i < |out| && y in Owners(ring) && y !in out ==> Nearer(ring, p, out[i], y))
  }

  /** The replicas are the nodes whose nearest positions, going round from the key,
      come first, nearest first; the first of them owns the first position at or after
      the key, or the first of all if there is none. */
  lemma ReplicasExactly(ring: seq<VNode>, p: int, count: nat)
    requires AscendingRing(ring)
    ensures NearestFirst(ring, p, count, ReplicaList(ring, p, count))
    ensures var out := ReplicaList(ring, p, count);
      out != [] ==> exists v :: v in ring && v.node == out[0] && FirstFrom(ring, p, v)
  {
    var all, out := Distinct(NodesOf(Clockwise(ring, p))), ReplicaList(ring, p, count);
    WalkOwners(ring, p);
    DistinctCount(NodesOf(Clockwise(ring, p)));
    DistinctOnce(NodesOf(Clockwise(ring, p)));
    forall x | x in out ensures x in Owners(ring) {
      assert x in all;
    }
    forall i, j | 0 <= i < j < |out| ensures out[i] != out[j] && Nearer(ring, p, out[i], out[j]) {
      ListedByDistance(ring, p, i, j);
    }
    forall i, y | 0 <= i < |out| && y in Owners(ring) && y !in out ensures Nearer(ring, p, out[i], y) {
      assert y in set x | x in all;
      var j :| 0 <= j < |all| && all[j] == y;
      assert forall k :: 0 <= k < |out| ==> out[k] == all[k];
      ListedByDistance(ring, p, i, j);
    }
    if out != [] { FirstReplica(ring, p, count); }
  }

  predicate FirstFrom(ring: seq<VNode>, p: int, v: VNode) {
    && (v.position >= p ==> forall w :: w in ring && w.position >= p ==> v.position <= w.position)
    && (v.position < p ==> forall w :: w in ring ==> w.position < p && v.position <= w.position)
  }

  lemma FirstReplica(ring: seq<VNode>, p: int, count: nat)
    requires AscendingRing(ring) && ReplicaList(ring, p, count) != []
    ensures var v := Clockwise(ring, p)[0];
      v in ring && v.node == ReplicaList(ring, p, count)[0] && FirstFrom(ring, p, v)
  {
    var walk := Clockwise(ring, p);
    var names := NodesOf(walk);
    ClockwiseOrder(ring, p);
    NodesAt(walk);
    assert walk[0] in walk;
    DistinctPrefix(names, 1);
    assert names[..1] == [names[0]];
    assert Distinct([names[0]]) == [names[0]];
    forall w | w in ring ensures w == walk[0] || Sooner(p, walk[0].position, w.position) {
      assert w in walk;
      var j :| 0 <= j < |walk| && walk[j] == w;
    }
  }

  // ------------------------------------------------------------------
  // Restricting a ring to some of its nodes
  // ------------------------------------------------------------------

  function Keep(s: seq<VNode>, live: set<bytes>): seq<VNode> {
    if s == [] then [] else Keep(s[..|s| - 1], live) + if s[|s| - 1].node in live then [s[|s| - 1]] else []
  }

  function KeepNodes(s: seq<bytes>, live: set<bytes>): seq<bytes> {
    if s == [] then [] else KeepNodes(s[..|s| - 1], live) + if s[|s| - 1] in live then [s[|s| - 1]] else []
  }

  lemma {:induction false} KeepAppend(a: seq<VNode>, b: seq<VNode>, live: set<bytes>)
    ensures Keep(a + b, live) == Keep(a, live) + Keep(b, live)
  {
    if b == [] {
      assert a + b == a;
    } else {
      var c := b[..|b| - 1];
      KeepAppend(a, c, live);
      assert (a + b)[..|a + b| - 1] == a + c;
    }
  }

  lemma {:induction false} KeepMembers(s: seq<VNode>, live: set<bytes>, v: VNode)
    ensures v in Keep(s, live) <==> v in s && v.node in live
  {
    if s != [] {
      KeepMembers(s[..|s| - 1], live, v);
      assert s == s[..|s| - 1] + [s[|s| - 1]];
    }
  }

  lemma {:induction false} KeepAscending(s: seq<VNode>, live: set<bytes>)
    requires AscendingRing(s)
    ensures AscendingRing(Keep(s, live))
  {
    if s != [] {
      var t := s[..|s| - 1];
      KeepAscending(t, live);
      var k := Keep(t, live);
      forall i | 0 <= i < |k| ensures k[i].position < s[|s| - 1].position {
        KeepMembers(t, live, k[i]);
      }
    }
  }

  lemma {:induction false} KeptNodes(s: seq<VNode>, live: set<bytes>)
    ensures NodesOf(Keep(s, live)) == KeepNodes(NodesOf(s), live)
  {
    if s != [] {
      var t, x := s[..|s| - 1], s[|s| - 1];
      KeptNodes(t, live);
      KeepNodesSnoc(NodesOf(t), x.node, live);
      if x.node in live {
        assert (Keep(t, live) + [x])[..|Keep(t, live)|] == Keep(t, live);
      } else {
        assert Keep(t, live) + [] == Keep(t, live);
      }
    }
  }

  lemma {:induction false} KeepNodesMembers(s: seq<bytes>, live: set<bytes>, x: bytes)
    ensures x in KeepNodes(s, live) <==> x in s && x in live
  {
    if s != [] {
      KeepNodesMembers(s[..|s| - 1], live, x);
      assert s == s[..|s| - 1] + [s[|s| - 1]];
    }
  }

  lemma KeepNodesSnoc(s: seq<bytes>, x: bytes, live: set<bytes>)
    ensures KeepNodes(s + [x], live) == KeepNodes(s, live) + if x in live then [x] else []
  {
    assert (s + [x])[..|s|] == s;
  }

  lemma DistinctSnoc(s: seq<bytes>, x: bytes)
    ensures Distinct(s + [x]) == if x in Distinct(s) then Distinct(s) else Distinct(s) + [x]
  {
    assert (s + [x])[..|s|] == s;
  }

  lemma {:induction false} KeepDistinct(s: seq<bytes>, live: set<bytes>)
    ensures Distinct(KeepNodes(s, live)) == KeepNodes(Distinct(s), live)
  {
    if s != [] {
      var t, x := s[..|s| - 1], s[|s| - 1];
      KeepDistinct(t, live);
      KeepNodesSnoc(Distinct(t), x, live);
      KeepNodesMembers(Distinct(t), live, x);
      if x in live {
        DistinctSnoc(KeepNodes(t, live), x);
      } else {
        assert KeepNodes(t, live) + [] == KeepNodes(t, live);
        assert KeepNodes(Distinct(t), live) + [] == KeepNodes(Distinct(t), live);
      }
    }
  }

  lemma {:induction false} KeepFirst(s: seq<bytes>, live: set<bytes>, count: nat)
    ensures KeepNodes(FirstOf(s, count), live) <= FirstOf(KeepNodes(s, live), count)
  {
    KeepShrinks(FirstOf(s, count), live);
    if |s| > count {
      KeepPrefix(s, live, count);
    } else {
      KeepShrinks(s, live);
    }
  }

  lemma {:induction false} KeepShrinks(s: seq<bytes>, live: set<bytes>)
    ensures |KeepNodes(s, live)| <= |s|
  {
    if s != [] { KeepShrinks(s[..|s| - 1], live); }
  }

  lemma {:induction false} KeepPrefix(s: seq<bytes>, live: set<bytes>, i: nat)
    requires i <= |s|
    ensures KeepNodes(s[..i], live) <= KeepNodes(s, live)
    decreases |s|
  {
    if i < |s| {
      var t := s[..|s| - 1];
      KeepPrefix(t, live, i);
      assert t[..i] == s[..i];
    } else {
      assert s[..i] == s;
    }
  }

  lemma {:induction false} LowerBoundAt(ring: seq<VNode>, p: int, i: nat)
    requires i <= |ring| && (forall j :: 0 <= j < i ==> ring[j].position < p)
    requires forall j :: i <= j < |ring| ==> p <= ring[j].position
    ensures LowerBound(ring, p) == i
  {
    if i > 0 { LowerBoundAt(ring[1..], p, i - 1); }
  }

  /** Walking the restricted ring meets the kept entries in the same order. */
  lemma KeepClockwise(ring: seq<VNode>, live: set<bytes>, p: int)
    requires AscendingRing(ring)
    ensures Clockwise(Keep(ring, live), p) == Keep(Clockwise(ring, p), live)
  {
    var i := LowerBound(ring, p);
    var a, b := ring[..i], ring[i..];
    assert ring == a + b;
    KeepAppend(a, b, live);
    KeepAppend(b, a, live);
    var ka, kb := Keep(a, live), Keep(b, live);
    forall j | 0 <= j < |ka| ensures ka[j].position < p { KeepMembers(a, live, ka[j]); }
    forall j | 0 <= j < |kb| ensures p <= kb[j].position { KeepMembers(b, live, kb[j]); }
    LowerBoundAt(ka + kb, p, |ka|);
  }

  /** The live members of the full ring's list open the live ring's list. */
  lemma LivePrefix(ring: seq<VNode>, live: set<bytes>, p: int, count: nat)
    requires AscendingRing(ring)
    ensures KeepNodes(ReplicaList(ring, p, count), live) <= ReplicaList(Keep(ring, live), p, count)
  {
    var walk := Clockwise(ring, p);
    KeepClockwise(ring, live, p);
    KeptNodes(walk, live);
    KeepDistinct(NodesOf(walk), live);
    KeepFirst(Distinct(NodesOf(walk)), live, count);
  }

  /** No live node loses a position to an absent one. */
  ghost predicate NoneLost(hash: Hash, ring: seq<VNode>, live: map<bytes, nat>) {
    forall v, n :: v in ring && Claims(hash, live, n, v.position) ==> v.node in live
  }

  /** The live ring is the full ring restricted to the live nodes exactly when
      no live node loses a position to an absent one. */
  lemma RestrictionExactly(hash: Hash, nodes: map<bytes, nat>, ring: seq<VNode>, live: map<bytes, nat>,
                           liveRing: seq<VNode>)
    requires RingOf(hash, nodes, ring) && RingOf(hash, live, liveRing)
    requires forall n :: n in live ==> n in nodes && nodes[n] == live[n]
    ensures liveRing == Keep(ring, live.Keys) <==> NoneLost(hash, ring, live)
  {
    KeepAscending(ring, live.Keys);
    forall n, p ensures Claims(hash, live, n, p) <==> n in live && Claims(hash, nodes, n, p) {}
    var kept := Keep(ring, live.Keys);
    if liveRing == kept {
      forall v, n | v in ring && Claims(hash, live, n, v.position) ensures v.node in live {
        KeptLoses(hash, ring, live, kept, v, n);
      }
    }
    if NoneLost(hash, ring, live) {
      forall p ensures Owner(hash, live, p, At(kept, p)) {
        KeptOwner(hash, nodes, ring, live, p);
      }
      RingUnique(hash, live, kept, liveRing);
    }
  }

  lemma KeptLoses(hash: Hash, ring: seq<VNode>, live: map<bytes, nat>, kept: seq<VNode>, v: VNode, n: bytes)
    requires AscendingRing(ring) && kept == Keep(ring, live.Keys) && RingOf(hash, live, kept)
    requires v in ring && Claims(hash, live, n, v.position)
    ensures v.node in live
  {
    var p := v.position;
    assert Owner(hash, live, p, At(kept, p));
    var w := VNode(p, At(kept, p).value);
    AtMember(kept, w);
    KeepMembers(ring, live.Keys, w);
    AtMember(ring, w);
    AtMember(ring, v);
  }

  lemma KeptOwner(hash: Hash, nodes: map<bytes, nat>, ring: seq<VNode>, live: map<bytes, nat>, p: int)
    requires RingOf(hash, nodes, ring) && NoneLost(hash, ring, live)
    requires forall n, p :: Claims(hash, live, n, p) <==> n in live && Claims(hash, nodes, n, p)
    ensures Owner(hash, live, p, At(Keep(ring, live.Keys), p))
  {
    var kept := Keep(ring, live.Keys);
    KeepAscending(ring, live.Keys);
    var held, left := At(ring, p), At(kept, p);
    assert Owner(hash, nodes, p, held);
    if held.Some? {
      var v := VNode(p, held.value);
      AtMember(ring, v);
      AtMember(kept, v);
      KeepMembers(ring, live.Keys, v);
    }
    if left.Some? {
      var w := VNode(p, left.value);
      AtMember(kept, w);
      KeepMembers(ring, live.Keys, w);
      AtMember(ring, w);
    }
  }
}
