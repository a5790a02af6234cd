/** What two rounds of gossip achieve: both nodes hold the merge of what they had. */
module Rounds {
  import opened Wrappers
  import opened ByteStrings
  import opened Stamps
  import opened Documents
  import opened Codec
  import opened Engine
  import opened Mesh
  import opened Deltas
  import opened Gossip
  import Lattice
  import Provenance
  import Depth

  // ------------------------------------------------------------------
  // Two completed rounds
  // ------------------------------------------------------------------

  /** The content hash tells the two copies of each key apart. */
  ghost predicate NoCollision(hash: bytes -> bytes, a: map<bytes, bytes>, b: map<bytes, bytes>) {
    forall k :: k in a && k in b && hash(a[k]) == hash(b[k]) ==> a[k] == b[k]
  }

  ghost function Both(a: map<bytes, bytes>, b: map<bytes, bytes>, k: bytes): Lattice.Doc
    requires k in a || k in b
    requires k in a ==> Decode(a[k]).Some?
    requires k in b ==> Decode(b[k]).Some?
  {
    if k !in a then Meaning(b[k]) else if k !in b then Meaning(a[k]) else Lattice.Join(Meaning(a[k]), Meaning(b[k]))
  }

  lemma AbsorbedMeaning(before: map<bytes, bytes>, keys: set<bytes>, other: map<bytes, bytes>,
                        after: map<bytes, bytes>, k: bytes)
    requires Absorbs(before, keys, other, after) && k in keys
    requires Honest(other[k]) && (k in before ==> Honest(before[k]))
    ensures Honest(after[k])
    ensures Meaning(after[k]) ==
      if k in before then Lattice.Join(Meaning(before[k]), Meaning(other[k])) else Meaning(other[k])
  {
    if k in before {
      var x, y := Decode(before[k]).value, Decode(other[k]).value;
      MergeMeansJoin(x, y);
      Provenance.JoinSound(View(x), View(y));
      Depth.MergeShallow(x, y, MAX_DECODE_DEPTH);
      StoredHonest(Merge(x, y));
    } else {
      StoredHonest(Decode(other[k]).value);
    }
  }

  lemma HonestDigest(hash: bytes -> bytes, store: map<bytes, bytes>, k: bytes)
    requires k in store && Honest(store[k])
    ensures k in DigestTable(hash, store)
    ensures DigestTable(hash, store)[k] == Digest(Meaning(store[k]).ts, hash(store[k]))
  {
    MaxStampIsRoot(Decode(store[k]).value);
  }

  /** Two copies that one more round makes equal to `j`. */
  ghost predicate Settling(x: Lattice.Doc, y: Lattice.Doc, j: Lattice.Doc) {
    x.ts == y.ts && Lattice.Join(x, y) == j && Lattice.Join(y, x) == j
  }

  lemma SettlingNow(j: Lattice.Doc)
    ensures Settling(j, j, j)
  {
    Lattice.JoinIdempotent(j);
  }

  /** One side has the join and the other the newer of the two inputs. */
  lemma SettlingHalf(a: Lattice.Doc, b: Lattice.Doc)
    requires Lattice.Compat(a, b) && NotAfter(b.ts, a.ts)
    ensures Settling(a, Lattice.Join(a, b), Lattice.Join(a, b))
    ensures Settling(Lattice.Join(a, b), a, Lattice.Join(a, b))
  {
    Lattice.JoinCommutes(a, b);
    Lattice.JoinStamp(a, b);
    Lattice.JoinAbsorbsLeft(a, b);
    Lattice.JoinAbsorbsRight(b, a);
  }

  /** The first round, started by the holder of `a`: either both sides now have
      the join, or only the side with the older stamp does. */
  lemma FirstRound(hash: bytes -> bytes, a: map<bytes, bytes>, b: map<bytes, bytes>,
                   a': map<bytes, bytes>, b': map<bytes, bytes>, k: bytes)
    requires Completed(hash, a, b, a', b') && Peers(a, b) && NoCollision(hash, a, b)
    requires k in a || k in b
    ensures k in a' && k in b' && Honest(a'[k]) && Honest(b'[k])
    ensures Settling(Meaning(a'[k]), Meaning(b'[k]), Both(a, b, k))
  {
    var da, db := DigestTable(hash, a), DigestTable(hash, b);
    var push, want := Offers(db, da), Offers(da, db);
    if k in a { HonestDigest(hash, a, k); }
    if k in b { HonestDigest(hash, b, k); }
    if k in push { AbsorbedMeaning(a, push, b, a', k); }
    if k in want { AbsorbedMeaning(b, want, a', b', k); }
    if k in a && k in b {
      FirstRoundShared(Meaning(a[k]), Meaning(b[k]));
      BeforeTotal(Meaning(a[k]).ts, Meaning(b[k]).ts);
    } else {
      SettlingNow(Both(a, b, k));
    }
  }

  /** The three ways two shared copies can leave the first round. */
  lemma FirstRoundShared(x: Lattice.Doc, y: Lattice.Doc)
    requires Lattice.Compat(x, y)
    ensures var j := Lattice.Join(x, y);
      && (Before(y.ts, x.ts) ==> !Before(x.ts, y.ts) && Settling(x, Lattice.Join(y, x), j))
      && (Before(x.ts, y.ts) ==> !Before(y.ts, x.ts) && Settling(j, y, j))
      && (x == y ==> Settling(x, y, j))
      && Settling(j, Lattice.Join(y, j), j)
  {
    var j := Lattice.Join(x, y);
    Lattice.JoinCommutes(x, y);
    Lattice.CompatSymmetric(x, y);
    if Before(y.ts, x.ts) { BeforeNotAfter(y.ts, x.ts); SettlingHalf(x, y); }
    if Before(x.ts, y.ts) { BeforeNotAfter(x.ts, y.ts); SettlingHalf(y, x); }
    Lattice.JoinAbsorbsLeft(y, x);
    SettlingNow(j);
    if x == y { Lattice.JoinIdempotent(x); }
  }

  /** The second round, started by the holder of `a`. */
  lemma SecondRound(hash: bytes -> bytes, a: map<bytes, bytes>, b: map<bytes, bytes>,
                    a': map<bytes, bytes>, b': map<bytes, bytes>, k: bytes, j: Lattice.Doc)
    requires Completed(hash, a, b, a', b') && NoCollision(hash, a, b)
    requires k in a && k in b && Honest(a[k]) && Honest(b[k])
    requires Settling(Meaning(a[k]), Meaning(b[k]), j)
    ensures k in a' && k in b' && Honest(a'[k]) && Honest(b'[k])
    ensures Meaning(a'[k]) == j && Meaning(b'[k]) == j
  {
    var da, db := DigestTable(hash, a), DigestTable(hash, b);
    var push, want := Offers(db, da), Offers(da, db);
    HonestDigest(hash, a, k);
    HonestDigest(hash, b, k);
    BeforeIrreflexive(Meaning(a[k]).ts);
    if hash(a[k]) == hash(b[k]) {
      Lattice.JoinIdempotent(Meaning(a[k]));
    } else {
      assert k in push && k in want;
      AbsorbedMeaning(a, push, b, a', k);
      AbsorbedMeaning(b, want, a', b', k);
      Lattice.JoinAbsorbsLeft(Meaning(b[k]), Meaning(a[k]));
    }
  }

  ghost predicate Round(hash: bytes -> bytes, byA: bool, a: map<bytes, bytes>, b: map<bytes, bytes>,
                        a': map<bytes, bytes>, b': map<bytes, bytes>) {
    NoCollision(hash, a, b) && if byA then Completed(hash, a, b, a', b') else Completed(hash, b, a, b', a')
  }

  lemma PeersSymmetric(a: map<bytes, bytes>, b: map<bytes, bytes>)
    requires Peers(a, b)
    ensures Peers(b, a)
    ensures forall k :: k in a || k in b ==> Both(a, b, k) == Both(b, a, k)
  {
    forall k | k in a && k in b
      ensures Lattice.Compat(Meaning(b[k]), Meaning(a[k])) && Both(a, b, k) == Both(b, a, k)
    {
      Lattice.CompatSymmetric(Meaning(a[k]), Meaning(b[k]));
      Lattice.JoinCommutes(Meaning(a[k]), Meaning(b[k]));
    }
  }

  ghost predicate Settled(a: map<bytes, bytes>, b: map<bytes, bytes>, a2: map<bytes, bytes>, b2: map<bytes, bytes>,
                          k: bytes) {
    && k in a2 && k in b2 && a2[k] == b2[k] && Honest(a2[k])
    && (k in a || k in b) && (k in a ==> Decode(a[k]).Some?) && (k in b ==> Decode(b[k]).Some?)
    && Meaning(a2[k]) == Both(a, b, k)
  }

  lemma TwoRoundsAt(hash: bytes -> bytes, first: bool, second: bool, a: map<bytes, bytes>, b: map<bytes, bytes>,
                    a1: map<bytes, bytes>, b1: map<bytes, bytes>, a2: map<bytes, bytes>, b2: map<bytes, bytes>,
                    k: bytes)
    requires Peers(a, b) && Round(hash, first, a, b, a1, b1) && Round(hash, second, a1, b1, a2, b2)
    requires k in a || k in b
    ensures Settled(a, b, a2, b2, k)
  {
    PeersSymmetric(a, b);
    if first { FirstRound(hash, a, b, a1, b1, k); } else { FirstRound(hash, b, a, b1, a1, k); }
    if second { SecondRound(hash, a1, b1, a2, b2, k, Both(a, b, k)); }
    else { SecondRound(hash, b1, a1, b2, a2, k, Both(a, b, k)); }
    HonestBytes(a2[k], b2[k]);
  }

  /** Two completed rounds, each started by either node, leave both nodes with
      the same bytes for every key: the merge of what they had. */
  lemma TwoRoundsConverge(hash: bytes -> bytes, first: bool, second: bool, a: map<bytes, bytes>, b: map<bytes, bytes>,
                          a1: map<bytes, bytes>, b1: map<bytes, bytes>, a2: map<bytes, bytes>, b2: map<bytes, bytes>)
    requires Peers(a, b) && Round(hash, first, a, b, a1, b1) && Round(hash, second, a1, b1, a2, b2)
    ensures a2 == b2 && a2.Keys == a.Keys + b.Keys
    ensures forall k :: k in a2 ==> Settled(a, b, a2, b2, k)
  {
    RoundKeys(hash, first, a, b, a1, b1);
    RoundKeys(hash, second, a1, b1, a2, b2);
    forall k | k in a.Keys + b.Keys
      ensures k in a2 && k in b2 && a2[k] == b2[k] && Settled(a, b, a2, b2, k)
    {
      TwoRoundsAt(hash, first, second, a, b, a1, b1, a2, b2, k);
    }
    SameRows(a.Keys + b.Keys, a2, b2);
  }

  lemma SameRows(keys: set<bytes>, a2: map<bytes, bytes>, b2: map<bytes, bytes>)
    requires a2.Keys <= keys && b2.Keys <= keys
    requires forall k :: k in keys ==> k in a2 && k in b2 && a2[k] == b2[k]
    ensures a2 == b2 && a2.Keys == keys
  {
  }

  lemma RoundKeys(hash: bytes -> bytes, byA: bool, a: map<bytes, bytes>, b: map<bytes, bytes>,
                  a': map<bytes, bytes>, b': map<bytes, bytes>)
    requires Round(hash, byA, a, b, a', b')
    ensures a'.Keys <= a.Keys + b.Keys && b'.Keys <= a.Keys + b.Keys
  {
  }

  // ------------------------------------------------------------------
  // Two rounds of the program
  // ------------------------------------------------------------------

  /** The content hash tells all copies of a key apart. */
  ghost predicate Tells(hash: bytes -> bytes, p: map<bytes, bytes>, q: map<bytes, bytes>) {
    forall k, x, y :: Copy(p, q, k, x) && Copy(p, q, k, y) && hash(x) == hash(y) ==> x == y
  }

  lemma NoneCollide(hash: bytes -> bytes, p: map<bytes, bytes>, q: map<bytes, bytes>, a: map<bytes, bytes>,
                    b: map<bytes, bytes>)
    requires Tells(hash, p, q) && Among(p, q, a) && Among(p, q, b)
    ensures NoCollision(hash, a, b) && NoCollision(hash, b, a)
  {
    forall k | k in a && k in b && hash(a[k]) == hash(b[k]) ensures a[k] == b[k] {
      assert Copy(p, q, k, a[k]) && Copy(p, q, k, b[k]);
    }
  }

  /** A row and a request for its key at their largest. */
  const MAX_ROW := (MAX_KEY_BYTES - 1 + MAX_DOC_BYTES + 8) + (MAX_KEY_BYTES - 1 + 4)

  lemma SumFits(n: nat, x: nat, y: nat, wx: nat, wy: nat, start: nat)
    requires x <= n && y <= n
    requires wx <= x * (MAX_KEY_BYTES - 1 + MAX_DOC_BYTES + 8) && wy <= y * (MAX_KEY_BYTES - 1 + 4)
    requires FewRows(n, start)
    ensures start + 32 + wx + wy <= MAX_DELTA_BYTES
  {
  }

  predicate FewRows(n: nat, collectionBytes: nat) {
    collectionBytes + 32 + n * MAX_ROW <= MAX_DELTA_BYTES
  }

  lemma AllFit(store: map<bytes, bytes>, push: set<bytes>, want: set<bytes>, start: nat)
    ensures start + Weight(push, RowCost(store)) + Weight(want, KeyCost(want)) <= MAX_DELTA_BYTES ==>
      DeltaFits(store, push, want, start)
  {
  }

  lemma RowsWeigh(store: map<bytes, bytes>, push: set<bytes>)
    requires forall k :: k in push ==> k in store && |k| < MAX_KEY_BYTES && |store[k]| <= MAX_DOC_BYTES
    ensures Weight(push, RowCost(store)) <= |push| * (MAX_KEY_BYTES - 1 + MAX_DOC_BYTES + 8)
  {
    WeightBound(push, RowCost(store), MAX_KEY_BYTES - 1 + MAX_DOC_BYTES + 8);
  }

  lemma KeysWeigh(want: set<bytes>)
    requires forall k :: k in want ==> |k| < MAX_KEY_BYTES
    ensures Weight(want, KeyCost(want)) <= |want| * (MAX_KEY_BYTES - 1 + 4)
  {
    WeightBound(want, KeyCost(want), MAX_KEY_BYTES - 1 + 4);
  }

  lemma SetsFit(store: map<bytes, bytes>, push: set<bytes>, want: set<bytes>, keys: set<bytes>, collectionBytes: nat)
    requires forall k :: k in push ==> k in store && |k| < MAX_KEY_BYTES && |store[k]| <= MAX_DOC_BYTES
    requires forall k :: k in want ==> |k| < MAX_KEY_BYTES
    requires push <= keys && want <= keys && FewRows(|keys|, collectionBytes)
    ensures DeltaFits(store, push, want, collectionBytes + 32)
  {
    SizeGrows(push, keys);
    SizeGrows(want, keys);
    RowsWeigh(store, push);
    KeysWeigh(want);
    SumFits(|keys|, |push|, |want|, Weight(push, RowCost(store)), Weight(want, KeyCost(want)), collectionBytes);
    AllFit(store, push, want, collectionBytes + 32);
  }

  lemma FewFit(hash: bytes -> bytes, keys: set<bytes>, a: map<bytes, bytes>, b: map<bytes, bytes>, collectionBytes: nat)
    requires HonestRows(a) && HonestRows(b) && a.Keys <= keys && b.Keys <= keys && FewRows(|keys|, collectionBytes)
    ensures AnswerFits(hash, a, b, collectionBytes)
  {
    var da, db := DigestTable(hash, a), DigestTable(hash, b);
    SetsFit(b, Offers(db, da), Offers(da, db), keys, collectionBytes);
  }

  /** Wall-clock readings of two nodes in one round. */
  datatype Walls = Walls(a: nat -> u64, b: nat -> u64)

  /** What one round needs, from what is known before it: all rows fit one
      answer, no merge is too large, and no stamp is refused. */
  ghost predicate Ample(p: map<bytes, bytes>, q: map<bytes, bytes>, w: Walls, collectionBytes: nat, top: nat) {
    FewRows(|p.Keys + q.Keys|, collectionBytes) && Unhindered(p, q, w.a, top) && Unhindered(p, q, w.b, top)
  }

  /** A round started by either node. */
  method Meet(byA: bool, a: NodeEngine, b: NodeEngine, w: Walls, collectionBytes: nat,
              ghost p: map<bytes, bytes>, ghost q: map<bytes, bytes>, ghost top: nat, ghost ample: bool)
    returns (done: bool)
    requires a != b && a.clock != b.clock && a.hash == b.hash
    requires Peers(p, q) && Tells(a.hash, p, q) && Holds(p, q, a.hash, a.Abs()) && Holds(p, q, b.hash, b.Abs())
    requires ample ==> Ample(p, q, w, collectionBytes, top) && ClocksBelow(a, b, top)
    modifies a, a.clock, b, b.clock
    ensures Holds(p, q, a.hash, a.Abs()) && Holds(p, q, b.hash, b.Abs())
    ensures done ==> Round(a.hash, byA, old(a.store), old(b.store), a.store, b.store)
    ensures ample ==> done && ClocksBelow(a, b, top + |p.Keys + q.Keys|)
    ensures old(a.store) == old(b.store) ==>
      done && a.Abs() == Refresh(a.hash, old(a.Abs())) && b.Abs() == Refresh(b.hash, old(b.Abs()))
  {
    NoneCollide(a.hash, p, q, a.store, b.store);
    if ample {
      FewFit(a.hash, p.Keys + q.Keys, a.store, b.store, collectionBytes);
      FewFit(a.hash, p.Keys + q.Keys, b.store, a.store, collectionBytes);
    }
    if byA {
      done := Exchange(a, b, w.a, w.b, collectionBytes, p, q, top);
    } else {
      done := Exchange(b, a, w.b, w.a, collectionBytes, p, q, top);
    }
  }

  /** Two rounds, each started by either node, make the stores equal: every key
      has the merge of the two copies.  Ample rounds are always done. */
  method TwoRounds(first: bool, second: bool, a: NodeEngine, b: NodeEngine, w: Walls, w': Walls, collectionBytes: nat,
                   ghost top: nat, ghost next: nat, ghost ample: bool)
    returns (done: bool)
    requires a != b && a.clock != b.clock && a.hash == b.hash
    requires Kept(a.hash, a.Abs()) && Kept(b.hash, b.Abs())
    requires Peers(a.store, b.store) && Tells(a.hash, a.store, b.store)
    requires next == top + |a.store.Keys + b.store.Keys|
    requires ample ==> Ample(a.store, b.store, w, collectionBytes, top) && ClocksBelow(a, b, top)
    requires ample ==> Ample(a.store, b.store, w', collectionBytes, next)
    modifies a, a.clock, b, b.clock
    ensures Kept(a.hash, a.Abs()) && Kept(b.hash, b.Abs())
    ensures done ==> a.store == b.store && a.store.Keys == old(a.store).Keys + old(b.store).Keys
    ensures done ==> forall k :: k in a.store ==> Settled(old(a.store), old(b.store), a.store, b.store, k)
    ensures ample ==> done
  {
    ghost var p, q := a.store, b.store;
    var one := Meet(first, a, b, w, collectionBytes, p, q, top, ample);
    ghost var a1, b1 := a.store, b.store;
    var two := Meet(second, a, b, w', collectionBytes, p, q, next, ample);
    done := one && two;
    if done { TwoRoundsConverge(a.hash, first, second, p, q, a1, b1, a.store, b.store); }
  }

  /** Once the stores are equal a further round, started by either node at whatever
      wall times, moves nothing: rows, clocks and tag counters stay as they are. */
  method ThirdRound(first: bool, second: bool, third: bool, a: NodeEngine, b: NodeEngine, w: Walls, w': Walls,
                    w'': Walls, collectionBytes: nat)
    returns (done: bool, ghost sa: State, ghost sb: State)
    requires a != b && a.clock != b.clock && a.hash == b.hash
    requires Kept(a.hash, a.Abs()) && Kept(b.hash, b.Abs())
    requires Peers(a.store, b.store) && Tells(a.hash, a.store, b.store)
    modifies a, a.clock, b, b.clock
    ensures done ==> sa.store == sb.store && sa.store.Keys == old(a.store).Keys + old(b.store).Keys
    ensures done ==> forall k :: k in sa.store ==> Settled(old(a.store), old(b.store), sa.store, sb.store, k)
    ensures done ==> a.Abs() == Refresh(a.hash, sa) && b.Abs() == Refresh(b.hash, sb)
    ensures done ==> a.store == sa.store && b.store == sb.store
    ensures done ==> a.Abs().clock == sa.clock && b.Abs().clock == sb.clock
  {
    ghost var p, q := a.store, b.store;
    SameOrigin(p, q, a.hash, a.Abs());
    SameOrigin(p, q, b.hash, b.Abs());
    var one := Meet(first, a, b, w, collectionBytes, p, q, 0, false);
    ghost var a1, b1 := a.store, b.store;
    var two := Meet(second, a, b, w', collectionBytes, p, q, 0, false);
    sa, sb := a.Abs(), b.Abs();
    if one && two { TwoRoundsConverge(a.hash, first, second, p, q, a1, b1, a.store, b.store); }
    var three := Meet(third, a, b, w'', collectionBytes, p, q, 0, false);
    done := one && two;
  }

  lemma SameOrigin(p: map<bytes, bytes>, q: map<bytes, bytes>, hash: bytes -> bytes, s: State)
    requires Kept(hash, s) && (s.store == p || s.store == q)
    ensures Holds(p, q, hash, s)
  {
  }

  /** Exactly what a round moves: `b` offers a row that `a` lacks, that is newer, or
      that is as new and has other bytes.  An equal or an older copy is not offered. */
  lemma MovesExactly(hash: bytes -> bytes, a: map<bytes, bytes>, b: map<bytes, bytes>, k: bytes)
    requires k in a ==> Honest(a[k])
    requires k in b ==> Honest(b[k])
    requires k in a && k in b && hash(a[k]) == hash(b[k]) ==> a[k] == b[k]
    ensures k in Offers(DigestTable(hash, b), DigestTable(hash, a)) <==>
      k in b && (k !in a || Before(Meaning(a[k]).ts, Meaning(b[k]).ts)
                 || (Meaning(a[k]).ts == Meaning(b[k]).ts && a[k] != b[k]))
  {
    if k in a { HonestDigest(hash, a, k); }
    if k in b { HonestDigest(hash, b, k); }
    if k in a && k in b {
      BeforeTotal(Meaning(a[k]).ts, Meaning(b[k]).ts);
      BeforeIrreflexive(Meaning(a[k]).ts);
      if Before(Meaning(a[k]).ts, Meaning(b[k]).ts) { BeforeNotAfter(Meaning(a[k]).ts, Meaning(b[k]).ts); }
    }
  }

  // ------------------------------------------------------------------
  // Reachable nodes
  // ------------------------------------------------------------------

  /** Any two nodes of any run meet what the rounds ask of them. */
  lemma ReachablePeers(hash: bytes -> bytes, w: World, steps: seq<Step>, end: World, m: bytes, n: bytes)
    requires Initial(w) && Run(hash, w, steps, end) && m in end.nodes && n in end.nodes
    ensures Peers(end.nodes[m].store, end.nodes[n].store)
    ensures Kept(hash, end.nodes[m]) && Kept(hash, end.nodes[n])
  {
    ReachableInv(hash, w, steps, end);
    NodeKept(hash, end, m);
    NodeKept(hash, end, n);
    var a, b := end.nodes[m].store, end.nodes[n].store;
    forall k | k in a && k in b ensures Lattice.Compat(Meaning(a[k]), Meaning(b[k])) {
      assert NodeOk(hash, end, m) && NodeOk(hash, end, n);
      CopiesCompatible(hash, w, steps, end, k, a[k], b[k]);
    }
  }

  lemma NodeKept(hash: bytes -> bytes, w: World, n: bytes)
    requires Inv(hash, w) && n in w.nodes
    ensures Kept(hash, w.nodes[n])
  {
    assert NodeOk(hash, w, n);
    var s := w.nodes[n].store;
    forall k | k in s ensures 0 < |k| < MAX_KEY_BYTES && Honest(s[k]) { assert GoodCopy(w, k, s[k]); }
  }
}
