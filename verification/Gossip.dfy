/** Anti-entropy between two nodes: the digest exchange, the delta it asks for,
    and what every round keeps, completed or not.
 */
module Gossip {
  import opened Wrappers
  import opened Sequences
  import opened ByteStrings
  import opened Stamps
  import opened Documents
  import opened Codec
  import opened Clocks
  import opened Engine
  import opened Mesh
  import opened Deltas
  import Lattice
  import Provenance
  import Depth

  // ------------------------------------------------------------------
  // The responder
  // ------------------------------------------------------------------

  function DigestTable(hash: bytes -> bytes, store: map<bytes, bytes>): map<bytes, Digest> {
    map k | k in store && DigestOf(hash, store[k]).Some? :: DigestOf(hash, store[k]).value
  }

  method HandleDigest(e: NodeEngine, theirs: map<bytes, Digest>, collectionBytes: nat)
    returns (pushed: seq<DocEntry>, wanted: seq<bytes>, complete: bool)
    requires CacheOk(e.hash, e.Abs())
    modifies e`digests
    ensures CacheOk(e.hash, e.Abs()) && e.Abs() == Refresh(e.hash, old(e.Abs()))
    ensures NoRepeats(pushed) && Rows(pushed, e.store)
    ensures Distinct(wanted)
    ensures var mine := DigestTable(e.hash, e.store);
      && Keys(pushed) <= Offers(mine, theirs)
      && (forall k :: k in wanted ==> k in Offers(theirs, mine))
      && (complete ==> Keys(pushed) == Offers(mine, theirs))
      && (complete ==> forall k :: k in Offers(theirs, mine) ==> k in wanted)
      && (complete <==> DeltaFits(e.store, Offers(mine, theirs), Offers(theirs, mine), collectionBytes + 32))
      && (!complete ==> pushed != [] || wanted != [])
    ensures forall k :: k in theirs && k in e.store && DigestOf(e.hash, e.store[k]) == Some(theirs[k]) ==>
      k !in Keys(pushed) && k !in wanted
    ensures forall k :: k in theirs && k in e.store && DigestOf(e.hash, e.store[k]).Some? ==>
      && (Before(DigestOf(e.hash, e.store[k]).value.top, theirs[k].top) ==> k !in Keys(pushed))
      && (Before(theirs[k].top, DigestOf(e.hash, e.store[k]).value.top) ==> k !in wanted)
  {
    StampOrder();
    var mine := CurrentDigest(e);
    var size, all, rest;
    pushed, size, all := SelectPushed(e.store, mine, theirs, collectionBytes + 32);
    wanted, rest := SelectWanted(mine, theirs, size, pushed != []);
    complete := all && rest;
    NoneOrSome(pushed);
  }

  /** With a coherent cache the local digest is the one recomputed from the
      stored bytes. */
  method CurrentDigest(e: NodeEngine) returns (mine: map<bytes, Digest>)
    requires CacheOk(e.hash, e.Abs())
    modifies e`digests
    ensures mine == DigestTable(e.hash, e.store)
    ensures CacheOk(e.hash, e.Abs()) && e.Abs() == Refresh(e.hash, old(e.Abs()))
  {
    mine := e.LocalDigest();
    assert mine.Keys == DigestTable(e.hash, e.store).Keys;
  }

  // ------------------------------------------------------------------
  // The initiator
  // ------------------------------------------------------------------

  function Merged(store: map<bytes, bytes>, k: bytes, doc: bytes): bytes
    requires Decode(doc).Some? && (k in store ==> Decode(store[k]).Some?)
  {
    Encode(if k in store then Merge(Decode(store[k]).value, Decode(doc).value) else Decode(doc).value)
  }

  /** Each document merged into the row of its key; nothing else touched. */
  ghost predicate MergedIn(before: map<bytes, bytes>, docs: seq<DocEntry>, after: map<bytes, bytes>) {
    && after.Keys == before.Keys + Keys(docs)
    && (forall k :: k in before && k !in Keys(docs) ==> after[k] == before[k])
    && (forall d :: d in docs ==> RowMerged(before, d, after))
  }

  /** What merging one document into its row requires and leaves. */
  ghost predicate RowMerged(before: map<bytes, bytes>, d: DocEntry, after: map<bytes, bytes>) {
    && Decode(d.doc).Some? && (d.key in before ==> Decode(before[d.key]).Some?)
    && d.key in after && after[d.key] == Merged(before, d.key, d.doc) && |after[d.key]| <= MAX_DOC_BYTES
  }

  lemma MergedInSnoc(before: map<bytes, bytes>, docs: seq<DocEntry>, d: DocEntry, mid: map<bytes, bytes>,
                     after: map<bytes, bytes>)
    requires MergedIn(before, docs, mid) && d.key !in Keys(docs)
    requires RowMerged(mid, d, after) && after == mid[d.key := Merged(mid, d.key, d.doc)]
    ensures MergedIn(before, docs + [d], after)
  {
    KeysSnoc(docs, d);
    assert d.key in mid <==> d.key in before;
    assert RowMerged(before, d, after);
    forall x | x in docs + [d] ensures RowMerged(before, x, after) {
      if x in docs {
        var i :| 0 <= i < |docs| && docs[i] == x;
        assert x.key in Keys(docs);
        assert RowMerged(before, x, mid);
      }
    }
  }

  /** Every document merged in turn; a rejected one is reported and passed over. */
  function ReceiveAll(hash: bytes -> bytes, s: State, docs: seq<DocEntry>, walls: nat -> u64): (State, bool)
    decreases |docs|
  {
    if docs == [] then (s, true) else
    var n := |docs| - 1;
    var (t, ok) := ReceiveAll(hash, s, docs[..n], walls);
    var (u, status) := Receive(hash, t, docs[n].key, docs[n].doc, walls(n), true);
    (u, ok && status.Ok?)
  }

  method MergeAll(e: NodeEngine, docs: seq<DocEntry>, walls: nat -> u64) returns (ok: bool)
    modifies e, e.clock
    ensures (e.Abs(), ok) == ReceiveAll(e.hash, old(e.Abs()), docs, walls)
  {
    ok := true;
    ghost var done: seq<DocEntry> := [];
    for i := 0 to |docs|
      invariant done == docs[..i]
      invariant (e.Abs(), ok) == ReceiveAll(e.hash, old(e.Abs()), done, walls)
    {
      var status := e.MergeRemote(docs[i].key, docs[i].doc, walls(i), true);
      ok := ok && status.Ok?;
      PrefixNext(docs, i);
      assert (done + [docs[i]])[..i] == done;
      done := done + [docs[i]];
    }
    assert done == docs;
  }

  lemma NextMerged(hash: bytes -> bytes, before: map<bytes, bytes>, docs: seq<DocEntry>, d: DocEntry, mid: State,
                   wall: u64)
    requires MergedIn(before, docs, mid.store) && d.key !in Keys(docs)
    requires Receive(hash, mid, d.key, d.doc, wall, true).1.Ok?
    ensures MergedIn(before, docs + [d], Receive(hash, mid, d.key, d.doc, wall, true).0.store)
  {
    MergedInSnoc(before, docs, d, mid.store, Receive(hash, mid, d.key, d.doc, wall, true).0.store);
  }

  /** If none was rejected, each row has its document merged in. */
  lemma {:induction false} AllMerged(hash: bytes -> bytes, s: State, docs: seq<DocEntry>, walls: nat -> u64)
    requires NoRepeats(docs) && ReceiveAll(hash, s, docs, walls).1
    ensures MergedIn(s.store, docs, ReceiveAll(hash, s, docs, walls).0.store)
    decreases |docs|
  {
    if docs != [] {
      var n := |docs| - 1;
      var done, d := docs[..n], docs[n];
      AllMerged(hash, s, done, walls);
      NotBefore(docs, n);
      NextMerged(hash, s.store, done, d, ReceiveAll(hash, s, done, walls).0, walls(n));
      InitLast(docs, n);
    }
  }

  // ------------------------------------------------------------------
  // One round
  // ------------------------------------------------------------------

  /** A completed round started by `a`: what `b` offers is merged into `a`, and
      then what `a` offered is merged, as `a` now has it, into `b`. */
  ghost predicate Completed(hash: bytes -> bytes, a: map<bytes, bytes>, b: map<bytes, bytes>,
                            a': map<bytes, bytes>, b': map<bytes, bytes>) {
    var da, db := DigestTable(hash, a), DigestTable(hash, b);
    Absorbs(a, Offers(db, da), b, a') && Absorbs(b, Offers(da, db), a', b')
  }

  /** The rows of `other` for `keys`, merged into `before`. */
  ghost predicate Absorbs(before: map<bytes, bytes>, keys: set<bytes>, other: map<bytes, bytes>,
                          after: map<bytes, bytes>) {
    && keys <= other.Keys
    && after.Keys == before.Keys + keys
    && (forall k :: k in before && k !in keys ==> after[k] == before[k])
    && (forall k :: k in keys ==>
          && Decode(other[k]).Some? && (k in before ==> Decode(before[k]).Some?)
          && after[k] == Merged(before, k, other[k]) && |after[k]| <= MAX_DOC_BYTES)
  }

  lemma RowsAbsorbed(before: map<bytes, bytes>, docs: seq<DocEntry>, other: map<bytes, bytes>, after: map<bytes, bytes>)
    requires MergedIn(before, docs, after) && Rows(docs, other)
    ensures Absorbs(before, Keys(docs), other, after)
  {
    forall k | k in Keys(docs)
      ensures k in other && Decode(other[k]).Some? && (k in before ==> Decode(before[k]).Some?)
      ensures after[k] == Merged(before, k, other[k]) && |after[k]| <= MAX_DOC_BYTES
    {
      var i :| 0 <= i < |docs| && docs[i].key == k;
      assert docs[i] in docs;
    }
  }

  /** What an engine of the mesh holds: accepted keys, honest documents, and a
      digest cache that recomputation would give. */
  ghost predicate Kept(hash: bytes -> bytes, s: State) {
    CacheOk(hash, s) && HonestRows(s.store)
  }

  ghost predicate HonestRows(store: map<bytes, bytes>) {
    forall k :: k in store ==> 0 < |k| < MAX_KEY_BYTES && Honest(store[k])
  }

  /** What the mesh invariant gives of two nodes' stores. */
  ghost predicate Peers(a: map<bytes, bytes>, b: map<bytes, bytes>) {
    && (forall k :: k in a ==> Honest(a[k]))
    && (forall k :: k in b ==> Honest(b[k]))
    && (forall k :: k in a && k in b ==> Lattice.Compat(Meaning(a[k]), Meaning(b[k])))
  }

  /** One round between two nodes that started from the copies `p` and `q`.  The
      round is done whenever the delta fits the cap and nothing stops a merge. */
  method Exchange(a: NodeEngine, b: NodeEngine, wallsA: nat -> u64, wallsB: nat -> u64, collectionBytes: nat,
                  ghost p: map<bytes, bytes>, ghost q: map<bytes, bytes>, ghost top: nat)
    returns (done: bool)
    requires a != b && a.clock != b.clock && a.hash == b.hash
    requires Peers(p, q) && Holds(p, q, a.hash, a.Abs()) && Holds(p, q, b.hash, b.Abs())
    modifies a, a.clock, b, b.clock
    ensures Holds(p, q, a.hash, a.Abs()) && Holds(p, q, b.hash, b.Abs())
    ensures done ==> Completed(a.hash, old(a.store), old(b.store), a.store, b.store)
    ensures old(AnswerFits(a.hash, a.store, b.store, collectionBytes) && ClocksBelow(a, b, top)) &&
            Unhindered(p, q, wallsA, top) && Unhindered(p, q, wallsB, top) ==>
      done && ClocksBelow(a, b, top + |p.Keys + q.Keys|)
    ensures old(a.store) == old(b.store) ==>
      done && a.Abs() == Refresh(a.hash, old(a.Abs())) && b.Abs() == Refresh(b.hash, old(b.Abs()))
  {
    RefreshHolds(p, q, a.hash, a.Abs());
    RefreshHolds(p, q, b.hash, b.Abs());
    var mine := CurrentDigest(a);
    var pushed, wanted, complete := HandleDigest(b, mine, collectionBytes);
    ghost var a0, b0 := a.Abs(), b.Abs();
    var docs, ok := Apply(a, b, pushed, wanted, wallsA, wallsB);
    done := complete && ok;
    QuietRound(a.hash, a0, b0, pushed, wanted, docs, wallsA, wallsB, complete, collectionBytes);
    RoundSummary(p, q, a.hash, a0, b0, pushed, wanted, docs, wallsA, wallsB, complete, top);
  }

  /** Equal stores have nothing to offer each other. */
  lemma NothingOffered(hash: bytes -> bytes, store: map<bytes, bytes>)
    ensures Offers(DigestTable(hash, store), DigestTable(hash, store)) == {}
  {
    StampOrder();
  }

  lemma NoneOrIn(keys: seq<bytes>)
    ensures keys == [] || exists k :: k in keys
  {
    if keys != [] {
      assert keys[0] in keys;
    }
  }

  /** A round between equal stores moves nothing. */
  lemma QuietRound(hash: bytes -> bytes, a: State, b: State, pushed: seq<DocEntry>, wanted: seq<bytes>,
                   docs: seq<DocEntry>, wallsA: nat -> u64, wallsB: nat -> u64, complete: bool, collectionBytes: nat)
    requires var da, db := DigestTable(hash, a.store), DigestTable(hash, b.store);
      && Keys(pushed) <= Offers(db, da) && (forall k :: k in wanted ==> k in Offers(da, db))
      && (complete <==> DeltaFits(b.store, Offers(db, da), Offers(da, db), collectionBytes + 32))
    requires forall k :: k in Keys(docs) ==> k in wanted
    ensures a.store == b.store ==>
      && complete && pushed == [] && wanted == []
      && ReceiveAll(hash, a, pushed, wallsA) == (a, true) && ReceiveAll(hash, b, docs, wallsB) == (b, true)
  {
    if a.store == b.store {
      NothingOffered(hash, a.store);
      NoneOrSome(pushed);
      NoneOrIn(wanted);
      assert Keys(docs) == {};
      NoneOrSome(docs);
    }
  }

  /** The initiator merges what was pushed and answers what was wanted. */
  method Apply(a: NodeEngine, b: NodeEngine, pushed: seq<DocEntry>, wanted: seq<bytes>,
               wallsA: nat -> u64, wallsB: nat -> u64)
    returns (docs: seq<DocEntry>, ok: bool)
    requires a != b && a.clock != b.clock && Distinct(wanted)
    modifies a, a.clock, b, b.clock
    ensures NoRepeats(docs) && Rows(docs, a.store)
    ensures forall k :: k in Keys(docs) <==> k in wanted && k in a.store
    ensures a.Abs() == ReceiveAll(a.hash, old(a.Abs()), pushed, wallsA).0
    ensures b.Abs() == ReceiveAll(b.hash, old(b.Abs()), docs, wallsB).0
    ensures ok ==
      (ReceiveAll(a.hash, old(a.Abs()), pushed, wallsA).1 && ReceiveAll(b.hash, old(b.Abs()), docs, wallsB).1)
  {
    var okA := MergeAll(a, pushed, wallsA);
    docs := Fulfil(a.store, wanted);
    var okB := MergeAll(b, docs, wallsB);
    ok := okA && okB;
  }

  /** What a round does, from the documents it moves. */
  lemma RoundSummary(p: map<bytes, bytes>, q: map<bytes, bytes>, hash: bytes -> bytes, a: State, b: State,
                     pushed: seq<DocEntry>, wanted: seq<bytes>, docs: seq<DocEntry>,
                     wallsA: nat -> u64, wallsB: nat -> u64, complete: bool, top: nat)
    requires Peers(p, q) && Holds(p, q, hash, a) && Holds(p, q, hash, b)
    requires NoRepeats(pushed) && Rows(pushed, b.store) && NoRepeats(docs)
    requires Rows(docs, ReceiveAll(hash, a, pushed, wallsA).0.store)
    requires var da, db := DigestTable(hash, a.store), DigestTable(hash, b.store);
      complete ==> Keys(pushed) == Offers(db, da) && forall k :: k in wanted <==> k in Offers(da, db)
    requires forall k :: k in Keys(docs) <==> k in wanted && k in ReceiveAll(hash, a, pushed, wallsA).0.store
    ensures var (a', okA) := ReceiveAll(hash, a, pushed, wallsA);
      var (b', okB) := ReceiveAll(hash, b, docs, wallsB);
      && Holds(p, q, hash, a') && Holds(p, q, hash, b')
      && (complete && okA && okB ==> Completed(hash, a.store, b.store, a'.store, b'.store))
      && (Unhindered(p, q, wallsA, top) && Unhindered(p, q, wallsB, top) &&
          a.clock.logical <= top && b.clock.logical <= top ==>
            okA && okB && a'.clock.logical <= top + |p.Keys + q.Keys| && b'.clock.logical <= top + |p.Keys + q.Keys|)
  {
    var (a', okA) := ReceiveAll(hash, a, pushed, wallsA);
    var (b', okB) := ReceiveAll(hash, b, docs, wallsB);
    Received(p, q, hash, a, pushed, b.store, wallsA, top);
    Received(p, q, hash, b, docs, a'.store, wallsB, top);
    if complete && okA && okB {
      AllMerged(hash, a, pushed, wallsA);
      AllMerged(hash, b, docs, wallsB);
      RoundDone(hash, a.store, b.store, pushed, wanted, a'.store, docs, b'.store);
    }
  }

  lemma RefreshHolds(p: map<bytes, bytes>, q: map<bytes, bytes>, hash: bytes -> bytes, s: State)
    requires Holds(p, q, hash, s)
    ensures Holds(p, q, hash, Refresh(hash, s))
  {
    RefreshCache(hash, s);
  }

  lemma RoundDone(hash: bytes -> bytes, a: map<bytes, bytes>, b: map<bytes, bytes>, pushed: seq<DocEntry>,
                  wanted: seq<bytes>, a': map<bytes, bytes>, docs: seq<DocEntry>, b': map<bytes, bytes>)
    requires var da, db := DigestTable(hash, a), DigestTable(hash, b);
      && Keys(pushed) == Offers(db, da) && (forall k :: k in wanted <==> k in Offers(da, db))
      && (forall k :: k in Keys(docs) <==> k in wanted && k in a')
    requires MergedIn(a, pushed, a') && Rows(pushed, b) && MergedIn(b, docs, b') && Rows(docs, a')
    ensures Completed(hash, a, b, a', b')
  {
    RowsAbsorbed(a, pushed, b, a');
    RowsAbsorbed(b, docs, a', b');
    assert Keys(docs) == Offers(DigestTable(hash, a), DigestTable(hash, b));
  }

  ghost predicate AnswerFits(hash: bytes -> bytes, a: map<bytes, bytes>, b: map<bytes, bytes>, collectionBytes: nat) {
    var da, db := DigestTable(hash, a), DigestTable(hash, b);
    DeltaFits(b, Offers(db, da), Offers(da, db), collectionBytes + 32)
  }

  ghost predicate ClocksBelow(a: NodeEngine, b: NodeEngine, top: nat)
    reads a, a.clock, b, b.clock
  {
    a.Abs().clock.logical <= top && b.Abs().clock.logical <= top
  }

  // ------------------------------------------------------------------
  // The copies of one key that rounds between two nodes can produce
  // ------------------------------------------------------------------

  ghost function Joined(p: map<bytes, bytes>, q: map<bytes, bytes>, k: bytes): bytes
    requires k in p && k in q && Decode(p[k]).Some? && Decode(q[k]).Some?
  {
    Encode(Merge(Decode(p[k]).value, Decode(q[k]).value))
  }

  /** The copy of one node, the copy of the other, or their merge. */
  ghost predicate Copy(p: map<bytes, bytes>, q: map<bytes, bytes>, k: bytes, x: bytes) {
    || (k in p && x == p[k])
    || (k in q && x == q[k])
    || (k in p && k in q && Decode(p[k]).Some? && Decode(q[k]).Some? && x == Joined(p, q, k))
  }

  ghost predicate Among(p: map<bytes, bytes>, q: map<bytes, bytes>, store: map<bytes, bytes>) {
    forall k :: k in store ==> Copy(p, q, k, store[k])
  }

  /** No merge is too large to store and no stamp is refused: stamps are not
      ahead of the wall clocks, and counters have room for one round. */
  ghost predicate Unhindered(p: map<bytes, bytes>, q: map<bytes, bytes>, walls: nat -> u64, top: nat) {
    && top + |p.Keys + q.Keys| <= MAX_LOGICAL
    && Storable(p, q)
    && (forall k, x :: Copy(p, q, k, x) && Honest(x) ==> InTime(x, walls, |p.Keys + q.Keys|, top))
  }

  ghost predicate Storable(p: map<bytes, bytes>, q: map<bytes, bytes>) {
    forall k, x :: Copy(p, q, k, x) ==> |x| <= MAX_DOC_BYTES
  }

  ghost predicate InTime(doc: bytes, walls: nat -> u64, n: nat, top: nat)
    requires Decode(doc).Some?
  {
    Meaning(doc).ts.logical <= top &&
    forall i :: 0 <= i < n ==> NotAhead(Meaning(doc).ts, walls(i))
  }

  predicate NotAhead(t: Timestamp, wall: u64) {
    t.physical <= (wall + MAX_FUTURE_SKEW_MS) % U64_LIMIT
  }

  lemma CopyMeans(p: map<bytes, bytes>, q: map<bytes, bytes>, k: bytes, x: bytes)
    requires Peers(p, q) && Copy(p, q, k, x) && Honest(x)
    ensures (k in p && Meaning(x) == Meaning(p[k])) || (k in q && Meaning(x) == Meaning(q[k]))
      || (k in p && k in q && Meaning(x) == Lattice.Join(Meaning(p[k]), Meaning(q[k])))
  {
    if k in p && k in q && x == Joined(p, q, k) {
      var c, d := Decode(p[k]).value, Decode(q[k]).value;
      MergeMeansJoin(c, d);
      Provenance.JoinSound(View(c), View(d));
      Depth.MergeShallow(c, d, MAX_DECODE_DEPTH);
      StoredHonest(Merge(c, d));
    }
  }

  /** A well-formed document that means one of the copies is encoded as it. */
  lemma MeansCopy(p: map<bytes, bytes>, q: map<bytes, bytes>, k: bytes, v: Crdt)
    requires Peers(p, q) && WellFormed(v)
    requires (k in p && View(v) == Meaning(p[k])) || (k in q && View(v) == Meaning(q[k]))
      || (k in p && k in q && View(v) == Lattice.Join(Meaning(p[k]), Meaning(q[k])))
    ensures Copy(p, q, k, Encode(v))
  {
    if k in p && View(v) == Meaning(p[k]) {
      SameMeaningSameBytes(v, Decode(p[k]).value);
    } else if k in q && View(v) == Meaning(q[k]) {
      SameMeaningSameBytes(v, Decode(q[k]).value);
    } else {
      var c, d := Decode(p[k]).value, Decode(q[k]).value;
      MergeMeansJoin(c, d);
      SameMeaningSameBytes(v, Merge(c, d));
    }
  }

  /** Two compatible documents and their join are closed under joining. */
  lemma ThreeClosed(a: Lattice.Doc, b: Lattice.Doc)
    requires Lattice.Compat(a, b)
    ensures var j := Lattice.Join(a, b);
      && Lattice.Join(a, a) == a && Lattice.Join(b, b) == b && Lattice.Join(j, j) == j && Lattice.Join(b, a) == j
      && Lattice.Join(a, j) == j && Lattice.Join(j, a) == j && Lattice.Join(b, j) == j && Lattice.Join(j, b) == j
  {
    Lattice.JoinCommutes(a, b);
    Lattice.JoinIdempotent(a);
    Lattice.JoinIdempotent(b);
    Lattice.JoinIdempotent(Lattice.Join(a, b));
    Lattice.JoinAbsorbsLeft(a, b);
    Lattice.JoinAbsorbsLeft(b, a);
    Lattice.JoinAbsorbsRight(a, b);
    Lattice.JoinAbsorbsRight(b, a);
  }

  lemma CopiesMerge(p: map<bytes, bytes>, q: map<bytes, bytes>, k: bytes, x: bytes, y: bytes)
    requires Peers(p, q) && Copy(p, q, k, x) && Copy(p, q, k, y) && Honest(x) && Honest(y)
    ensures Copy(p, q, k, Encode(Merge(Decode(x).value, Decode(y).value)))
  {
    var c, d := Decode(x).value, Decode(y).value;
    MergeMeansJoin(c, d);
    CopyMeans(p, q, k, x);
    CopyMeans(p, q, k, y);
    if k in p && k in q { ThreeClosed(Meaning(p[k]), Meaning(q[k])); }
    Lattice.JoinIdempotent(View(c));
    MeansCopy(p, q, k, Merge(c, d));
  }

  // ------------------------------------------------------------------
  // Receiving such copies
  // ------------------------------------------------------------------

  ghost predicate Holds(p: map<bytes, bytes>, q: map<bytes, bytes>, hash: bytes -> bytes, s: State) {
    Kept(hash, s) && Among(p, q, s.store)
  }

  ghost predicate Offered(p: map<bytes, bytes>, q: map<bytes, bytes>, d: DocEntry) {
    0 < |d.key| < MAX_KEY_BYTES && Honest(d.doc) && Copy(p, q, d.key, d.doc)
  }

  ghost predicate AllOffered(p: map<bytes, bytes>, q: map<bytes, bytes>, docs: seq<DocEntry>) {
    forall i :: 0 <= i < |docs| ==> Offered(p, q, docs[i])
  }

  lemma MergeHonest(x: bytes, y: bytes)
    requires Honest(x) && Honest(y)
    ensures var z := Encode(Merge(Decode(x).value, Decode(y).value));
      |z| <= MAX_DOC_BYTES ==> Honest(z)
  {
    var c, d := Decode(x).value, Decode(y).value;
    MergeMeansJoin(c, d);
    Provenance.JoinSound(View(c), View(d));
    Depth.MergeShallow(c, d, MAX_DECODE_DEPTH);
    if |Encode(Merge(c, d))| <= MAX_DOC_BYTES { StoredHonest(Merge(c, d)); }
  }

  /** The merged document is a copy again, and honest if it can be stored. */
  lemma MergedCopy(p: map<bytes, bytes>, q: map<bytes, bytes>, store: map<bytes, bytes>, d: DocEntry)
    requires Peers(p, q) && Offered(p, q, d)
    requires d.key in store ==> Honest(store[d.key]) && Copy(p, q, d.key, store[d.key])
    ensures Copy(p, q, d.key, Merged(store, d.key, d.doc))
    ensures |Merged(store, d.key, d.doc)| <= MAX_DOC_BYTES ==> Honest(Merged(store, d.key, d.doc))
  {
    if d.key in store {
      CopiesMerge(p, q, d.key, store[d.key], d.doc);
      MergeHonest(store[d.key], d.doc);
    }
  }

  /** A readable document is refused for its stamp or its merge is committed. */
  lemma ReceiveShape(hash: bytes -> bytes, s: State, d: DocEntry, wall: u64)
    requires Decode(d.doc).Some? && (d.key in s.store ==> Decode(s.store[d.key]).Some?)
    ensures var top := MaxStamp(Decode(d.doc).value);
      Receive(hash, s, d.key, d.doc, wall, true) ==
      if Refuses(s.clock, top, wall) then (s, Rejected)
      else Commit(hash, s.(clock := Fold(s.clock, top, wall)), d.key, Merged(s.store, d.key, d.doc), true)
  {
  }

  lemma CommitHolds(p: map<bytes, bytes>, q: map<bytes, bytes>, hash: bytes -> bytes, s: State, key: bytes, doc: bytes)
    requires Holds(p, q, hash, s) && Copy(p, q, key, doc)
    requires |doc| <= MAX_DOC_BYTES ==> Honest(doc)
    ensures Holds(p, q, hash, Commit(hash, s, key, doc, true).0)
  {
    CommitCache(hash, s, key, doc, true);
    if Accepts(key, doc) {
      HonestPut(s.store, key, doc);
      AmongPut(p, q, s.store, key, doc);
    }
  }

  lemma HonestPut(store: map<bytes, bytes>, key: bytes, doc: bytes)
    requires HonestRows(store) && 0 < |key| < MAX_KEY_BYTES && Honest(doc)
    ensures HonestRows(store[key := doc])
  {
  }

  lemma AmongPut(p: map<bytes, bytes>, q: map<bytes, bytes>, store: map<bytes, bytes>, key: bytes, doc: bytes)
    requires Among(p, q, store) && Copy(p, q, key, doc)
    ensures Among(p, q, store[key := doc])
  {
  }

  lemma ReceiveHolds(p: map<bytes, bytes>, q: map<bytes, bytes>, hash: bytes -> bytes, s: State, d: DocEntry, wall: u64)
    requires Peers(p, q) && Holds(p, q, hash, s) && Offered(p, q, d)
    ensures Holds(p, q, hash, Receive(hash, s, d.key, d.doc, wall, true).0)
  {
    MergedCopy(p, q, s.store, d);
    ReceiveShape(hash, s, d, wall);
    var top := MaxStamp(Decode(d.doc).value);
    if !Refuses(s.clock, top, wall) {
      var s1 := s.(clock := Fold(s.clock, top, wall));
      CommitHolds(p, q, hash, s1, d.key, Merged(s.store, d.key, d.doc));
    }
  }

  /** A stamp in time is observed and a merge of storable size is stored. */
  lemma ReceiveGoes(hash: bytes -> bytes, s: State, d: DocEntry, wall: u64, top: nat)
    requires 0 < |d.key| < MAX_KEY_BYTES && Honest(d.doc) && (d.key in s.store ==> Decode(s.store[d.key]).Some?)
    requires |Merged(s.store, d.key, d.doc)| <= MAX_DOC_BYTES
    requires NotAhead(Meaning(d.doc).ts, wall)
    requires Meaning(d.doc).ts.logical <= top && s.clock.logical <= top < MAX_LOGICAL
    ensures var (t, status) := Receive(hash, s, d.key, d.doc, wall, true); status.Ok? && t.clock.logical <= top + 1
  {
    MaxStampIsRoot(Decode(d.doc).value);
    ReceiveShape(hash, s, d, wall);
  }

  lemma {:induction false} AllHold(p: map<bytes, bytes>, q: map<bytes, bytes>, hash: bytes -> bytes, s: State,
                                   docs: seq<DocEntry>, walls: nat -> u64)
    requires Peers(p, q) && Holds(p, q, hash, s) && AllOffered(p, q, docs)
    ensures Holds(p, q, hash, ReceiveAll(hash, s, docs, walls).0)
    decreases |docs|
  {
    if docs != [] {
      var n := |docs| - 1;
      AllHold(p, q, hash, s, docs[..n], walls);
      ReceiveHolds(p, q, hash, ReceiveAll(hash, s, docs[..n], walls).0, docs[n], walls(n));
    }
  }

  /** One more document goes through. */
  lemma OneGoes(p: map<bytes, bytes>, q: map<bytes, bytes>, hash: bytes -> bytes, s: State, d: DocEntry,
                walls: nat -> u64, n: nat, i: nat, top: nat)
    requires Peers(p, q) && Storable(p, q) && Holds(p, q, hash, s) && Offered(p, q, d)
    requires i < n && InTime(d.doc, walls, n, top) && s.clock.logical <= top + i < MAX_LOGICAL
    ensures var (t, status) := Receive(hash, s, d.key, d.doc, walls(i), true);
      status.Ok? && t.clock.logical <= top + i + 1
  {
    MergedCopy(p, q, s.store, d);
    ReceiveGoes(hash, s, d, walls(i), top + i);
  }

  lemma NextGoes(p: map<bytes, bytes>, q: map<bytes, bytes>, hash: bytes -> bytes, s: State, docs: seq<DocEntry>,
                 walls: nat -> u64, n: nat, i: nat, top: nat)
    requires Peers(p, q) && Storable(p, q) && Holds(p, q, hash, s) && AllOffered(p, q, docs)
    requires i < |docs| <= n && AllInTime(docs, walls, n, top) && s.clock.logical <= top + i < MAX_LOGICAL
    ensures var (t, status) := Receive(hash, s, docs[i].key, docs[i].doc, walls(i), true);
      status.Ok? && t.clock.logical <= top + i + 1
  {
    assert Offered(p, q, docs[i]);
    OneGoes(p, q, hash, s, docs[i], walls, n, i, top);
  }

  lemma {:induction false} AllGo(p: map<bytes, bytes>, q: map<bytes, bytes>, hash: bytes -> bytes, s: State,
                                 docs: seq<DocEntry>, walls: nat -> u64, n: nat, top: nat)
    requires Peers(p, q) && Holds(p, q, hash, s) && AllOffered(p, q, docs) && |docs| <= n
    requires Storable(p, q)
    requires AllInTime(docs, walls, n, top)
    requires s.clock.logical <= top && top + |docs| <= MAX_LOGICAL
    ensures ReceiveAll(hash, s, docs, walls).1
    ensures ReceiveAll(hash, s, docs, walls).0.clock.logical <= top + |docs|
    decreases |docs|
  {
    if docs != [] {
      var i := |docs| - 1;
      var done := docs[..i];
      AllHold(p, q, hash, s, done, walls);
      AllGo(p, q, hash, s, done, walls, n, top);
      NextGoes(p, q, hash, ReceiveAll(hash, s, done, walls).0, docs, walls, n, i, top);
    }
  }

  ghost predicate AllInTime(docs: seq<DocEntry>, walls: nat -> u64, n: nat, top: nat) {
    forall i :: 0 <= i < |docs| ==> Decode(docs[i].doc).Some? && InTime(docs[i].doc, walls, n, top)
  }

  /** One side of a round: rows of the other store are received. */
  lemma Received(p: map<bytes, bytes>, q: map<bytes, bytes>, hash: bytes -> bytes, s: State,
                 docs: seq<DocEntry>, other: map<bytes, bytes>, walls: nat -> u64, top: nat)
    requires Peers(p, q) && Holds(p, q, hash, s) && HonestRows(other) && Among(p, q, other)
    requires NoRepeats(docs) && Rows(docs, other)
    ensures Holds(p, q, hash, ReceiveAll(hash, s, docs, walls).0)
    ensures Unhindered(p, q, walls, top) && s.clock.logical <= top ==>
      ReceiveAll(hash, s, docs, walls).1 &&
      ReceiveAll(hash, s, docs, walls).0.clock.logical <= top + |p.Keys + q.Keys|
  {
    assert AllOffered(p, q, docs);
    AllHold(p, q, hash, s, docs, walls);
    if Unhindered(p, q, walls, top) && s.clock.logical <= top {
      CountKeys(docs);
      SizeGrows(Keys(docs), p.Keys + q.Keys);
      forall i | 0 <= i < |docs|
        ensures Decode(docs[i].doc).Some? && InTime(docs[i].doc, walls, |p.Keys + q.Keys|, top)
      {
        assert Offered(p, q, docs[i]);
      }
      AllGo(p, q, hash, s, docs, walls, |p.Keys + q.Keys|, top);
    }
  }
}
