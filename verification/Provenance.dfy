/** Invariants that every honestly produced document has: container stamps
    bound what is below them, array tags name the stamp that created them, and
    every timestamped node can be traced to the write that issued the stamp.
 */
module Provenance {
  import opened Wrappers
  import opened ByteStrings
  import opened Stamps
  import opened Lattice

  ghost predicate Sound(d: Doc) {
    && (d.dead ==> d.Leaf?)
    && (d.Node? ==> forall n :: n in d.cells ==>
          && Sound(d.cells[n].value)
          && NotAfter(d.cells[n].value.ts, d.ts)
          && (d.shape.ObjectShape? ==> !d.cells[n].removed)
          && (d.shape.ArrayShape? ==> TaggedBy(n, d.cells[n].value.ts)))
  }

  ghost predicate TaggedBy(n: bytes, ts: Timestamp) {
    exists k: nat :: n == Tag(ts, k)
  }

  lemma {:induction false} JoinSound(a: Doc, b: Doc)
    requires Sound(a) && Sound(b)
    ensures Sound(Join(a, b))
    decreases a
  {
    if Mergeable(a, b) {
      var ab := Join(a, b);
      forall n | n in ab.cells
        ensures Sound(ab.cells[n].value) && NotAfter(ab.cells[n].value.ts, ab.ts)
        ensures ab.shape.ObjectShape? ==> !ab.cells[n].removed
        ensures ab.shape.ArrayShape? ==> TaggedBy(n, ab.cells[n].value.ts)
      {
        StampOrder();
        if n in a.cells && n in b.cells {
          JoinSound(a.cells[n].value, b.cells[n].value);
          JoinStamp(a.cells[n].value, b.cells[n].value);
        }
      }
    }
  }

  // ------------------------------------------------------------------
  // Paths and heads
  // ------------------------------------------------------------------

  function At(d: Doc, p: seq<bytes>): Option<Doc>
    decreases |p|
  {
    if p == [] then Some(d)
    else if d.Node? && p[0] in d.cells then At(d.cells[p[0]].value, p[1..])
    else None
  }

  predicate SameHead(a: Doc, b: Doc) {
    && a.ts == b.ts
    && a.dead == b.dead
    && (if a.Leaf? then b.Leaf? && a.scalar == b.scalar else b.Node? && a.shape == b.shape)
  }

  /** The node at `p` has the head of the node at `p` in `src`. */
  ghost predicate HeadFrom(d: Doc, src: Doc, p: seq<bytes>)
    requires At(d, p).Some?
  {
    At(src, p).Some? && SameHead(At(d, p).value, At(src, p).value)
  }

  lemma {:induction false} JoinHeads(a: Doc, b: Doc, p: seq<bytes>)
    requires At(Join(a, b), p).Some?
    ensures HeadFrom(Join(a, b), a, p) || HeadFrom(Join(a, b), b, p)
    decreases |p|
  {
    if p != [] && Mergeable(a, b) {
      var n := p[0];
      if n in a.cells && n in b.cells {
        JoinHeads(a.cells[n].value, b.cells[n].value, p[1..]);
      }
    }
  }

  // ------------------------------------------------------------------
  // Tracing nodes to writes
  // ------------------------------------------------------------------

  /** Every node of `d` has the head that the write which issued its stamp
      gave to the same path. */
  ghost predicate Attested(d: Doc, writes: map<Timestamp, Doc>) {
    forall p :: At(d, p).Some? ==>
      At(d, p).value.ts in writes && HeadFrom(d, writes[At(d, p).value.ts], p)
  }

  lemma JoinAttested(a: Doc, b: Doc, writes: map<Timestamp, Doc>)
    requires Attested(a, writes) && Attested(b, writes)
    ensures Attested(Join(a, b), writes)
  {
    var ab := Join(a, b);
    forall p | At(ab, p).Some?
      ensures At(ab, p).value.ts in writes && HeadFrom(ab, writes[At(ab, p).value.ts], p)
    {
      JoinHeads(a, b, p);
    }
  }

  lemma {:induction false} AtChild(d: Doc, p: seq<bytes>, n: bytes)
    requires At(d, p).Some? && At(d, p).value.Node? && n in At(d, p).value.cells
    ensures At(d, p + [n]) == Some(At(d, p).value.cells[n].value)
    decreases |p|
  {
    if p == [] {
      assert ([] + [n])[1..] == [];
    } else {
      assert (p + [n])[1..] == p[1..] + [n];
      AtChild(d.cells[p[0]].value, p[1..], n);
    }
  }

  lemma {:induction false} AttestedCompatAt(a: Doc, b: Doc, writes: map<Timestamp, Doc>, p: seq<bytes>, x: Doc, y: Doc)
    requires Attested(a, writes) && Attested(b, writes)
    requires At(a, p) == Some(x) && At(b, p) == Some(y)
    requires Sound(x) && Sound(y)
    ensures Compat(x, y)
    decreases x
  {
    if Mergeable(x, y) {
      forall n | n in x.cells && n in y.cells ensures Compat(x.cells[n].value, y.cells[n].value) {
        AtChild(a, p, n);
        AtChild(b, p, n);
        AttestedCompatAt(a, b, writes, p + [n], x.cells[n].value, y.cells[n].value);
      }
    } else if x.ts == y.ts {
      assert HeadFrom(a, writes[x.ts], p) && HeadFrom(b, writes[y.ts], p);
    }
  }

  /** Copies traced to the same writes are compatible: the hypothesis under
      which merging commutes. */
  lemma AttestedCompat(a: Doc, b: Doc, writes: map<Timestamp, Doc>)
    requires Attested(a, writes) && Attested(b, writes) && Sound(a) && Sound(b)
    ensures Compat(a, b)
  {
    AttestedCompatAt(a, b, writes, [], a, b);
  }

  // ------------------------------------------------------------------
  // Local updates
  // ------------------------------------------------------------------

  function Child(d: Option<Doc>, n: bytes): Option<Doc> {
    if d.Some? && d.value.Node? && n in d.value.cells then Some(d.value.cells[n].value) else None
  }

  /** Every node of `d` is stamped `ts` or has the head of the node at the
      same place in `prev`. */
  ghost predicate Descends(d: Doc, prev: Option<Doc>, ts: Timestamp)
    decreases d
  {
    && (d.ts == ts || (prev.Some? && SameHead(d, prev.value)))
    && (d.Node? ==> forall n :: n in d.cells ==> Descends(d.cells[n].value, Child(prev, n), ts))
  }

  lemma {:induction false} DescendsSelf(d: Doc, ts: Timestamp)
    ensures Descends(d, Some(d), ts)
    decreases d
  {
    if d.Node? {
      forall n | n in d.cells ensures Descends(d.cells[n].value, Child(Some(d), n), ts) {
        DescendsSelf(d.cells[n].value, ts);
      }
    }
  }

  lemma {:induction false} DescendsHeads(d: Doc, prev: Option<Doc>, ts: Timestamp, p: seq<bytes>)
    requires Descends(d, prev, ts) && At(d, p).Some? && At(d, p).value.ts != ts
    ensures prev.Some? && HeadFrom(d, prev.value, p)
    decreases |p|
  {
    if p != [] {
      DescendsHeads(d.cells[p[0]].value, Child(prev, p[0]), ts, p[1..]);
    }
  }

  /** A write with a new stamp, recorded under that stamp, is traceable. */
  lemma UpdateAttested(d: Doc, prev: Option<Doc>, ts: Timestamp, writes: map<Timestamp, Doc>)
    requires Descends(d, prev, ts)
    requires prev.Some? ==> Attested(prev.value, writes)
    requires ts !in writes
    ensures Attested(d, writes[ts := d])
  {
    var more := writes[ts := d];
    forall p | At(d, p).Some?
      ensures At(d, p).value.ts in more && HeadFrom(d, more[At(d, p).value.ts], p)
    {
      if At(d, p).value.ts != ts {
        DescendsHeads(d, prev, ts, p);
      }
    }
  }

  /** What a local write does to the document it replaces. */
  ghost predicate Extends(d: Doc, prev: Option<Doc>, ts: Timestamp) {
    && Sound(d)
    && NotAfter(d.ts, ts)
    && Descends(d, prev, ts)
    && (prev.Some? ==> Join(prev.value, d) == d)
  }

  lemma ExtendsSelf(d: Doc, ts: Timestamp)
    requires Sound(d) && NotAfter(d.ts, ts)
    ensures Extends(d, Some(d), ts)
  {
    DescendsSelf(d, ts);
    JoinIdempotent(d);
  }

  /** A new container whose every cell extends the cell it replaces. */
  lemma ContainerExtends(d: Doc, prev: Option<Doc>, ts: Timestamp)
    requires d.Node? && !d.dead && d.ts == ts
    requires forall n :: n in d.cells ==> Extends(d.cells[n].value, Child(prev, n), ts)
    requires forall n :: n in d.cells ==>
      && (d.shape.ObjectShape? ==> !d.cells[n].removed)
      && (d.shape.ArrayShape? ==> TaggedBy(n, d.cells[n].value.ts))
    requires prev.Some? ==> Before(prev.value.ts, ts)
    requires prev.Some? && Mergeable(prev.value, d) ==>
      forall n :: n in prev.value.cells ==> n in d.cells && (prev.value.cells[n].removed ==> d.cells[n].removed)
    ensures Extends(d, prev, ts)
  {
    BeforeIrreflexive(ts);
    if prev.Some? { BeforeNotAfter(prev.value.ts, ts); }
    if prev.Some? && Mergeable(prev.value, d) {
      var j := Join(prev.value, d);
      forall n | n in d.cells ensures j.cells[n] == d.cells[n] {
        assert Extends(d.cells[n].value, Child(prev, n), ts);
      }
      assert j.cells == d.cells;
    }
  }
}
