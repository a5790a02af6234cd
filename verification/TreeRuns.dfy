/** Whole runs of a B+Tree over string keys: it stays a plain map.
 */
module TreeRuns {
  import opened Wrappers
  import opened ByteStrings
  import opened KeySlots
  import opened TreeModel
  import opened TreeEntries
  import opened TreeSplits
  import opened BPlusTrees
  import opened TreeDensity

  datatype Op = Put(key: bytes, rid: Rid) | Del(key: bytes)

  predicate Accepted(key: bytes) {
    0 < |key| < SLOT
  }

  /** What an operation does to a plain map; a key of bad length is refused, and
      one with a zero byte is stored up to it. */
  function MapEffect(m: map<bytes, Rid>, op: Op): map<bytes, Rid> {
    match op
    case Put(key, rid) => if Accepted(key) then m[UpToZero(key) := rid] else m
    case Del(key) => m - {key}
  }

  function MapRun(ops: seq<Op>): map<bytes, Rid> {
    if ops == [] then map[] else MapEffect(MapRun(ops[..|ops| - 1]), ops[|ops| - 1])
  }

  /** What it does to the tree's entries. */
  function Effect(es: seq<Entry>, op: Op): seq<Entry> {
    match op
    case Put(key, rid) => if Accepted(key) then Upsert(es, Place(key), rid) else es
    case Del(key) => if NulFree(key) then Without(es, Place(key)) else es
  }

  /** A key with a zero byte is put only where its stored form is not. */
  predicate Apart(m: map<bytes, Rid>, op: Op) {
    op.Put? && !NulFree(op.key) ==> UpToZero(op.key) !in m
  }

  /** Sorted entries that hold exactly the map. */
  ghost predicate Refines(es: seq<Entry>, m: map<bytes, Rid>) {
    && Ordered(TLeaf(0, es), 0, KEY_LIMIT)
    && (forall k :: k in m ==> Holding(es, m, k))
    && (forall r :: r in ToMap(es) ==> exists k :: k in m && Place(k) == r)
  }

  ghost predicate Holding(es: seq<Entry>, m: map<bytes, Rid>, k: bytes)
    requires k in m
  {
    NulFree(k) && |k| < SLOT && Place(k) in ToMap(es) && ToMap(es)[Place(k)] == m[k]
  }

  /** Finding a string in the entries is finding it in the map. */
  lemma LookupRefines(es: seq<Entry>, m: map<bytes, Rid>, key: bytes)
    requires Refines(es, m)
    ensures (if NulFree(key) then Lookup(es, Place(key)) else None) == if key in m then Some(m[key]) else None
  {
    LookupIsMap(es, Place(key));
    if key in m {
      assert Holding(es, m, key);
    } else if NulFree(key) && Place(key) in ToMap(es) {
      var k :| k in m && Place(k) == Place(key);
      assert Holding(es, m, k);
      PlaceOrder(key, k);
    }
  }

  /** The place of an absent string without a zero byte is free. */
  lemma PlaceFree(es: seq<Entry>, m: map<bytes, Rid>, key: bytes)
    requires Refines(es, m) && UpToZero(key) !in m
    ensures Lookup(es, Place(key)).None?
  {
    ReadIsNulFree(key);
    PlainKey(UpToZero(key));
    LookupRefines(es, m, UpToZero(key));
  }

  lemma PutRefines(es: seq<Entry>, m: map<bytes, Rid>, key: bytes, rid: Rid)
    requires Refines(es, m) && NulFree(key) && |key| < SLOT
    ensures Refines(Upsert(es, Place(key), rid), m[key := rid])
  {
    var r := Place(key);
    var es', m' := Upsert(es, r, rid), m[key := rid];
    UpsertFacts(es, r, rid, 0, KEY_LIMIT);
    UpsertIsMap(es, r, rid);
    forall k | k in m' ensures Holding(es', m', k) {
      if k != key {
        assert Holding(es, m, k);
        PlaceOrder(key, k);
      }
    }
    forall x | x in ToMap(es') ensures exists k :: k in m' && Place(k) == x {
      if x == r {
        assert key in m';
      } else {
        var k :| k in m && Place(k) == x;
        assert k in m';
      }
    }
  }

  lemma DelRefines(es: seq<Entry>, m: map<bytes, Rid>, key: bytes)
    requires Refines(es, m) && NulFree(key)
    ensures Refines(Without(es, Place(key)), m - {key})
  {
    var r := Place(key);
    var es', m' := Without(es, r), m - {key};
    WithoutFacts(es, r, 0, KEY_LIMIT);
    WithoutIsMap(es, r);
    forall k | k in m' ensures Holding(es', m', k) {
      assert Holding(es, m, k);
      PlaceOrder(key, k);
    }
    forall x | x in ToMap(es') ensures exists k :: k in m' && Place(k) == x {
      var k :| k in m && Place(k) == x;
      assert k in m';
    }
  }

  lemma StoredKey(key: bytes)
    requires |key| < SLOT
    ensures NulFree(UpToZero(key)) && |UpToZero(key)| < SLOT && Place(UpToZero(key)) == Place(key)
  {
    ReadIsNulFree(key);
    PlainKey(UpToZero(key));
    UpToZeroShorter(key);
  }

  lemma {:induction false} UpToZeroShorter(key: bytes)
    ensures |UpToZero(key)| <= |key|
  {
    if key != [] && key[0] != 0 { UpToZeroShorter(key[1..]); }
  }

  lemma EffectRefines(es: seq<Entry>, m: map<bytes, Rid>, op: Op)
    requires Refines(es, m)
    ensures Refines(Effect(es, op), MapEffect(m, op))
  {
    match op
    case Put(key, rid) =>
      if Accepted(key) {
        StoredKey(key);
        PutRefines(es, m, UpToZero(key), rid);
      }
    case Del(key) =>
      if NulFree(key) {
        DelRefines(es, m, key);
      } else {
        NotStored(es, m, key);
      }
  }

  lemma NotStored(es: seq<Entry>, m: map<bytes, Rid>, key: bytes)
    requires Refines(es, m) && !NulFree(key)
    ensures m - {key} == m
  {
    forall k | k in m ensures NulFree(k) {
      assert Holding(es, m, k);
    }
  }

  method Apply(t: BPlusTree, op: Op)
    requires t.Valid() && t.next + MAX_DESCENT <= PAGE_LIMIT
    requires op.Put? && !NulFree(op.key) ==> Lookup(t.Contents(), Place(op.key)).None?
    modifies t
    ensures t.Valid() && t.Contents() == Effect(old(t.Contents()), op)
    ensures op.Put? && DenseBelow(old(t.tree)) ==> DenseBelow(t.tree)
  {
    match op
    case Put(key, rid) => { var _ := t.Insert(key, rid); }
    case Del(key) => { var _ := t.Remove(key); }
  }

  lemma MapRunSnoc(ops: seq<Op>, n: nat)
    requires n < |ops|
    ensures MapRun(ops[..n + 1]) == MapEffect(MapRun(ops[..n]), ops[n])
  {
    assert ops[..n + 1][..n] == ops[..n];
  }

  /** Every run from an empty tree, for as long as page ids last: the tree stays
      well formed and holds the map the operations describe, and while nothing is
      removed every node but the root is at least half full. */
  method RunTree(ops: seq<Op>) returns (t: BPlusTree, n: nat)
    requires forall i :: 0 <= i < |ops| ==> Apart(MapRun(ops[..i]), ops[i])
    ensures fresh(t) && t.Valid() && n <= |ops|
    ensures n < |ops| ==> t.next + MAX_DESCENT > PAGE_LIMIT
    ensures Refines(t.Contents(), MapRun(ops[..n]))
    ensures (forall i :: 0 <= i < n ==> ops[i].Put?) ==> DenseBelow(t.tree)
  {
    t := new BPlusTree();
    n := 0;
    assert ops[..0] == [];
    while n < |ops| && t.next + MAX_DESCENT <= PAGE_LIMIT
      invariant fresh(t) && t.Valid() && n <= |ops|
      invariant Refines(t.Contents(), MapRun(ops[..n]))
      invariant (forall i :: 0 <= i < n ==> ops[i].Put?) ==> DenseBelow(t.tree)
    {
      EffectRefines(t.Contents(), MapRun(ops[..n]), ops[n]);
      if ops[n].Put? && !NulFree(ops[n].key) { PlaceFree(t.Contents(), MapRun(ops[..n]), ops[n].key); }
      MapRunSnoc(ops, n);
      Apply(t, ops[n]);
      n := n + 1;
    }
  }

  // ------------------------------------------------------------------
  // What a scan lists
  // ------------------------------------------------------------------

  lemma {:induction false} FromFacts(es: seq<Entry>, k: int)
    requires AscendingEntries(es)
    ensures AscendingEntries(From(es, k))
    ensures forall e :: e in From(es, k) <==> e in es && e.key >= k
  {
    if es != [] {
      var rest := es[1..];
      FromFacts(rest, k);
      assert es == [es[0]] + rest;
      assert forall e :: e in rest ==> es[0].key < e.key;
      assert forall i :: 0 <= i < |From(rest, k)| ==> From(rest, k)[i] in From(rest, k);
    }
  }

  lemma {:induction false} EntryInMap(es: seq<Entry>, e: Entry)
    requires AscendingEntries(es)
    ensures e in es <==> e.key in ToMap(es) && ToMap(es)[e.key] == e.rid
  {
    if es != [] {
      var rest := es[1..];
      EntryInMap(rest, e);
      assert es == [es[0]] + rest;
      ToMapKeys(rest, es[0].key);
      assert forall i :: 0 <= i < |rest| ==> rest[i] == es[i + 1];
    }
  }

  ghost predicate Listed(es: seq<Entry>, m: map<bytes, Rid>, ks: seq<bytes>) {
    && |ks| == |es|
    && (forall i :: 0 <= i < |ks| ==> Lists(es[i], m, ks[i]))
  }

  predicate Lists(e: Entry, m: map<bytes, Rid>, k: bytes) {
    k in m && e == Entry(Place(k), m[k])
  }

  /** A scan lists the map's keys from `start` on, in string order, each once. */
  lemma ScanLists(es: seq<Entry>, m: map<bytes, Rid>, start: bytes) returns (ks: seq<bytes>)
    requires Refines(es, m)
    ensures Listed(From(es, First(start)), m, ks)
    ensures forall i, j :: 0 <= i < j < |ks| ==> Less(ks[i], ks[j])
    ensures forall k :: k in ks <==> k in m && !Less(k, start)
  {
    var out := From(es, First(start));
    FromFacts(es, First(start));
    forall i | 0 <= i < |out| ensures FromMap(out[i], m) {
      assert out[i] in out;
      StringOf(es, m, out[i]);
    }
    ks := Strings(m, out);
    forall i, j | 0 <= i < j < |ks| ensures Less(ks[i], ks[j]) {
      assert Holding(es, m, ks[i]) && Holding(es, m, ks[j]);
      PlaceOrder(ks[i], ks[j]);
    }
    forall k ensures k in ks <==> k in m && !Less(k, start) {
      if k in m { InScan(es, m, start, ks, k); }
    }
  }

  ghost predicate FromMap(e: Entry, m: map<bytes, Rid>) {
    exists k :: Lists(e, m, k)
  }

  lemma {:induction false} Strings(m: map<bytes, Rid>, out: seq<Entry>) returns (ks: seq<bytes>)
    requires forall i :: 0 <= i < |out| ==> FromMap(out[i], m)
    ensures Listed(out, m, ks)
  {
    if out == [] {
      ks := [];
    } else {
      var k :| Lists(out[0], m, k);
      var rest := Strings(m, out[1..]);
      ks := [k] + rest;
      forall i | 0 <= i < |ks| ensures Lists(out[i], m, ks[i]) {
        if i > 0 { assert Lists(out[1..][i - 1], m, rest[i - 1]); }
      }
    }
  }

  lemma StringOf(es: seq<Entry>, m: map<bytes, Rid>, e: Entry)
    requires Refines(es, m) && e in es
    ensures FromMap(e, m)
  {
    EntryInMap(es, e);
    var k :| k in m && Place(k) == e.key;
    assert Holding(es, m, k);
    assert Lists(e, m, k);
  }

  lemma InScan(es: seq<Entry>, m: map<bytes, Rid>, start: bytes, ks: seq<bytes>, k: bytes)
    requires Refines(es, m) && k in m
    requires Listed(From(es, First(start)), m, ks)
    ensures k in ks <==> !Less(k, start)
  {
    var out := From(es, First(start));
    FromFacts(es, First(start));
    assert Holding(es, m, k);
    PlaceOrder(start, k);
    var e := Entry(Place(k), m[k]);
    EntryInMap(es, e);
    if !Less(k, start) {
      assert e in out;
      var i :| 0 <= i < |out| && out[i] == e;
      assert Holding(es, m, ks[i]);
      PlaceOrder(k, ks[i]);
    }
    if k in ks {
      var i :| 0 <= i < |ks| && ks[i] == k;
      assert out[i] in out;
    }
  }
}
