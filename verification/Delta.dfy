/** The delta one side of a gossip round sends: which rows it offers, which keys
    it asks for, and when they fit the byte cap.
 */
module Deltas {
  import opened ByteStrings
  import opened Stamps
  import opened Engine

  const MAX_DELTA_BYTES := 1024 * 1024

  datatype DocEntry = DocEntry(key: bytes, doc: bytes)

  // ------------------------------------------------------------------
  // Which documents a round moves
  // ------------------------------------------------------------------

  /** `a` is newer than `b`, or equally new with other bytes. */
  predicate Differs(a: Digest, b: Digest) {
    Before(b.top, a.top) || (!Before(a.top, b.top) && a.hash != b.hash)
  }

  /** The keys of `mine` that `theirs` lacks or that differ. */
  function Offers(mine: map<bytes, Digest>, theirs: map<bytes, Digest>): set<bytes> {
    set k | k in mine && (k !in theirs || Differs(mine[k], theirs[k]))
  }

  // ------------------------------------------------------------------
  // Rows
  // ------------------------------------------------------------------

  function Keys(docs: seq<DocEntry>): set<bytes> {
    set i | 0 <= i < |docs| :: docs[i].key
  }

  predicate NoRepeats(docs: seq<DocEntry>) {
    forall i, j :: 0 <= i < j < |docs| ==> docs[i].key != docs[j].key
  }

  predicate Distinct(s: seq<bytes>) {
    forall i, j :: 0 <= i < j < |s| ==> s[i] != s[j]
  }

  predicate Rows(docs: seq<DocEntry>, store: map<bytes, bytes>) {
    forall i :: 0 <= i < |docs| ==> docs[i].key in store && docs[i].doc == store[docs[i].key]
  }

  lemma KeysSnoc(docs: seq<DocEntry>, d: DocEntry)
    ensures Keys(docs + [d]) == Keys(docs) + {d.key}
  {
    var more := docs + [d];
    forall k | k in Keys(docs) ensures k in Keys(more) {
      var i :| 0 <= i < |docs| && docs[i].key == k;
      assert more[i].key == k;
    }
    assert more[|docs|].key == d.key;
  }

  lemma RowsSnoc(docs: seq<DocEntry>, k: bytes, store: map<bytes, bytes>)
    requires NoRepeats(docs) && Rows(docs, store) && k !in Keys(docs) && k in store
    ensures var more := docs + [DocEntry(k, store[k])];
      NoRepeats(more) && Rows(more, store) && Keys(more) == Keys(docs) + {k}
  {
    KeysSnoc(docs, DocEntry(k, store[k]));
  }

  lemma DistinctSnoc(s: seq<bytes>, k: bytes)
    requires Distinct(s) && k !in s
    ensures Distinct(s + [k]) && forall x :: x in s + [k] <==> x in s || x == k
  {
  }

  lemma NoneOrSome(docs: seq<DocEntry>)
    ensures docs != [] <==> Keys(docs) != {}
  {
    if docs != [] { assert docs[0].key in Keys(docs); }
  }

  lemma NotBefore(docs: seq<DocEntry>, i: nat)
    requires NoRepeats(docs) && i < |docs|
    ensures docs[i].key !in Keys(docs[..i])
  {
  }

  lemma {:induction false} CountKeys(docs: seq<DocEntry>)
    requires NoRepeats(docs)
    ensures |Keys(docs)| == |docs|
  {
    if docs != [] {
      var n := |docs| - 1;
      CountKeys(docs[..n]);
      NotBefore(docs, n);
      KeysSnoc(docs[..n], docs[n]);
      assert docs == docs[..n] + [docs[n]];
    }
  }

  lemma {:induction false} SizeGrows(few: set<bytes>, many: set<bytes>)
    requires few <= many
    ensures |few| <= |many|
    decreases many
  {
    if k :| k in many && k !in few {
      SizeGrows(few, many - {k});
    } else {
      assert few == many;
    }
  }

  // ------------------------------------------------------------------
  // Bytes of a delta, added up over a set of keys in any order
  // ------------------------------------------------------------------

  ghost function Weight(keys: set<bytes>, cost: map<bytes, nat>): nat {
    if keys == {} then 0 else
    var k :| k in keys;
    CostOf(cost, k) + Weight(keys - {k}, cost)
  }

  lemma {:induction false} WeightWithout(keys: set<bytes>, cost: map<bytes, nat>, k: bytes)
    requires k in keys
    ensures Weight(keys, cost) == CostOf(cost, k) + Weight(keys - {k}, cost)
    decreases keys
  {
    var m :| m in keys && Weight(keys, cost) == CostOf(cost, m) + Weight(keys - {m}, cost);
    if m != k {
      WeightWithout(keys - {m}, cost, k);
      WeightWithout(keys - {k}, cost, m);
      assert keys - {m} - {k} == keys - {k} - {m};
    }
  }

  lemma WeightWith(keys: set<bytes>, cost: map<bytes, nat>, k: bytes)
    requires k !in keys
    ensures Weight(keys + {k}, cost) == Weight(keys, cost) + CostOf(cost, k)
  {
    WeightWithout(keys + {k}, cost, k);
    assert keys + {k} - {k} == keys;
  }

  lemma {:induction false} WeightGrows(few: set<bytes>, many: set<bytes>, cost: map<bytes, nat>)
    requires few <= many
    ensures Weight(few, cost) <= Weight(many, cost)
    decreases many
  {
    if k :| k in many && k !in few {
      WeightWithout(many, cost, k);
      WeightGrows(few, many - {k}, cost);
    } else {
      assert few == many;
    }
  }

  lemma {:induction false} WeightBound(keys: set<bytes>, cost: map<bytes, nat>, most: nat)
    requires forall k :: k in keys ==> CostOf(cost, k) <= most
    ensures Weight(keys, cost) <= |keys| * most
    decreases keys
  {
    if keys != {} {
      var k :| k in keys;
      WeightWithout(keys, cost, k);
      WeightBound(keys - {k}, cost, most);
      OneMore(|keys - {k}|, most);
    }
  }

  lemma OneMore(n: nat, most: nat)
    ensures (n + 1) * most == n * most + most
  {
  }

  /** A key that no longer fits beside those taken: all of them do not fit. */
  lemma Overflows(taken: set<bytes>, k: bytes, all: set<bytes>, cost: map<bytes, nat>)
    requires taken <= all && k in all && k !in taken
    ensures Weight(taken, cost) + CostOf(cost, k) <= Weight(all, cost)
    ensures taken != {} ==> |all| > 1
    ensures |all| > 0
  {
    WeightWith(taken, cost, k);
    WeightGrows(taken + {k}, all, cost);
    if taken != {} {
      var m :| m in taken;
      TwoKeys(all, k, m);
    }
  }

  lemma TwoKeys(all: set<bytes>, k: bytes, m: bytes)
    requires k in all && m in all && k != m
    ensures |all| > 1
  {
    var rest := all - {k};
    assert all == rest + {k} && rest != {};
  }

  function CostOf(cost: map<bytes, nat>, k: bytes): nat {
    if k in cost then cost[k] else 0
  }

  function RowCost(store: map<bytes, bytes>): map<bytes, nat> {
    map k | k in store :: |k| + |store[k]| + 8
  }

  function KeyCost(keys: set<bytes>): map<bytes, nat> {
    map k | k in keys :: |k| + 4
  }

  /** The first row goes out whatever its size. */
  ghost predicate RowsFit(store: map<bytes, bytes>, push: set<bytes>, start: nat) {
    |push| <= 1 || start + Weight(push, RowCost(store)) <= MAX_DELTA_BYTES
  }

  ghost predicate KeysFit(want: set<bytes>, start: nat, pushedAny: bool) {
    want == {} || (!pushedAny && |want| == 1) || start + Weight(want, KeyCost(want)) <= MAX_DELTA_BYTES
  }

  /** The whole answer to a digest fits the cap. */
  ghost predicate DeltaFits(store: map<bytes, bytes>, push: set<bytes>, want: set<bytes>, start: nat) {
    RowsFit(store, push, start) && KeysFit(want, start + Weight(push, RowCost(store)), push != {})
  }

  // ------------------------------------------------------------------
  // Choosing rows and keys
  // ------------------------------------------------------------------

  /** The digests are walked in hash order, so the order is left open.  The
      response is cut exactly when the rows do not fit together. */
  method SelectPushed(store: map<bytes, bytes>, mine: map<bytes, Digest>, theirs: map<bytes, Digest>, start: nat)
    returns (pushed: seq<DocEntry>, size: nat, complete: bool)
    requires mine.Keys <= store.Keys
    ensures complete <==> RowsFit(store, Offers(mine, theirs), start)
    ensures complete ==> Pushing(store, pushed, Offers(mine, theirs), start, size)
    ensures !complete ==> Cut(store, pushed, Offers(mine, theirs), start, size)
  {
    size, complete, pushed := start, true, [];
    var pending := mine.Keys;
    ghost var offers := Offers(mine, theirs);
    while pending != {} && complete
      invariant pending <= mine.Keys
      invariant complete ==> Pushing(store, pushed, offers - pending, start, size)
      invariant !complete ==> Cut(store, pushed, offers, start, size)
      decreases pending
    {
      var k :| k in pending;
      TakenNext(offers, pending, k);
      if k !in theirs || Differs(mine[k], theirs[k]) {
        pushed, size, complete := PushOne(store, k, pushed, size, offers - pending, start, offers);
      }
      pending := pending - {k};
    }
    if complete { assert offers - pending == offers; }
  }

  /** One more key is taken off the pending ones. */
  lemma TakenNext(offers: set<bytes>, pending: set<bytes>, k: bytes)
    requires k in pending
    ensures offers - (pending - {k}) == if k in offers then (offers - pending) + {k} else offers - pending
  {
  }

  method PushOne(store: map<bytes, bytes>, k: bytes, pushed: seq<DocEntry>, size: nat,
                 ghost taken: set<bytes>, ghost start: nat, ghost offers: set<bytes>)
    returns (more: seq<DocEntry>, grown: nat, fits: bool)
    requires Pushing(store, pushed, taken, start, size) && taken <= offers && k in offers && k !in taken && k in store
    ensures fits ==> Pushing(store, more, taken + {k}, start, grown)
    ensures !fits ==> Cut(store, more, offers, start, grown)
  {
    PushNext(store, pushed, taken, start, size, k, offers);
    var entry := |k| + |store[k]| + 8;
    if pushed != [] && size + entry > MAX_DELTA_BYTES { return pushed, size, false; }
    return pushed + [DocEntry(k, store[k])], size + entry, true;
  }

  /** The rows chosen so far and the bytes they take. */
  ghost predicate Pushing(store: map<bytes, bytes>, pushed: seq<DocEntry>, taken: set<bytes>, start: nat, size: nat) {
    && NoRepeats(pushed) && Rows(pushed, store) && Keys(pushed) == taken
    && size == start + Weight(taken, RowCost(store))
    && (|taken| <= 1 || size <= MAX_DELTA_BYTES)
  }

  /** Some row no longer fits beside those chosen. */
  ghost predicate Cut(store: map<bytes, bytes>, pushed: seq<DocEntry>, offers: set<bytes>, start: nat, size: nat) {
    && NoRepeats(pushed) && Rows(pushed, store) && Keys(pushed) <= offers && pushed != []
    && size == start + Weight(Keys(pushed), RowCost(store)) && !RowsFit(store, offers, start)
    && exists k :: k in offers - Keys(pushed) && k in store && size + |k| + |store[k]| + 8 > MAX_DELTA_BYTES
  }

  lemma PushNext(store: map<bytes, bytes>, pushed: seq<DocEntry>, taken: set<bytes>, start: nat, size: nat,
                 k: bytes, offers: set<bytes>)
    requires Pushing(store, pushed, taken, start, size) && taken <= offers && k in offers && k !in taken && k in store
    ensures var more := size + |k| + |store[k]| + 8;
      if pushed != [] && more > MAX_DELTA_BYTES then Cut(store, pushed, offers, start, size)
      else Pushing(store, pushed + [DocEntry(k, store[k])], taken + {k}, start, more)
  {
    NoneOrSome(pushed);
    Overflows(taken, k, offers, RowCost(store));
    WeightWith(taken, RowCost(store), k);
    RowsSnoc(pushed, k, store);
    assert k in offers - Keys(pushed);
  }

  method SelectWanted(mine: map<bytes, Digest>, theirs: map<bytes, Digest>, start: nat, pushedAny: bool)
    returns (wanted: seq<bytes>, complete: bool)
    ensures Distinct(wanted)
    ensures forall k :: k in wanted ==> k in Offers(theirs, mine)
    ensures complete ==> forall k :: k in Offers(theirs, mine) ==> k in wanted
    ensures complete <==> KeysFit(Offers(theirs, mine), start, pushedAny)
    ensures !complete ==> pushedAny || wanted != []
  {
    var size: nat := start;
    complete, wanted := true, [];
    var pending := theirs.Keys;
    ghost var offers := Offers(theirs, mine);
    while pending != {}
      invariant pending <= theirs.Keys
      invariant Wanting(wanted, offers, offers - pending, pushedAny, start, size)
      decreases pending
    {
      var k :| k in pending;
      TakenNext(offers, pending, k);
      if k !in mine || Differs(theirs[k], mine[k]) {
        WantNext(wanted, offers - pending, pushedAny, start, size, k, offers);
        var entry := |k| + 4;
        if (pushedAny || wanted != []) && size + entry > MAX_DELTA_BYTES {
          complete := false;
          return;
        }
        size := size + entry;
        wanted := wanted + [k];
      }
      pending := pending - {k};
    }
    assert offers - pending == offers;
  }

  ghost predicate Wanting(wanted: seq<bytes>, offers: set<bytes>, taken: set<bytes>, pushedAny: bool, start: nat,
                          size: nat) {
    && Distinct(wanted) && |taken| == |wanted| && (forall k :: k in wanted <==> k in taken)
    && size == start + Weight(taken, KeyCost(offers))
    && (wanted == [] || (!pushedAny && |wanted| == 1) || size <= MAX_DELTA_BYTES)
  }

  lemma WantNext(wanted: seq<bytes>, taken: set<bytes>, pushedAny: bool, start: nat, size: nat,
                 k: bytes, offers: set<bytes>)
    requires Wanting(wanted, offers, taken, pushedAny, start, size) && taken <= offers && k in offers && k !in taken
    ensures var more := size + |k| + 4;
      if (pushedAny || wanted != []) && more > MAX_DELTA_BYTES then !KeysFit(offers, start, pushedAny)
      else Wanting(wanted + [k], offers, taken + {k}, pushedAny, start, more)
  {
    Overflows(taken, k, offers, KeyCost(offers));
    WeightWith(taken, KeyCost(offers), k);
    DistinctSnoc(wanted, k);
  }

  method Fulfil(store: map<bytes, bytes>, wanted: seq<bytes>) returns (docs: seq<DocEntry>)
    requires Distinct(wanted)
    ensures NoRepeats(docs) && Rows(docs, store)
    ensures forall k :: k in Keys(docs) <==> k in wanted && k in store
  {
    docs := [];
    for i := 0 to |wanted|
      invariant NoRepeats(docs) && Rows(docs, store)
      invariant forall k :: k in Keys(docs) <==> k in wanted[..i] && k in store
    {
      var k := wanted[i];
      assert wanted[..i + 1] == wanted[..i] + [k];
      if k in store {
        assert k !in Keys(docs);
        RowsSnoc(docs, k, store);
        docs := docs + [DocEntry(k, store[k])];
      }
    }
    assert wanted[..|wanted|] == wanted;
  }
}
