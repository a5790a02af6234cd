/** One node's document engine: local writes, merging of remote documents, and
    the digest cache, over stored bytes.  One collection is modelled; the ACL,
    the outbox and the broadcast hook are not.  `io` says whether the storage
    write succeeded (quota and input/output).
 */
module Engine {
  import opened Wrappers
  import opened ByteStrings
  import opened Stamps
  import opened NamedItems
  import opened JsonValues
  import opened Documents
  import opened Codec
  import opened Updates
  import opened Clocks
  import Lattice
  import Provenance

  const MAX_KEY_BYTES := 64
  const MAX_DOC_BYTES := 4088  // a page less its header and one slot entry

  datatype Digest = Digest(top: Timestamp, hash: bytes)

  datatype State = State(node: bytes, clock: Reading, tags: nat,
                         store: map<bytes, bytes>, digests: map<bytes, Digest>)

  /** `Thrown` is an exception out of decoding a stored document. */
  datatype Status = Ok | Corruption | Rejected | Refused | Thrown

  // ------------------------------------------------------------------
  // Newest timestamp
  // ------------------------------------------------------------------

  function MaxStamp(v: Crdt): Timestamp
    decreases v, 1
  {
    match v
    case Register(ts, _, _) => ts
    case Container(ts, _, _, entries) => MaxStampEach(entries, ts)
  }

  function MaxStampEach(es: seq<Named<Slot>>, best: Timestamp): Timestamp
    decreases es, 0
  {
    if es == [] then best else
    MaxStampEach(es[1..], Later(best, MaxStamp(es[0].item.value)))
  }

  /** In a sound document the root stamp is the newest, so the digest of a
      document needs no search and merging takes the later of two digests. */
  lemma {:induction false} MaxStampIsRoot(v: Crdt)
    requires WellFormed(v) && Provenance.Sound(View(v))
    ensures MaxStamp(v) == v.ts
    decreases v, 1
  {
    if v.Container? {
      forall e | e in v.entries ensures MaxStamp(e.item.value) == e.item.value.ts && NotAfter(e.item.value.ts, v.ts) {
        CellOf(v.entries, e);
        MaxStampIsRoot(e.item.value);
      }
      MaxStampBounded(v.entries, v.ts);
    }
  }

  lemma {:induction false} MaxStampBounded(es: seq<Named<Slot>>, best: Timestamp)
    requires forall e :: e in es ==> NotAfter(MaxStamp(e.item.value), best)
    ensures MaxStampEach(es, best) == best
  {
    if es != [] {
      assert es[0] in es;
      MaxStampBounded(es[1..], best);
    }
  }

  // ------------------------------------------------------------------
  // Steps
  // ------------------------------------------------------------------

  predicate Accepts(key: bytes, doc: bytes) {
    0 < |key| < MAX_KEY_BYTES && |doc| <= MAX_DOC_BYTES
  }

  function DigestOf(hash: bytes -> bytes, doc: bytes): Option<Digest> {
    var v := Decode(doc);
    if v.None? then None else Some(Digest(MaxStamp(v.value), hash(doc)))
  }

  /** A digest is never cached for bytes that do not decode. */
  function Note(hash: bytes -> bytes, digests: map<bytes, Digest>, key: bytes, doc: bytes): map<bytes, Digest> {
    var d := DigestOf(hash, doc);
    if d.None? then digests else digests[key := d.value]
  }

  function Commit(hash: bytes -> bytes, s: State, key: bytes, doc: bytes, io: bool): (State, Status) {
    if !Accepts(key, doc) || !io then (s, Refused)
    else (s.(store := s.store[key := doc], digests := Note(hash, s.digests, key, doc)), Ok)
  }

  function StampOf(s: State, wall: u64): Timestamp {
    var c := Tick(s.clock, wall);
    Timestamp(c.physical, c.logical, s.node)
  }

  /** The updated document and tag counter of a local write. */
  function Written(s: State, key: bytes, j: Json, wall: u64): (Crdt, nat)
    requires key in s.store ==> Decode(s.store[key]).Some?
  {
    if key in s.store then Apply(Decode(s.store[key]).value, j, StampOf(s, wall), s.tags)
    else FromJson(j, StampOf(s, wall), s.tags)
  }

  function Put(hash: bytes -> bytes, s: State, key: bytes, j: Json, wall: u64, io: bool): (State, Status) {
    if key in s.store && Decode(s.store[key]).None? then (s, Thrown) else
    var (v, tags) := Written(s, key, j, wall);
    Commit(hash, s.(clock := Tick(s.clock, wall), tags := tags), key, Encode(v), io)
  }

  function Receive(hash: bytes -> bytes, s: State, key: bytes, remote: bytes, wall: u64, io: bool): (State, Status) {
    var r := Decode(remote);
    if r.None? then (s, Corruption) else
    if Refuses(s.clock, MaxStamp(r.value), wall) then (s, Rejected) else
    var s1 := s.(clock := Fold(s.clock, MaxStamp(r.value), wall));
    if key in s.store && Decode(s.store[key]).None? then (s1, Thrown) else
    var merged := if key in s.store then Merge(Decode(s.store[key]).value, r.value) else r.value;
    Commit(hash, s1, key, Encode(merged), io)
  }

  function Recount(hash: bytes -> bytes, store: map<bytes, bytes>): map<bytes, Option<Digest>> {
    map k | k in store :: DigestOf(hash, store[k])
  }

  /** Every digest that was missing and can be computed is cached. */
  function Refresh(hash: bytes -> bytes, s: State): State {
    s.(digests := s.digests + Listed(Recount(hash, s.store), s.digests, s.store.Keys))
  }

  /** The digests of these keys, cached or else recomputed. */
  function Listed(computed: map<bytes, Option<Digest>>, digests: map<bytes, Digest>, keys: set<bytes>)
    : map<bytes, Digest>
  {
    map k | k in keys && k in computed && (k in digests || computed[k].Some?) ::
      if k in digests then digests[k] else computed[k].value
  }

  lemma ListedNext(computed: map<bytes, Option<Digest>>, digests: map<bytes, Digest>, keys: set<bytes>, k: bytes)
    requires k in computed && k !in keys
    ensures k !in Listed(computed, digests, keys)
    ensures Listed(computed, digests, keys + {k}) ==
      if k in digests then Listed(computed, digests, keys)[k := digests[k]]
      else if computed[k].Some? then Listed(computed, digests, keys)[k := computed[k].value]
      else Listed(computed, digests, keys)
  {
  }

  lemma OverlayNext(a: map<bytes, Digest>, b: map<bytes, Digest>, k: bytes, d: Digest)
    ensures (a + b)[k := d] == a + b[k := d]
  {
  }

  class NodeEngine {
    const hash: bytes -> bytes
    const clock: HybridLogicalClock
    var tags: nat
    var store: map<bytes, bytes>
    var digests: map<bytes, Digest>

    ghost function Abs(): State
      reads this, clock
    {
      State(clock.node, clock.State(), tags, store, digests)
    }

    constructor (node: bytes, hash: bytes -> bytes)
      ensures fresh(clock) && this.hash == hash
      ensures Abs() == State(node, Reading(0, 0), 0, map[], map[])
    {
      this.hash := hash;
      clock := new HybridLogicalClock(node);
      tags, store, digests := 0, map[], map[];
    }

    method NoteDigest(key: bytes, doc: bytes)
      modifies this`digests
      ensures digests == Note(hash, old(digests), key, doc)
    {
      var v := Decode(doc);
      if v.None? { return; }
      digests := digests[key := Digest(MaxStamp(v.value), hash(doc))];
    }

    method PutRaw(key: bytes, doc: bytes, io: bool) returns (ok: bool)
      modifies this`store
      ensures ok == (Accepts(key, doc) && io)
      ensures store == if ok then old(store)[key := doc] else old(store)
    {
      if !(0 < |key| < MAX_KEY_BYTES) || |doc| > MAX_DOC_BYTES || !io { return false; }
      store := store[key := doc];
      return true;
    }

    method PutDocument(key: bytes, j: Json, wall: u64, io: bool) returns (status: Status)
      modifies this, clock
      ensures (Abs(), status) == Put(hash, old(Abs()), key, j, wall, io)
    {
      var previous: Option<Crdt> := None;
      if key in store {
        previous := Decode(store[key]);
        if previous.None? { return Thrown; }
      }
      var ts := clock.Now(wall);
      var updated := if previous.Some? then Apply(previous.value, j, ts, tags) else FromJson(j, ts, tags);
      tags := updated.1;
      var doc := Encode(updated.0);
      var ok := PutRaw(key, doc, io);
      if !ok { return Refused; }
      NoteDigest(key, doc);
      return Ok;
    }

    method MergeRemote(key: bytes, remote: bytes, wall: u64, io: bool) returns (status: Status)
      modifies this, clock
      ensures (Abs(), status) == Receive(hash, old(Abs()), key, remote, wall, io)
    {
      var r := Decode(remote);
      if r.None? { return Corruption; }
      var observed := clock.Observe(MaxStamp(r.value), wall);
      if !observed { return Rejected; }
      var merged := r.value;
      if key in store {
        var existing := Decode(store[key]);
        if existing.None? { return Thrown; }
        merged := MergeByIndex(existing.value, r.value);
      }
      var doc := Encode(merged);
      var ok := PutRaw(key, doc, io);
      if !ok { return Refused; }
      NoteDigest(key, doc);
      return Ok;
    }

    /** The cached digest, or one computed from the stored bytes and cached. */
    method DigestFor(k: bytes) returns (d: Option<Digest>)
      requires k in store
      modifies this`digests
      ensures d == if k in old(digests) then Some(old(digests)[k]) else DigestOf(hash, store[k])
      ensures digests == if d.Some? then old(digests)[k := d.value] else old(digests)
    {
      if k in digests {
        assert digests[k := digests[k]] == digests;
        return Some(digests[k]);
      }
      var v := Decode(store[k]);
      if v.None? { return None; }
      d := Some(Digest(MaxStamp(v.value), hash(store[k])));
      digests := digests[k := d.value];
    }

    /** Cached digests, and recomputed ones for the keys not cached; a row that
        does not decode and was never cached is skipped. */
    method LocalDigest() returns (out: map<bytes, Digest>)
      modifies this`digests
      ensures forall k :: k in out <==> k in store && (k in old(digests) || DigestOf(hash, store[k]).Some?)
      ensures forall k :: k in out ==>
        out[k] == if k in old(digests) then old(digests)[k] else DigestOf(hash, store[k]).value
      ensures digests == old(digests) + out && Abs() == Refresh(hash, old(Abs()))
    {
      out := map[];
      var pending := store.Keys;
      ghost var computed := Recount(hash, store);
      assert store.Keys - pending == {};
      while pending != {}
        invariant pending <= store.Keys
        invariant out == Listed(computed, old(digests), store.Keys - pending)
        invariant digests == old(digests) + out
        decreases pending
      {
        var k :| k in pending;
        ListedNext(computed, old(digests), store.Keys - pending, k);
        assert store.Keys - (pending - {k}) == (store.Keys - pending) + {k};
        pending := pending - {k};
        assert k in digests <==> k in old(digests);
        var d := DigestFor(k);
        if d.Some? {
          OverlayNext(old(digests), out, k, d.value);
          out := out[k := d.value];
        }
      }
      assert store.Keys - {} == store.Keys;
    }
  }
}
