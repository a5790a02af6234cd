/** The transit store: an append-only log of envelopes and the map it stands
    for.  The log is plaintext here and every write to it succeeds unless a
    parameter says otherwise; orders stand for the order in which a hash map is
    walked.  Every operation is a function of log and map; which runs keep the two
    together is settled exactly.
 */
module Transit {
  import opened Wrappers
  import opened Sequences
  import opened ByteStrings
  import opened FramedLogs
  import opened TransitCodec
  import opened TransitLogs
  import Reencryption

  datatype Store = Store(log: bytes, entries: Held)

  // ------------------------------------------------------------------
  // The operations
  // ------------------------------------------------------------------

  function Logged(crc: Crc, s: Store, body: bytes): Store {
    s.(log := s.log + Frame(crc, Records(), body))
  }

  function Holding(crc: Crc, s: Store, e: Envelope): Store {
    Logged(crc, s, EncodeHold(e)).(entries := s.entries[MapKey(e.owner, e.keyHash) := e])
  }

  /** The log rewritten with these rows. */
  function Rewritten(crc: Crc, m: Held, order: seq<bytes>): Store
    requires forall k :: k in order ==> k in m
  {
    Store(Frames(crc, Records(), Bodies(m, order)), m)
  }

  predicate Expired(e: Envelope, now: int) {
    e.expires != 0 && e.expires <= now
  }

  function Lasting(m: Held, now: int): Held {
    map k | k in m && !Expired(m[k], now) :: m[k]
  }

  function Unsettled(m: Held, hashes: set<bytes>): Held {
    map k | k in m && m[k].keyHash !in hashes :: m[k]
  }

  /** An envelope without an expiry stays whatever the time; another stays until its
      time has come, and what stays is unchanged. */
  lemma LastingExactly(m: Held, now: int, k: bytes)
    requires k in m
    ensures k in Lasting(m, now) <==> m[k].expires == 0 || now < m[k].expires
    ensures k in Lasting(m, now) ==> Lasting(m, now)[k] == m[k]
  {
  }

  /** A release takes every owner's envelopes under the given hashes and no others. */
  lemma UnsettledExactly(m: Held, hashes: set<bytes>, k: bytes)
    requires k in m
    ensures k in Unsettled(m, hashes) <==> m[k].keyHash !in hashes
    ensures k in Unsettled(m, hashes) ==> Unsettled(m, hashes)[k] == m[k]
  {
  }

  /** Only these rows stay; the log is rewritten if any went. */
  function Keeping(crc: Crc, s: Store, left: Held, order: seq<bytes>): Store
    requires forall k :: k in order ==> k in left
  {
    if |left| == |s.entries| then s.(entries := left) else Rewritten(crc, left, order)
  }

  /** The store a log is loaded to; a corrupt log is rewritten with what was read. */
  function Loaded(crc: Crc, log: bytes, order: seq<bytes>): Store
    requires forall k :: k in order ==> k in Restored(crc, log).0
  {
    var (m, corrupt) := Restored(crc, log);
    if corrupt then Rewritten(crc, m, order) else Store(log, m)
  }

  class TransitStore {
    const crc: Crc
    const holder: bytes
    var log: bytes
    var entries: Held

    ghost function State(): Store
      reads this
    {
      Store(log, entries)
    }

    constructor (c: Crc, id: bytes)
      ensures State() == Store([], map[]) && crc == c && holder == id
    {
      crc, holder := c, id;
      log, entries := [], map[];
    }

    method AppendRecord(body: bytes)
      modifies this`log
      ensures State() == Logged(crc, old(State()), body)
    {
      var frame := MakeFrame(crc, body);
      log := log + frame;
    }

    /** Stores the envelope under this holder, with the time it expires. */
    method Hold(envelope: Envelope, expires: i64, io: bool) returns (ok: bool)
      modifies this
      ensures ok == (Owned(envelope.owner, envelope.keyHash) && envelope.owner != holder && io)
      ensures State() ==
        if ok then Holding(crc, old(State()), envelope.(holder := holder, expires := expires)) else old(State())
    {
      if envelope.owner == [] || |envelope.keyHash| != HASH_BYTES || envelope.owner == holder { return false; }
      var stored := envelope.(holder := holder, expires := expires);
      if !io { return false; }
      AppendRecord(EncodeHold(stored));
      entries := entries[MapKey(stored.owner, stored.keyHash) := stored];
      return true;
    }

    /** Stores an envelope as another holder sent it. */
    method MergeRemoteEnvelope(envelope: Envelope, io: bool) returns (ok: bool)
      modifies this
      ensures ok == (Owned(envelope.owner, envelope.keyHash) && io)
      ensures State() == if ok then Holding(crc, old(State()), envelope) else old(State())
    {
      if envelope.owner == [] || |envelope.keyHash| != HASH_BYTES { return false; }
      if !io { return false; }
      AppendRecord(EncodeHold(envelope));
      entries := entries[MapKey(envelope.owner, envelope.keyHash) := envelope];
      return true;
    }

    /** Rewrites the log with the live rows only. */
    method Compact(order: seq<bytes>)
      requires Lists(order, entries.Keys)
      modifies this`log
      ensures State() == Rewritten(crc, old(entries), order)
    {
      log := LiveRows(crc, entries, order);
    }

    /** Logs a drop for each of these, which are no longer in the map. */
    method LogDrops(drops: seq<Envelope>)
      modifies this`log
      ensures log == old(log) + Frames(crc, Records(), DropBodies(drops))
    {
      for i := 0 to |drops|
        invariant log == old(log) + Frames(crc, Records(), DropBodies(drops[..i]))
      {
        DropsNext(crc, old(log), drops, i);
        AppendRecord(EncodeDrop(drops[i].owner, drops[i].keyHash));
      }
      assert drops[..|drops|] == drops;
    }

    /** Forgets what has expired, logs the drops, then compacts. */
    method ExpireAsOf(now: int, order: seq<bytes>, live: seq<bytes>) returns (expired: nat)
      requires Lists(order, entries.Keys) && Lists(live, Lasting(entries, now).Keys)
      modifies this
      ensures State() == Keeping(crc, old(State()), Lasting(old(entries), now), live)
      ensures expired == |old(entries)| - |entries|
    {
      var drops;
      drops, entries := CollectExpired(entries, order, now);
      LogDrops(drops);
      expired := |drops|;
      if expired > 0 { Compact(live); }
    }

    /** Drops every envelope with one of these hashes, then compacts. */
    method Release(hashes: set<bytes>, order: seq<bytes>, left: seq<bytes>) returns (released: nat)
      requires Lists(order, entries.Keys) && Lists(left, Unsettled(entries, hashes).Keys)
      modifies this
      ensures State() == Keeping(crc, old(State()), Unsettled(old(entries), hashes), left)
      ensures released == |old(entries)| - |entries|
    {
      NoneSettled(entries);
      if hashes == {} { return 0; }
      released := ReleaseEach(hashes, order);
      if released > 0 { Compact(left); }
    }

    method ReleaseEach(hashes: set<bytes>, order: seq<bytes>) returns (released: nat)
      requires Lists(order, entries.Keys)
      modifies this
      ensures entries == Unsettled(old(entries), hashes) && released == |old(entries)| - |entries|
      ensures released == 0 ==> log == old(log)
    {
      released := 0;
      ghost var was := entries;
      UnsettledAll(was, hashes, order);
      for i := 0 to |order|
        invariant entries == UnsettledUpTo(was, hashes, order[..i]) && released == |was| - |entries|
        invariant released == 0 ==> log == old(log)
      {
        UnsettledNext(was, hashes, order, i);
        var e := entries[order[i]];
        if e.keyHash in hashes {
          Fewer(entries, order[i]);
          AppendRecord(EncodeDrop(e.owner, e.keyHash));
          entries := entries - {order[i]};
          released := released + 1;
        }
      }
    }
  }

  lemma Fewer(m: Held, k: bytes)
    requires k in m
    ensures |m - {k}| == |m| - 1
  {
    assert (m - {k}).Keys == m.Keys - {k};
    assert |m| == |m.Keys| && |m - {k}| == |(m - {k}).Keys|;
  }

  /** With the keys in `done` already considered. */
  function UnsettledUpTo(m: Held, hashes: set<bytes>, done: seq<bytes>): Held {
    map k | k in m && !(k in done && m[k].keyHash in hashes) :: m[k]
  }

  lemma UnsettledNext(m: Held, hashes: set<bytes>, order: seq<bytes>, i: nat)
    requires i < |order| && Lists(order, m.Keys)
    ensures order[i] in UnsettledUpTo(m, hashes, order[..i])
    ensures UnsettledUpTo(m, hashes, order[..i + 1]) ==
      if m[order[i]].keyHash in hashes then UnsettledUpTo(m, hashes, order[..i]) - {order[i]}
      else UnsettledUpTo(m, hashes, order[..i])
  {
    assert order[i] in order;
    assert order[..i + 1] == order[..i] + [order[i]];
    assert order[i] !in order[..i];
  }

  lemma UnsettledAll(m: Held, hashes: set<bytes>, order: seq<bytes>)
    requires Lists(order, m.Keys)
    ensures UnsettledUpTo(m, hashes, order[..|order|]) == Unsettled(m, hashes)
    ensures UnsettledUpTo(m, hashes, order[..0]) == m
  {
    assert order[..|order|] == order;
  }

  lemma NoneSettled(m: Held)
    ensures Unsettled(m, {}) == m
  {
  }

  function DropBodies(drops: seq<Envelope>): (r: seq<bytes>)
    ensures |r| == |drops|
  {
    if drops == [] then [] else
    var e := drops[|drops| - 1];
    DropBodies(drops[..|drops| - 1]) + [EncodeDrop(e.owner, e.keyHash)]
  }

  lemma DropsNext(crc: Crc, log: bytes, drops: seq<Envelope>, i: nat)
    requires i < |drops|
    ensures log + Frames(crc, Records(), DropBodies(drops[..i + 1])) ==
      log + Frames(crc, Records(), DropBodies(drops[..i])) +
      Frame(crc, Records(), EncodeDrop(drops[i].owner, drops[i].keyHash))
  {
    var body := EncodeDrop(drops[i].owner, drops[i].keyHash);
    assert drops[..i + 1][..i] == drops[..i];
    FramesAppend(crc, Records(), DropBodies(drops[..i]), [body]);
    FramesOne(crc, Records(), body);
    AppendAssociates(log, Frames(crc, Records(), DropBodies(drops[..i])), Frame(crc, Records(), body));
  }

  /** The expired entries, in the order they are met. */
  function ExpiredIn(m: Held, order: seq<bytes>, now: int): seq<Envelope>
    requires forall k :: k in order ==> k in m
  {
    if order == [] then [] else
    var n := |order| - 1;
    assert order[n] in order;
    ExpiredIn(m, order[..n], now) + if Expired(m[order[n]], now) then [m[order[n]]] else []
  }

  /** Takes the expired entries out of the map. */
  method CollectExpired(m: Held, order: seq<bytes>, now: int) returns (drops: seq<Envelope>, left: Held)
    requires Lists(order, m.Keys)
    ensures drops == ExpiredIn(m, order, now) && left == Lasting(m, now) && |drops| == |m| - |left|
  {
    drops, left := [], m;
    ghost var done: seq<bytes> := [];
    LastingAll(m, now, order);
    for i := 0 to |order|
      invariant done == order[..i] && left == LastingUpTo(m, now, done)
      invariant (forall k :: k in done ==> k in m) && drops == ExpiredIn(m, done, now) && |drops| == |m| - |left|
    {
      var k := order[i];
      ListedKey(m, order, i);
      LastingNext(m, now, done, k);
      ExpiredNext(m, done, k, now);
      var e := left[k];
      if Expired(e, now) {
        Fewer(left, k);
        drops, left := drops + [e], left - {k};
      }
      PrefixNext(order, i);
      done := done + [k];
    }
    assert done == order;
  }

  lemma ExpiredNext(m: Held, done: seq<bytes>, k: bytes, now: int)
    requires k in m && forall x :: x in done ==> x in m
    ensures (forall x :: x in done + [k] ==> x in m) &&
      ExpiredIn(m, done + [k], now) == ExpiredIn(m, done, now) + if Expired(m[k], now) then [m[k]] else []
  {
    assert (done + [k])[..|done|] == done;
  }

  function LastingUpTo(m: Held, now: int, done: seq<bytes>): Held {
    map k | k in m && !(k in done && Expired(m[k], now)) :: m[k]
  }

  lemma ListedKey(m: Held, order: seq<bytes>, i: nat)
    requires i < |order| && Lists(order, m.Keys)
    ensures order[i] in m && order[i] !in order[..i]
  {
    assert order[i] in order;
  }

  lemma LastingNext(m: Held, now: int, done: seq<bytes>, k: bytes)
    requires k in m && k !in done
    ensures k in LastingUpTo(m, now, done) && LastingUpTo(m, now, done)[k] == m[k]
    ensures LastingUpTo(m, now, done + [k]) ==
      if Expired(m[k], now) then LastingUpTo(m, now, done) - {k} else LastingUpTo(m, now, done)
  {
  }

  lemma LastingAll(m: Held, now: int, order: seq<bytes>)
    requires Lists(order, m.Keys)
    ensures LastingUpTo(m, now, order) == Lasting(m, now) && LastingUpTo(m, now, []) == m
  {
  }

  method MakeFrame(crc: Crc, body: bytes) returns (frame: bytes)
    ensures frame == Frame(crc, Records(), body)
  {
    frame := U32(|body|) + body;
    frame := frame + U32(crc(body));
  }

  method LiveRows(crc: Crc, m: Held, order: seq<bytes>) returns (out: bytes)
    requires forall k :: k in order ==> k in m
    ensures out == Frames(crc, Records(), Bodies(m, order))
  {
    out := [];
    for i := 0 to |order|
      invariant out == Frames(crc, Records(), Bodies(m, order[..i]))
    {
      BodiesSnoc(crc, m, order, i);
      var frame := MakeFrame(crc, EncodeHold(m[order[i]]));
      out := out + frame;
    }
    assert order[..|order|] == order;
  }

  lemma BodiesSnoc(crc: Crc, m: Held, order: seq<bytes>, i: nat)
    requires i < |order| && forall k :: k in order ==> k in m
    ensures order[i] in m && Frames(crc, Records(), Bodies(m, order[..i + 1])) ==
      Frames(crc, Records(), Bodies(m, order[..i])) + Frame(crc, Records(), EncodeHold(m[order[i]]))
  {
    assert order[i] in order;
    assert order[..i + 1][..i] == order[..i];
    FramesAppend(crc, Records(), Bodies(m, order[..i]), [EncodeHold(m[order[i]])]);
    FramesOne(crc, Records(), EncodeHold(m[order[i]]));
  }

  /** Reads the log from the start; a corrupt one is rewritten with what was read,
      and then loads to it exactly when every envelope is in range. */
  method Load(crc: Crc, log: bytes, order: Held -> seq<bytes>) returns (entries: Held, corrupt: bool, log': bytes)
    requires forall m :: Lists(order(m), m.Keys)
    ensures (entries, corrupt) == Restored(crc, log) && Lists(order(entries), entries.Keys)
    ensures Store(log', entries) == Loaded(crc, log, order(entries))
    ensures corrupt ==>
      (Restored(crc, log') == (entries, false) <==> forall k :: k in entries ==> |EncodeHold(entries[k])| <= RECORD_CAP)
  {
    entries, corrupt := map[], false;
    var off := 0;
    ghost var t := log;
    assert log[0..] == log;
    while true
      invariant 0 <= off <= |log| && t == log[off..] && !corrupt
      invariant Restored(crc, log) == RestoredFrom(crc, entries, t)
      decreases |log| - off
    {
      var next := Reencryption.NextRecord(crc, Records(), log[off..]);
      RestoredNext(crc, entries, t, next);
      if next.Torn? { break; }
      if next.Bad? || Reencryption.LooksSealed(next.payload) {
        corrupt := true;
        break;
      }
      entries := ApplyBody(entries, next.payload);
      Reencryption.SuffixSuffix(log, off, next.size);
      off, t := off + next.size, t[next.size..];
    }
    log' := log;
    if corrupt {
      HealedExactly(crc, log, order(entries));
      log' := LiveRows(crc, entries, order(entries));
    }
  }

  method ApplyBody(entries: Held, body: bytes) returns (entries': Held)
    ensures entries' == Applied(entries, body)
  {
    entries' := entries;
    match DecodeBody(body)
    case None =>
    case Some(Hold(e)) => entries' := entries[MapKey(e.owner, e.keyHash) := e];
    case Some(Drop(owner, keyHash)) => entries' := entries - {MapKey(owner, keyHash)};
  }

  // ------------------------------------------------------------------
  // Log and map together
  // ------------------------------------------------------------------

  /** The log is whole current records in range, and loads to the map. */
  ghost predicate Tidy(crc: Crc, s: Store) {
    exists bodies :: Faithful(crc, s.log, bodies, s.entries)
  }

  /** A tidy store loads to its map, which is in order. */
  lemma TidyLoads(crc: Crc, s: Store)
    requires Tidy(crc, s)
    ensures Restored(crc, s.log) == (s.entries, false) && Keyed(s.entries)
    ensures ReadLog(crc, Records(), s.log).tail == []
  {
    var bodies :| Faithful(crc, s.log, bodies, s.entries);
    FaithfulRestores(crc, s.log, bodies, s.entries);
    FaithfulKeyed(crc, s.log, bodies, s.entries);
    ReadFrames(crc, Records(), bodies, []);
    assert s.log + [] == s.log;
    assert Head(crc, Records(), []) == Torn;
  }

  /** Holding keeps log and map together exactly when the envelope is storable. */
  lemma HoldingExactly(crc: Crc, s: Store, e: Envelope)
    requires Tidy(crc, s) && |EncodeHold(e)| < U32_LIMIT
    ensures Tidy(crc, Holding(crc, s, e)) <==> Storable(e)
    ensures Restored(crc, Holding(crc, s, e).log) == (Holding(crc, s, e).entries, false) <==> Storable(e)
  {
    var bodies :| Faithful(crc, s.log, bodies, s.entries);
    HeldExactly(crc, s.log, bodies, s.entries, e);
    if Storable(e) {
      HeldStorable(crc, s.log, bodies, s.entries, e);
    } else if Tidy(crc, Holding(crc, s, e)) {
      TidyLoads(crc, Holding(crc, s, e));
    }
  }

  /** Chunk 0 of 0: it is held, and gone after a reload. */
  function Uncounted(): Envelope {
    Envelope([1], [], [], seq(HASH_BYTES, _ => 0), [], [], 0, 0, 0, 0, 0, [], [], [])
  }

  lemma UncountedIsLost(crc: Crc)
    ensures Owned(Uncounted().owner, Uncounted().keyHash)
    ensures Restored(crc, Holding(crc, Store([], map[]), Uncounted()).log) == (map[], false)
  {
    var e := Uncounted();
    NamesLength(e);
    TailLength(e);
    HoldBody(e);
    assert Faithful(crc, [], [], map[]);
    NotReplayed(crc, [], [], map[], EncodeHold(e));
  }

  /** A document as long as a whole record: it is held, and the log is corrupt. */
  lemma OversizeCorrupts(crc: Crc, e: Envelope)
    requires e == Uncounted().(total := 1, doc := seq(RECORD_CAP, _ => 0))
    ensures Owned(e.owner, e.keyHash) && Restored(crc, Holding(crc, Store([], map[]), e).log).1
  {
    NamesLength(e);
    TailLength(e);
    assert Faithful(crc, [], [], map[]);
    HeldOversize(crc, [], [], map[], EncodeHold(e));
  }

  lemma NamesLength(e: Envelope)
    ensures |Blobs(Names(e))| ==
      24 + |e.owner| + |e.collection| + |e.key| + |e.keyHash| + |e.doc| + |e.holder|
  {
    var n := Names(e);
    BlobsSplit(n);
    BlobsSplit(n[1..]);
    BlobsSplit(n[2..]);
    BlobsSplit(n[3..]);
    BlobsSplit(n[4..]);
    BlobsSplit(n[5..]);
    assert n[1..][1..] == n[2..] && n[2..][1..] == n[3..] && n[3..][1..] == n[4..] && n[4..][1..] == n[5..];
    var last: seq<bytes> := n[5..];
    assert last[1..] == [];
  }

  lemma BlobsSplit(bs: seq<bytes>)
    requires bs != []
    ensures |Blobs(bs)| == 4 + |bs[0]| + |Blobs(bs[1..])|
  {
  }

  /** A rewritten store is tidy exactly when its rows are storable, under their
      own keys; this does not depend on what the log was. */
  lemma RewrittenTidy(crc: Crc, m: Held, order: seq<bytes>)
    requires Lists(order, m.Keys)
    ensures Tidy(crc, Rewritten(crc, m, order)) <==> Keyed(m)
  {
    if Keyed(m) {
      CompactedFaithful(crc, m, order);
    } else if Tidy(crc, Rewritten(crc, m, order)) {
      TidyLoads(crc, Rewritten(crc, m, order));
    }
  }

  lemma SameSize(m: Held, left: Held)
    requires left.Keys <= m.Keys && (forall k :: k in left ==> left[k] == m[k]) && |left| == |m|
    ensures left == m
  {
    assert m.Keys == left.Keys + (m.Keys - left.Keys);
    assert |m.Keys| == |left.Keys| + |m.Keys - left.Keys|;
  }

  /** Dropping rows keeps a tidy store tidy; if any go, it makes an untidy store
      tidy exactly when the rest is storable. */
  lemma KeepingTidy(crc: Crc, s: Store, left: Held, order: seq<bytes>)
    requires left.Keys <= s.entries.Keys && forall k :: k in left ==> left[k] == s.entries[k]
    requires Lists(order, left.Keys)
    ensures Tidy(crc, s) ==> Tidy(crc, Keeping(crc, s, left, order))
    ensures left != s.entries ==> (Tidy(crc, Keeping(crc, s, left, order)) <==> Keyed(left))
    ensures left == s.entries ==> Keeping(crc, s, left, order) == s
  {
    if left != s.entries {
      if |left| == |s.entries| { SameSize(s.entries, left); }
      RewrittenTidy(crc, left, order);
      if Tidy(crc, s) {
        TidyLoads(crc, s);
        SomeKeyed(s.entries, left);
      }
    }
  }

  lemma SomeKeyed(m: Held, left: Held)
    requires Keyed(m) && left.Keys <= m.Keys && forall k :: k in left ==> left[k] == m[k]
    ensures Keyed(left)
  {
  }

  /** The drops of these keys logged and nothing rewritten yet. */
  function AfterDrops(crc: Crc, s: Store, now: int, done: seq<bytes>): Store
    requires forall k :: k in done ==> k in s.entries
  {
    Store(s.log + Frames(crc, Records(), DropBodies(ExpiredIn(s.entries, done, now))),
          LastingUpTo(s.entries, now, done))
  }

  lemma AfterDropsNext(crc: Crc, s: Store, now: int, done: seq<bytes>, k: bytes)
    requires k in s.entries && k !in done && forall x :: x in done ==> x in s.entries
    ensures (forall x :: x in done + [k] ==> x in s.entries) && k in AfterDrops(crc, s, now, done).entries
    ensures AfterDrops(crc, s, now, done).entries[k] == s.entries[k]
    ensures AfterDrops(crc, s, now, done + [k]) ==
      if Expired(s.entries[k], now) then DroppedOne(crc, AfterDrops(crc, s, now, done), k)
      else AfterDrops(crc, s, now, done)
  {
    ExpiredNext(s.entries, done, k, now);
    LastingNext(s.entries, now, done, k);
    if Expired(s.entries[k], now) {
      DropsSnoc(crc, s.log, ExpiredIn(s.entries, done, now), s.entries[k]);
    } else {
      AppendNone(ExpiredIn(s.entries, done, now));
    }
  }

  function DroppedOne(crc: Crc, s: Store, k: bytes): Store
    requires k in s.entries
  {
    Logged(crc, s, EncodeDrop(s.entries[k].owner, s.entries[k].keyHash)).(entries := s.entries - {k})
  }

  lemma DropsSnoc(crc: Crc, log: bytes, drops: seq<Envelope>, e: Envelope)
    ensures log + Frames(crc, Records(), DropBodies(drops + [e])) ==
      log + Frames(crc, Records(), DropBodies(drops)) + Frame(crc, Records(), EncodeDrop(e.owner, e.keyHash))
  {
    var more := drops + [e];
    DropsNext(crc, log, more, |drops|);
    assert more[..|drops|] == drops && more[..|drops| + 1] == more;
  }

  lemma {:induction false} DropsTidy(crc: Crc, s: Store, now: int, order: seq<bytes>, done: seq<bytes>, i: nat)
    requires Tidy(crc, s) && Lists(order, s.entries.Keys) && i <= |order| && done == order[..i]
    ensures (forall k :: k in done ==> k in s.entries) && Tidy(crc, AfterDrops(crc, s, now, done))
    decreases i
  {
    if i == 0 {
      AppendNone(s.log);
      LastingAll(s.entries, now, order);
      assert done == [];
    } else {
      var before, k := order[..i - 1], order[i - 1];
      DropsTidy(crc, s, now, order, before, i - 1);
      ListedKey(s.entries, order, i - 1);
      PrefixNext(order, i - 1);
      AfterDropsNext(crc, s, now, before, k);
      if Expired(s.entries[k], now) { OneDropTidy(crc, AfterDrops(crc, s, now, before), k); }
    }
  }

  lemma OneDropTidy(crc: Crc, s: Store, k: bytes)
    requires Tidy(crc, s) && k in s.entries
    ensures Tidy(crc, DroppedOne(crc, s, k))
  {
    var bodies :| Faithful(crc, s.log, bodies, s.entries);
    FaithfulKeyed(crc, s.log, bodies, s.entries);
    DropApplies(s.entries, k);
    Appended(crc, s.log, bodies, s.entries, EncodeDrop(s.entries[k].owner, s.entries[k].keyHash), s.entries - {k});
  }

  /** The drops are logged before the log is rewritten: should the rewrite never
      happen, the log already loads to what is left. */
  lemma DropsLoad(crc: Crc, s: Store, now: int, order: seq<bytes>)
    requires Tidy(crc, s) && Lists(order, s.entries.Keys)
    ensures Restored(crc, s.log + Frames(crc, Records(), DropBodies(ExpiredIn(s.entries, order, now)))) ==
      (Lasting(s.entries, now), false)
  {
    DropsTidy(crc, s, now, order, order, |order|);
    LastingAll(s.entries, now, order);
    TidyLoads(crc, AfterDrops(crc, s, now, order));
  }

  /** Reloading a tidy store changes nothing. */
  lemma ReloadUnchanged(crc: Crc, s: Store, order: seq<bytes>)
    requires Tidy(crc, s) && forall k :: k in order ==> k in Restored(crc, s.log).0
    ensures Loaded(crc, s.log, order) == s
  {
    TidyLoads(crc, s);
  }

  /** The log is cut at a byte and loaded: the map is the one after some prefix of
      the records.  The store is tidy exactly when the cut left no torn tail. */
  lemma CutExactly(crc: Crc, s: Store, n: nat)
    requires Tidy(crc, s) && n <= |s.log|
    ensures !Restored(crc, s.log[..n]).1
    ensures Tidy(crc, Store(s.log[..n], Restored(crc, s.log[..n]).0)) <==>
      ReadLog(crc, Records(), s.log[..n]).tail == []
  {
    var bodies :| Faithful(crc, s.log, bodies, s.entries);
    var k, tail := CutRestores(crc, bodies, n);
    var t := Store(s.log[..n], Restored(crc, s.log[..n]).0);
    if tail == [] {
      assert t.log == Frames(crc, Records(), bodies[..k]);
      assert Faithful(crc, t.log, bodies[..k], t.entries);
    } else if Tidy(crc, t) {
      TidyLoads(crc, t);
    }
  }

  /** A record appended to a torn tail is read as part of it.  While the torn
      record's length is not reached, what is held is not there after a reload. */
  lemma TornTailHides(crc: Crc, lost: Envelope, n: nat, e: Envelope)
    requires |EncodeHold(lost)| <= RECORD_CAP && 4 <= n && n + |EncodeHold(e)| < |EncodeHold(lost)|
    ensures var torn := Frame(crc, Records(), EncodeHold(lost))[..n];
      && Restored(crc, torn) == (map[], false)
      && Restored(crc, Holding(crc, Store(torn, map[]), e).log) == (map[], false)
  {
    var body := EncodeHold(lost);
    var frame := Frame(crc, Records(), body);
    var torn := frame[..n];
    var log := torn + Frame(crc, Records(), EncodeHold(e));
    FrameParts(crc, Records(), body, []);
    assert frame + [] == frame;
    assert torn[..4] == frame[..4] && log[..4] == frame[..4];
    assert Head(crc, Records(), torn) == Torn && Head(crc, Records(), log) == Torn;
  }

  // ------------------------------------------------------------------
  // Every run
  // ------------------------------------------------------------------

  datatype Op =
    | Hold(e: Envelope)
    | Expire(now: int, live: seq<bytes>)
    | Release(hashes: set<bytes>, left: seq<bytes>)
    | Reload(order: seq<bytes>)
    | Crash(at: nat)

  /** Envelopes have an owner and a hash, orders list the rows there are. */
  ghost predicate Possible(crc: Crc, s: Store, op: Op) {
    match op
    case Hold(e) => Owned(e.owner, e.keyHash) && |EncodeHold(e)| < U32_LIMIT
    case Expire(now, live) => Lists(live, Lasting(s.entries, now).Keys)
    case Release(hashes, left) => Lists(left, Unsettled(s.entries, hashes).Keys)
    case Reload(order) => Lists(order, Restored(crc, s.log).0.Keys)
    case Crash(at) => at <= |s.log| && !Restored(crc, s.log[..at]).1
  }

  ghost function Step(crc: Crc, s: Store, op: Op): Store
    requires Possible(crc, s, op)
  {
    match op
    case Hold(e) => Holding(crc, s, e)
    case Expire(now, live) => Keeping(crc, s, Lasting(s.entries, now), live)
    case Release(hashes, left) => Keeping(crc, s, Unsettled(s.entries, hashes), left)
    case Reload(order) => Loaded(crc, s.log, order)
    case Crash(at) => Store(s.log[..at], Restored(crc, s.log[..at]).0)
  }

  /** Held envelopes are storable, and a crash leaves no torn tail. */
  ghost predicate Proper(crc: Crc, s: Store, op: Op) {
    match op
    case Hold(e) => Storable(e)
    case Crash(at) => at <= |s.log| && ReadLog(crc, Records(), s.log[..at]).tail == []
    case _ => true
  }

  /** What the operation does to a map that is simply kept. */
  function Plain(m: Held, op: Op): Held {
    match op
    case Hold(e) => m[MapKey(e.owner, e.keyHash) := e]
    case Expire(now, _) => Lasting(m, now)
    case Release(hashes, _) => Unsettled(m, hashes)
    case _ => m
  }

  lemma StepExactly(crc: Crc, s: Store, op: Op)
    requires Tidy(crc, s) && Possible(crc, s, op)
    ensures Tidy(crc, Step(crc, s, op)) <==> Proper(crc, s, op)
  {
    match op
    case Hold(e) => HoldingExactly(crc, s, e);
    case Expire(now, live) => KeepingTidy(crc, s, Lasting(s.entries, now), live);
    case Release(hashes, left) => KeepingTidy(crc, s, Unsettled(s.entries, hashes), left);
    case Reload(order) => ReloadUnchanged(crc, s, order);
    case Crash(at) => CutExactly(crc, s, at);
  }

  lemma StepEntries(crc: Crc, s: Store, op: Op)
    requires Possible(crc, s, op) && !op.Crash? && Restored(crc, s.log).0 == s.entries
    ensures Step(crc, s, op).entries == Plain(s.entries, op)
  {
    match op
    case Hold(e) => HoldingEntries(crc, s, e);
    case Expire(now, live) => KeepingEntries(crc, s, Lasting(s.entries, now), live);
    case Release(hashes, left) => KeepingEntries(crc, s, Unsettled(s.entries, hashes), left);
    case Reload(order) => LoadedEntries(crc, s.log, order);
  }

  lemma HoldingEntries(crc: Crc, s: Store, e: Envelope)
    ensures Holding(crc, s, e).entries == s.entries[MapKey(e.owner, e.keyHash) := e]
  {
  }

  lemma KeepingEntries(crc: Crc, s: Store, left: Held, order: seq<bytes>)
    requires forall k :: k in order ==> k in left
    ensures Keeping(crc, s, left, order).entries == left
  {
  }

  lemma LoadedEntries(crc: Crc, log: bytes, order: seq<bytes>)
    requires forall k :: k in order ==> k in Restored(crc, log).0
    ensures Loaded(crc, log, order).entries == Restored(crc, log).0
  {
  }

  ghost predicate Run(crc: Crc, s: Store, ops: seq<Op>, end: Store)
    decreases |ops|
  {
    if ops == [] then end == s
    else Possible(crc, s, ops[0]) && Run(crc, Step(crc, s, ops[0]), ops[1..], end)
  }

  ghost predicate AlwaysTidy(crc: Crc, s: Store, ops: seq<Op>)
    decreases |ops|
  {
    Tidy(crc, s) && (ops != [] ==> Possible(crc, s, ops[0]) && AlwaysTidy(crc, Step(crc, s, ops[0]), ops[1..]))
  }

  ghost predicate AlwaysProper(crc: Crc, s: Store, ops: seq<Op>)
    decreases |ops|
  {
    ops != [] ==>
      Possible(crc, s, ops[0]) && Proper(crc, s, ops[0]) && AlwaysProper(crc, Step(crc, s, ops[0]), ops[1..])
  }

  function PlainRun(m: Held, ops: seq<Op>): Held
    decreases |ops|
  {
    if ops == [] then m else PlainRun(Plain(m, ops[0]), ops[1..])
  }

  predicate NoCrash(ops: seq<Op>) {
    forall i :: 0 <= i < |ops| ==> !ops[i].Crash?
  }

  /** Log and map stay together all through a run exactly when every envelope held
      is storable and no crash leaves a torn tail.  Then the log alone gives the
      map back, and without crashes that is the map simply kept, reloads and
      compactions notwithstanding. */
  lemma {:induction false} RunExactly(crc: Crc, s: Store, ops: seq<Op>, end: Store)
    requires Tidy(crc, s) && Run(crc, s, ops, end)
    ensures AlwaysTidy(crc, s, ops) <==> AlwaysProper(crc, s, ops)
    ensures AlwaysProper(crc, s, ops) ==> Restored(crc, end.log) == (end.entries, false)
    ensures AlwaysProper(crc, s, ops) && NoCrash(ops) ==> end.entries == PlainRun(s.entries, ops)
    decreases |ops|
  {
    if ops == [] {
      TidyLoads(crc, s);
    } else {
      var t := Step(crc, s, ops[0]);
      StepExactly(crc, s, ops[0]);
      TidyLoads(crc, s);
      if !ops[0].Crash? { StepEntries(crc, s, ops[0]); }
      if Proper(crc, s, ops[0]) {
        RunExactly(crc, t, ops[1..], end);
        assert NoCrash(ops) ==> !ops[0].Crash? && NoCrash(ops[1..]);
      } else {
        assert !AlwaysTidy(crc, t, ops[1..]);
      }
    }
  }

  /** Every run from an empty store. */
  lemma EveryRun(crc: Crc, ops: seq<Op>, end: Store)
    requires Run(crc, Store([], map[]), ops, end)
    ensures AlwaysTidy(crc, Store([], map[]), ops) <==> AlwaysProper(crc, Store([], map[]), ops)
    ensures AlwaysProper(crc, Store([], map[]), ops) ==>
      Restored(crc, end.log) == (end.entries, false) && (NoCrash(ops) ==> end.entries == PlainRun(map[], ops))
  {
    assert Faithful(crc, [], [], map[]);
    RunExactly(crc, Store([], map[]), ops, end);
  }
}
