/** What a log of transit records stands for: the map it loads to, which envelopes
    survive a reload, and what a cut or a rewrite leaves.
 */
module TransitLogs {
  import opened Wrappers
  import opened Sequences
  import opened ByteStrings
  import opened FramedLogs
  import opened TransitCodec
  import Reencryption

  const RECORD_CAP := 0x10_0000

  type Held = map<bytes, Envelope>

  function Records(): (f: Format)
    ensures Usable(f) && !f.inside
  {
    Format(false, 1, RECORD_CAP)
  }

  // ------------------------------------------------------------------
  // What a log stands for
  // ------------------------------------------------------------------

  function Applied(m: Held, body: bytes): Held {
    match DecodeBody(body)
    case None => m
    case Some(Hold(e)) => m[MapKey(e.owner, e.keyHash) := e]
    case Some(Drop(owner, keyHash)) => m - {MapKey(owner, keyHash)}
  }

  /** In order; a record that looks sealed stops the load. */
  function Replayed(m: Held, bodies: seq<bytes>): (Held, bool)
    decreases |bodies|
  {
    if bodies == [] then (m, false)
    else if Reencryption.LooksSealed(bodies[0]) then (m, true)
    else Replayed(Applied(m, bodies[0]), bodies[1..])
  }

  /** The map a log loads to, and whether it was found corrupt. */
  function Restored(crc: Crc, log: bytes): (Held, bool) {
    var r := ReadLog(crc, Records(), log);
    var (m, stopped) := Replayed(map[], r.records);
    (m, stopped || r.corrupt)
  }

  predicate NoneSealed(bodies: seq<bytes>) {
    forall i :: 0 <= i < |bodies| ==> !Reencryption.LooksSealed(bodies[i])
  }

  lemma {:induction false} ReplayedAppend(m: Held, a: seq<bytes>, b: seq<bytes>)
    requires NoneSealed(a)
    ensures !Replayed(m, a).1 && Replayed(m, a + b) == Replayed(Replayed(m, a).0, b)
    decreases |a|
  {
    if a == [] {
      assert a + b == b;
    } else {
      assert (a + b)[1..] == a[1..] + b;
      ReplayedAppend(Applied(m, a[0]), a[1..], b);
    }
  }

  lemma ReplayedSnoc(m: Held, a: seq<bytes>, body: bytes)
    requires NoneSealed(a) && !Reencryption.LooksSealed(body)
    ensures Replayed(m, a + [body]) == (Applied(Replayed(m, a).0, body), false)
  {
    ReplayedAppend(m, a, [body]);
    assert [body][1..] == [];
  }

  /** A log of whole records in range loads to what they say. */
  lemma RestoredFrames(crc: Crc, bodies: seq<bytes>)
    requires AllFit(Records(), bodies) && NoneSealed(bodies)
    ensures Restored(crc, Frames(crc, Records(), bodies)) == (Replayed(map[], bodies).0, false)
  {
    ReadFrames(crc, Records(), bodies, []);
    assert Frames(crc, Records(), bodies) + [] == Frames(crc, Records(), bodies);
    assert bodies + [] == bodies;
    ReplayedAppend(map[], bodies, []);
    assert Head(crc, Records(), []) == Torn;
  }

  /** Cut at any byte, it loads to the state after some prefix of its records,
      and the rest is the torn tail. */
  lemma CutRestores(crc: Crc, bodies: seq<bytes>, n: nat) returns (k: nat, tail: bytes)
    requires AllFit(Records(), bodies) && NoneSealed(bodies) && n <= |Frames(crc, Records(), bodies)|
    ensures k <= |bodies|
    ensures Restored(crc, Frames(crc, Records(), bodies)[..n]) == (Replayed(map[], bodies[..k]).0, false)
    ensures Frames(crc, Records(), bodies)[..n] == Frames(crc, Records(), bodies[..k]) + tail
    ensures ReadLog(crc, Records(), Frames(crc, Records(), bodies)[..n]).tail == tail
    ensures n == |Frames(crc, Records(), bodies)| ==> k == |bodies|
  {
    k, tail := CutLog(crc, Records(), bodies, n);
    assert NoneSealed(bodies[..k]);
    ReplayedAppend(map[], bodies[..k], []);
  }

  // ------------------------------------------------------------------
  // Which envelopes survive a reload
  // ------------------------------------------------------------------

  /** Sound, and within the length the reader accepts. */
  predicate Storable(e: Envelope) {
    Sound(e) && |EncodeHold(e)| <= RECORD_CAP
  }

  predicate Keyed(m: Held) {
    forall k :: k in m ==> k == MapKey(m[k].owner, m[k].keyHash) && Storable(m[k])
  }

  lemma {:induction false} BlobsBound(bs: seq<bytes>)
    ensures forall i :: 0 <= i < |bs| ==> |bs[i]| <= |Blobs(bs)|
  {
    if bs != [] {
      BlobsBound(bs[1..]);
      assert forall i :: 0 < i < |bs| ==> bs[i] == bs[1..][i - 1];
    }
  }

  lemma HoldBody(e: Envelope)
    requires |EncodeHold(e)| < U32_LIMIT
    ensures !Reencryption.LooksSealed(EncodeHold(e))
    ensures DecodeBody(EncodeHold(e)) == if Sound(e) then Some(Hold(e)) else None
    ensures Fits(Records(), EncodeHold(e)) <==> |EncodeHold(e)| <= RECORD_CAP
    ensures CurrentBody(EncodeHold(e))
  {
    BlobsBound(Names(e));
    BlobsBound(Tail(e));
    HoldReadsBack(e);
    NotSealed(3, 1, Blobs(Names(e)) + (Numbers(e) + Blobs(Tail(e))));
  }

  lemma NotSealed(version: u32, kind: byte, t: bytes)
    ensures !Reencryption.LooksSealed(Header(version, kind) + t)
  {
    assert EncodeLE(MAGIC, 4)[0] == 84;
    assert (Header(version, kind) + t)[0] == 84;
  }

  lemma DropBody(owner: bytes, keyHash: bytes)
    requires Owned(owner, keyHash) && |owner| + 64 <= RECORD_CAP
    ensures !Reencryption.LooksSealed(EncodeDrop(owner, keyHash)) && Fits(Records(), EncodeDrop(owner, keyHash))
    ensures DecodeBody(EncodeDrop(owner, keyHash)) == Some(Drop(owner, keyHash))
  {
    DropReadsBack(owner, keyHash);
    NotSealed(3, 2, Blobs([owner, keyHash]));
    assert [owner, keyHash][1..] == [keyHash] && [keyHash][1..] == [];
    assert Blobs([keyHash]) == Blob(keyHash) + [];
  }

  /** A storable envelope's owner leaves room for its own drop record. */
  lemma OwnerFits(e: Envelope)
    requires Storable(e)
    ensures |e.owner| + 64 <= RECORD_CAP
  {
    var n := Names(e);
    assert n[1..] == [e.collection, e.key, e.keyHash, e.doc, e.holder];
    assert |Blobs(n)| == 4 + |e.owner| + |Blobs(n[1..])|;
    BlobsBound(n[1..]);
    assert n[1..][2] == e.keyHash;
  }

  // ------------------------------------------------------------------
  // Compaction
  // ------------------------------------------------------------------

  /** Every key once, in some order. */
  ghost predicate Lists(order: seq<bytes>, keys: set<bytes>) {
    && (forall i, j :: 0 <= i < j < |order| ==> order[i] != order[j])
    && (forall k :: k in order <==> k in keys)
  }

  function Bodies(m: Held, order: seq<bytes>): (r: seq<bytes>)
    requires forall k :: k in order ==> k in m
    ensures |r| == |order| && forall i :: 0 <= i < |order| ==> r[i] == EncodeHold(m[order[i]])
  {
    if order == [] then [] else
    var n := |order| - 1;
    assert order[n] in order;
    Bodies(m, order[..n]) + [EncodeHold(m[order[n]])]
  }

  function Only(m: Held, order: seq<bytes>): Held {
    map k | k in m && k in order :: m[k]
  }

  lemma OnlySnoc(m: Held, t: seq<bytes>, k: bytes)
    requires k in m
    ensures Only(m, t + [k]) == Only(m, t)[k := m[k]]
  {
  }

  lemma HoldApplies(m: Held, e: Envelope)
    requires Storable(e)
    ensures Applied(m, EncodeHold(e)) == m[MapKey(e.owner, e.keyHash) := e]
    ensures Fits(Records(), EncodeHold(e)) && !Reencryption.LooksSealed(EncodeHold(e)) && CurrentBody(EncodeHold(e))
  {
    HoldBody(e);
  }

  lemma InRangeSnoc(bodies: seq<bytes>, body: bytes)
    requires NoneSealed(bodies) && AllFit(Records(), bodies) && Fits(Records(), body) && !Reencryption.LooksSealed(body)
    ensures NoneSealed(bodies + [body]) && AllFit(Records(), bodies + [body])
  {
  }

  lemma {:induction false} BodiesReplay(m: Held, order: seq<bytes>)
    requires Keyed(m) && forall k :: k in order ==> k in m
    ensures NoneSealed(Bodies(m, order)) && AllFit(Records(), Bodies(m, order)) && Current(Bodies(m, order))
    ensures Replayed(map[], Bodies(m, order)) == (Only(m, order), false)
  {
    if order == [] {
      assert Only(m, []) == map[];
    } else {
      var n := |order| - 1;
      var t, k := order[..n], order[n];
      assert order == t + [k];
      assert k in order;
      BodiesReplay(m, t);
      BodiesNext(m, t, Bodies(m, t), k);
    }
  }

  lemma BodiesNext(m: Held, t: seq<bytes>, bodies: seq<bytes>, k: bytes)
    requires k in m && Storable(m[k]) && k == MapKey(m[k].owner, m[k].keyHash)
    requires NoneSealed(bodies) && AllFit(Records(), bodies) && Current(bodies)
    requires Replayed(map[], bodies) == (Only(m, t), false)
    ensures var bodies' := bodies + [EncodeHold(m[k])];
      && NoneSealed(bodies') && AllFit(Records(), bodies') && Current(bodies')
      && Replayed(map[], bodies') == (Only(m, t + [k]), false)
  {
    HoldApplies(Only(m, t), m[k]);
    InRangeSnoc(bodies, EncodeHold(m[k]));
    CurrentSnoc(bodies, EncodeHold(m[k]));
    ReplayedSnoc(map[], bodies, EncodeHold(m[k]));
    OnlySnoc(m, t, k);
  }

  lemma OnlyAll(m: Held, order: seq<bytes>)
    requires Lists(order, m.Keys)
    ensures Only(m, order) == m
  {
  }

  /** The compacted log stands for the same map, whatever the order. */
  lemma CompactedFaithful(crc: Crc, m: Held, order: seq<bytes>)
    requires Keyed(m) && Lists(order, m.Keys)
    ensures Faithful(crc, Frames(crc, Records(), Bodies(m, order)), Bodies(m, order), m)
  {
    BodiesReplay(m, order);
    OnlyAll(m, order);
  }

  // ------------------------------------------------------------------
  // Faithful logs
  // ------------------------------------------------------------------

  /** Every envelope is written as it would be written now. */
  predicate Current(bodies: seq<bytes>) {
    forall i :: 0 <= i < |bodies| ==> CurrentBody(bodies[i])
  }

  predicate CurrentBody(body: bytes) {
    var d := DecodeBody(body);
    d.Some? && d.value.Hold? ==> body == EncodeHold(d.value.envelope)
  }

  /** The log is whole current records in range, and loads to the map. */
  ghost predicate Faithful(crc: Crc, log: bytes, bodies: seq<bytes>, m: Held) {
    && log == Frames(crc, Records(), bodies)
    && AllFit(Records(), bodies) && NoneSealed(bodies) && Current(bodies)
    && Replayed(map[], bodies).0 == m
  }

  lemma {:induction false} ReplayedKeyed(m: Held, bodies: seq<bytes>)
    requires Keyed(m) && AllFit(Records(), bodies) && Current(bodies)
    ensures Keyed(Replayed(m, bodies).0)
    decreases |bodies|
  {
    if bodies != [] && !Reencryption.LooksSealed(bodies[0]) {
      AppliedKeyed(m, bodies[0]);
      ReplayedKeyed(Applied(m, bodies[0]), bodies[1..]);
    }
  }

  lemma AppliedKeyed(m: Held, body: bytes)
    requires Keyed(m) && Fits(Records(), body) && CurrentBody(body)
    ensures Keyed(Applied(m, body))
  {
    var d := DecodeBody(body);
    if d.Some? && d.value.Hold? { DecodedSound(body); }
  }

  /** The map of a faithful log has storable envelopes under their own keys. */
  lemma FaithfulKeyed(crc: Crc, log: bytes, bodies: seq<bytes>, m: Held)
    requires Faithful(crc, log, bodies, m)
    ensures Keyed(m)
  {
    ReplayedKeyed(map[], bodies);
  }

  lemma FaithfulRestores(crc: Crc, log: bytes, bodies: seq<bytes>, m: Held)
    requires Faithful(crc, log, bodies, m)
    ensures Restored(crc, log) == (m, false)
  {
    RestoredFrames(crc, bodies);
  }

  lemma Appended(crc: Crc, log: bytes, bodies: seq<bytes>, m: Held, body: bytes, m': Held)
    requires Faithful(crc, log, bodies, m) && Fits(Records(), body) && !Reencryption.LooksSealed(body)
    requires CurrentBody(body) && m' == Applied(m, body)
    ensures Faithful(crc, log + Frame(crc, Records(), body), bodies + [body], m')
  {
    FramesAppend(crc, Records(), bodies, [body]);
    FramesOne(crc, Records(), body);
    ReplayedSnoc(map[], bodies, body);
    InRangeSnoc(bodies, body);
    CurrentSnoc(bodies, body);
  }

  lemma CurrentSnoc(bodies: seq<bytes>, body: bytes)
    requires Current(bodies) && CurrentBody(body)
    ensures Current(bodies + [body])
  {
  }

  /** Holding keeps log and map together exactly when the envelope is storable. */
  lemma HeldStorable(crc: Crc, log: bytes, bodies: seq<bytes>, m: Held, e: Envelope)
    requires Faithful(crc, log, bodies, m) && Storable(e)
    ensures Faithful(crc, log + Frame(crc, Records(), EncodeHold(e)), bodies + [EncodeHold(e)],
                     m[MapKey(e.owner, e.keyHash) := e])
  {
    HoldApplies(m, e);
    Appended(crc, log, bodies, m, EncodeHold(e), m[MapKey(e.owner, e.keyHash) := e]);
  }

  /** An oversize record stops every later load. */
  lemma HeldOversize(crc: Crc, log: bytes, bodies: seq<bytes>, m: Held, body: bytes)
    requires Faithful(crc, log, bodies, m) && RECORD_CAP < |body| < U32_LIMIT
    ensures Restored(crc, log + Frame(crc, Records(), body)).1
  {
    BadRecordStops(crc, Records(), bodies, body, []);
    assert Frame(crc, Records(), body) + [] == Frame(crc, Records(), body);
  }

  lemma HeldExactly(crc: Crc, log: bytes, bodies: seq<bytes>, m: Held, e: Envelope)
    requires Faithful(crc, log, bodies, m) && |EncodeHold(e)| < U32_LIMIT
    ensures var log' := log + Frame(crc, Records(), EncodeHold(e));
      Restored(crc, log') == (m[MapKey(e.owner, e.keyHash) := e], false) <==> Storable(e)
  {
    var body, m' := EncodeHold(e), m[MapKey(e.owner, e.keyHash) := e];
    if Storable(e) {
      HeldStorable(crc, log, bodies, m, e);
      FaithfulRestores(crc, log + Frame(crc, Records(), body), bodies + [body], m');
    } else if |body| <= RECORD_CAP {
      HoldBody(e);
      FaithfulKeyed(crc, log, bodies, m);
      NotReplayed(crc, log, bodies, m, body);
      assert m' != m by { assert m'[MapKey(e.owner, e.keyHash)] == e; }
    } else {
      HeldOversize(crc, log, bodies, m, body);
    }
  }

  /** A record that does not decode is passed over. */
  lemma NotReplayed(crc: Crc, log: bytes, bodies: seq<bytes>, m: Held, body: bytes)
    requires Faithful(crc, log, bodies, m) && Fits(Records(), body) && !Reencryption.LooksSealed(body)
    requires DecodeBody(body) == None
    ensures Restored(crc, log + Frame(crc, Records(), body)) == (m, false)
  {
    Appended(crc, log, bodies, m, body, m);
    FaithfulRestores(crc, log + Frame(crc, Records(), body), bodies + [body], m);
  }

  lemma DropApplies(m: Held, k: bytes)
    requires Keyed(m) && k in m
    ensures var body := EncodeDrop(m[k].owner, m[k].keyHash);
      && Fits(Records(), body) && !Reencryption.LooksSealed(body) && CurrentBody(body)
      && Applied(m, body) == m - {k} && Keyed(m - {k})
  {
    OwnerFits(m[k]);
    DropBody(m[k].owner, m[k].keyHash);
  }

  // ------------------------------------------------------------------
  // Loading
  // ------------------------------------------------------------------

  function RestoredFrom(crc: Crc, m: Held, t: bytes): (Held, bool) {
    var r := ReadLog(crc, Records(), t);
    var (left, stopped) := Replayed(m, r.records);
    (left, stopped || r.corrupt)
  }

  lemma RestoredNext(crc: Crc, m: Held, t: bytes, h: Front)
    requires h == Head(crc, Records(), t)
    ensures h.Torn? ==> RestoredFrom(crc, m, t) == (m, false)
    ensures h.Bad? ==> RestoredFrom(crc, m, t) == (m, true)
    ensures h.Record? && Reencryption.LooksSealed(h.payload) ==> RestoredFrom(crc, m, t) == (m, true)
    ensures h.Record? && !Reencryption.LooksSealed(h.payload) ==>
      RestoredFrom(crc, m, t) == RestoredFrom(crc, Applied(m, h.payload), t[h.size..])
  {
    if h.Record? {
      var rest := ReadLog(crc, Records(), t[h.size..]);
      assert ([h.payload] + rest.records)[1..] == rest.records;
    }
  }

  /** Whatever a log loads to is sound and filed under its own key. */
  predicate Filed(m: Held) {
    forall k :: k in m ==> k == MapKey(m[k].owner, m[k].keyHash) && Sound(m[k])
  }

  lemma DecodedSound(body: bytes)
    requires DecodeBody(body).Some? && DecodeBody(body).value.Hold?
    ensures Sound(DecodeBody(body).value.envelope)
  {
  }

  lemma {:induction false} ReplayedFiled(m: Held, bodies: seq<bytes>)
    requires Filed(m)
    ensures Filed(Replayed(m, bodies).0)
    decreases |bodies|
  {
    if bodies != [] && !Reencryption.LooksSealed(bodies[0]) {
      var d := DecodeBody(bodies[0]);
      if d.Some? && d.value.Hold? { DecodedSound(bodies[0]); }
      ReplayedFiled(Applied(m, bodies[0]), bodies[1..]);
    }
  }

  lemma RestoredFiled(crc: Crc, log: bytes)
    ensures Filed(Restored(crc, log).0)
  {
    ReplayedFiled(map[], ReadLog(crc, Records(), log).records);
  }

  lemma TooLongUnreadable(crc: Crc, m: Held, order: seq<bytes>, k: bytes)
    requires Lists(order, m.Keys) && k in m && |EncodeHold(m[k])| > RECORD_CAP
    requires forall k :: k in m ==> |EncodeHold(m[k])| < U32_LIMIT
    ensures Restored(crc, Frames(crc, Records(), Bodies(m, order))).1
  {
    var bodies := Bodies(m, order);
    var i :| 0 <= i < |order| && order[i] == k;
    assert !Fits(Records(), bodies[i]);
    forall b | b in bodies ensures Length(Records(), b) < U32_LIMIT {
      var j :| 0 <= j < |bodies| && bodies[j] == b;
      assert order[j] in order;
    }
    Reencryption.Unreadable(crc, Records(), bodies, []);
    assert Frames(crc, Records(), bodies) + [] == Frames(crc, Records(), bodies);
  }

  /** A log rewritten with a map's rows loads to that map exactly when they are
      all storable and filed under their own keys. */
  lemma RewrittenExactly(crc: Crc, m: Held, order: seq<bytes>)
    requires Lists(order, m.Keys) && forall k :: k in m ==> |EncodeHold(m[k])| < U32_LIMIT
    ensures Restored(crc, Frames(crc, Records(), Bodies(m, order))) == (m, false) <==> Keyed(m)
  {
    var log := Frames(crc, Records(), Bodies(m, order));
    if Keyed(m) {
      CompactedFaithful(crc, m, order);
      FaithfulRestores(crc, log, Bodies(m, order), m);
    } else if Restored(crc, log) == (m, false) {
      RestoredFiled(crc, log);
      var k :| k in m && !Storable(m[k]);
      TooLongUnreadable(crc, m, order, k);
      assert false;
    }
  }

  /** Re-encoding what was read adds at most the fields old versions lack. */
  lemma {:induction false} ReplayedLengths(m: Held, bodies: seq<bytes>)
    requires AllFit(Records(), bodies) && forall k :: k in m ==> |EncodeHold(m[k])| <= RECORD_CAP + 28
    ensures forall k :: k in Replayed(m, bodies).0 ==> |EncodeHold(Replayed(m, bodies).0[k])| <= RECORD_CAP + 28
    decreases |bodies|
  {
    if bodies != [] && !Reencryption.LooksSealed(bodies[0]) {
      var d := DecodeBody(bodies[0]);
      if d.Some? && d.value.Hold? { DecodedLength(bodies[0]); }
      ReplayedLengths(Applied(m, bodies[0]), bodies[1..]);
    }
  }

  lemma {:induction false} RecordsFit(crc: Crc, t: bytes)
    ensures AllFit(Records(), ReadLog(crc, Records(), t).records)
    decreases |t|
  {
    var h := Head(crc, Records(), t);
    if h.Record? {
      RecordsFit(crc, t[h.size..]);
      var n := DecodeLE(t[..4]);
      assert h.payload == t[4..4 + n];
    }
  }

  /** What a corrupt log is rewritten with loads to what was read from it exactly
      when every envelope, written in the current version, is in range. */
  lemma HealedExactly(crc: Crc, log: bytes, order: seq<bytes>)
    requires Lists(order, Restored(crc, log).0.Keys)
    ensures var m := Restored(crc, log).0;
      Restored(crc, Frames(crc, Records(), Bodies(m, order))) == (m, false) <==>
      forall k :: k in m ==> |EncodeHold(m[k])| <= RECORD_CAP
  {
    var m := Restored(crc, log).0;
    RestoredFiled(crc, log);
    RecordsFit(crc, log);
    ReplayedLengths(map[], ReadLog(crc, Records(), log).records);
    RewrittenExactly(crc, m, order);
  }
}
