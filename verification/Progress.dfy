/** What a single write or delivery achieves at the end of any run: when it is
    stored, what the row then says, and that nothing else changes.
 */
module Progress {
  import opened ByteStrings
  import opened Stamps
  import opened JsonValues
  import opened Documents
  import opened Codec
  import opened Updates
  import opened Clocks
  import opened Engine
  import opened Mesh
  import Lattice
  import Provenance

  /** One row is replaced, or none. */
  ghost predicate OneRow(s: State, s': State, key: bytes, stored: bool) {
    if stored then key in s'.store && s'.store == s.store[key := s'.store[key]] && Decode(s'.store[key]).Some?
    else s'.store == s.store
  }

  /** The row of `key` takes the document, and no other row changes, exactly when storage
      takes it, the key is neither empty nor too long and the document fits a page. */
  ghost predicate Committed(s: State, r: (State, Status), key: bytes, v: Crdt, io: bool) {
    && (r.1.Ok? <==> io && 0 < |key| < 64 && |Encode(v)| <= 4088)
    && OneRow(s, r.0, key, r.1.Ok?)
    && (r.1.Ok? ==> r.0.store[key] == Encode(v) && Meaning(r.0.store[key]) == View(v))
  }

  lemma CommitExactly(hash: bytes -> bytes, s: State, s1: State, key: bytes, v: Crdt, io: bool)
    requires s1.store == s.store
    requires WellFormed(v) && Provenance.Sound(View(v)) && Shallow(v, MAX_DECODE_DEPTH)
    ensures Committed(s, Commit(hash, s1, key, Encode(v), io), key, v, io)
  {
    if |Encode(v)| <= MAX_DOC_BYTES {
      StoredHonest(v);
    }
  }

  // ------------------------------------------------------------------
  // Local writes
  // ------------------------------------------------------------------

  lemma WrittenReads(hash: bytes -> bytes, w: World, step: Step)
    requires Inv(hash, w) && step.LocalWrite? && Legal(w, step)
    ensures var s := w.nodes[step.node];
      && (step.key in s.store ==> Decode(s.store[step.key]).Some?)
      && var v := Written(s, step.key, step.json, step.wall).0;
         && JsonEquals(ToJson(v), step.json)
         && (step.key in s.store ==> Lattice.Join(Meaning(s.store[step.key]), View(v)) == View(v))
  {
    var s := w.nodes[step.node];
    var ts := StampOf(s, step.wall);
    assert NodeOk(hash, w, step.node);
    if step.key in s.store {
      WriteDominates(hash, w, step);
      assert GoodCopy(w, step.key, s.store[step.key]);
      var prev := Decode(s.store[step.key]).value;
      UpdateInflatesAndReads(prev, step.json, ts, s.tags);
      MergeMeansJoin(prev, Apply(prev, step.json, ts, s.tags).0);
    } else {
      BuildGood(step.json, ts, s.tags);
    }
  }

  /** A local write is stored exactly when storage takes it, the key is neither empty nor
      too long and the document fits a page.  The row then means a document that reads as
      the JSON written and has absorbed the old row; nothing else is touched. */
  lemma WriteExactly(hash: bytes -> bytes, w: World, steps: seq<Step>, end: World, step: Step) returns (v: Crdt)
    requires Initial(w) && Run(hash, w, steps, end) && step.LocalWrite? && Legal(end, step)
    ensures var s := end.nodes[step.node];
      var (s', status) := After(hash, s, step);
      && JsonEquals(ToJson(v), step.json)
      && Committed(s, (s', status), step.key, v, step.io)
      && (status.Ok? && step.key in s.store ==>
            Decode(s.store[step.key]).Some? && Lattice.Join(Meaning(s.store[step.key]), View(v)) == View(v))
  {
    var s := end.nodes[step.node];
    ReachableInv(hash, w, steps, end);
    WrittenReads(hash, end, step);
    v := Written(s, step.key, step.json, step.wall).0;
    Stored(hash, end, step, v);
  }

  lemma Stored(hash: bytes -> bytes, w: World, step: Step, v: Crdt)
    requires Inv(hash, w) && step.LocalWrite? && Legal(w, step)
    requires var s := w.nodes[step.node];
      && (step.key in s.store ==> Decode(s.store[step.key]).Some?)
      && v == Written(s, step.key, step.json, step.wall).0
    ensures Committed(w.nodes[step.node], After(hash, w.nodes[step.node], step), step.key, v, step.io)
  {
    var s := w.nodes[step.node];
    WrittenGood(hash, w, step);
    var s1 := s.(clock := Tick(s.clock, step.wall), tags := Written(s, step.key, step.json, step.wall).1);
    CommitExactly(hash, s, s1, step.key, v, step.io);
  }

  // ------------------------------------------------------------------
  // Deliveries
  // ------------------------------------------------------------------

  /** Either counter is at its limit. */
  predicate Saturated(c: Reading, t: Timestamp) {
    c.logical == 0xFFFF_FFFF || t.logical == 0xFFFF_FFFF
  }

  /** No clock and no stamp is past `top`. */
  ghost predicate Steady(w: World, top: nat) {
    && (forall n :: n in w.nodes ==> w.nodes[n].clock.physical <= top)
    && (forall t :: t in w.issued ==> t.physical <= top)
  }

  /** The wall clock, when it is read, shows a time in the five minutes from `low`. */
  predicate InStep(step: Step, low: nat) {
    step.ListDigests? || low <= step.wall <= low + 300000
  }

  lemma CopyStamp(hash: bytes -> bytes, w: World, k: bytes, b: bytes)
    requires Inv(hash, w) && (k, b) in w.sent
    ensures Decode(b).Some? && Meaning(b).ts in w.issued && MaxStamp(Decode(b).value) == Meaning(b).ts
  {
    assert GoodCopy(w, k, b);
    assert Provenance.At(Meaning(b), []).Some?;
    MaxStampIsRoot(Decode(b).value);
  }

  lemma PutClock(hash: bytes -> bytes, s: State, key: bytes, j: Json, wall: u64, io: bool, top: nat)
    requires s.clock.physical <= top && wall <= top
    ensures Put(hash, s, key, j, wall, io).0.clock.physical <= top && StampOf(s, wall).physical <= top
  {
  }

  lemma ReceiveClock(hash: bytes -> bytes, s: State, key: bytes, doc: bytes, wall: u64, io: bool, top: nat)
    requires s.clock.physical <= top && wall <= top
    requires Decode(doc).Some? ==> MaxStamp(Decode(doc).value).physical <= top
    ensures Receive(hash, s, key, doc, wall, io).0.clock.physical <= top
  {
  }

  lemma StepSteady(hash: bytes -> bytes, w: World, step: Step, low: nat)
    requires Inv(hash, w) && Legal(w, step) && Steady(w, low + 300000) && InStep(step, low)
    ensures Steady(Next(hash, w, step), low + 300000)
  {
    var s := w.nodes[step.node];
    match step
    case LocalWrite(_, key, j, wall, io) =>
      PutClock(hash, s, key, j, wall, io, low + 300000);
    case Deliver(_, key, doc, wall, io) =>
      CopyStamp(hash, w, key, doc);
      ReceiveClock(hash, s, key, doc, wall, io, low + 300000);
    case ListDigests(_) =>
  }

  lemma {:induction false} RunSteady(hash: bytes -> bytes, w: World, steps: seq<Step>, end: World, low: nat)
    requires Inv(hash, w) && Run(hash, w, steps, end) && Steady(w, low + 300000)
    requires forall i :: 0 <= i < |steps| ==> InStep(steps[i], low)
    ensures Inv(hash, end) && Steady(end, low + 300000)
    decreases |steps|
  {
    if steps != [] {
      StepSteady(hash, w, steps[0], low);
      StepKeeps(hash, w, steps[0]);
      RunSteady(hash, Next(hash, w, steps[0]), steps[1..], end, low);
    }
  }

  /** In a run in which all wall clocks stay within five minutes of each other no copy is
      turned down for being ahead: a delivery is rejected only by a counter at its limit.
      It is then stored exactly when storage takes it and the merge fits a page, and the
      row means the merge; nothing else is touched. */
  lemma DeliveryExactly(hash: bytes -> bytes, w: World, steps: seq<Step>, end: World, low: nat, step: Step)
    returns (v: Crdt)
    requires Initial(w) && Run(hash, w, steps, end) && step.Deliver? && Legal(end, step)
    requires low + 600000 < U64_LIMIT && InStep(step, low) && forall i :: 0 <= i < |steps| ==> InStep(steps[i], low)
    ensures Decode(step.doc).Some? && Received(end.nodes[step.node], step.key, step.doc, v)
    ensures var s := end.nodes[step.node];
      var r := After(hash, s, step);
      && (r.1.Rejected? <==> Saturated(s.clock, Meaning(step.doc).ts))
      && if r.1.Rejected? then r.0 == s else Committed(s, r, step.key, v, step.io)
  {
    var s := end.nodes[step.node];
    RunSteady(hash, w, steps, end, low);
    CopyStamp(hash, end, step.key, step.doc);
    MergedGood(hash, end, step);
    v := MergedWith(s, step.key, step.doc);
    MergedMeans(hash, end, step);
    DeliveredOk(hash, s, step.key, step.doc, step.wall, step.io, low);
  }

  /** `v` is the merge of the row, if there is one, and the copy. */
  ghost predicate Received(s: State, key: bytes, doc: bytes, v: Crdt)
    requires Decode(doc).Some?
  {
    if key !in s.store then View(v) == Meaning(doc)
    else Decode(s.store[key]).Some? && View(v) == Lattice.Join(Meaning(s.store[key]), Meaning(doc))
  }

  lemma DeliveredOk(hash: bytes -> bytes, s: State, key: bytes, doc: bytes, wall: u64, io: bool, low: nat)
    requires low + 600000 < U64_LIMIT && low <= wall <= low + 300000
    requires Decode(doc).Some? && (key in s.store ==> Decode(s.store[key]).Some?)
    requires MaxStamp(Decode(doc).value) == Meaning(doc).ts && Meaning(doc).ts.physical <= low + 300000
    requires var v := MergedWith(s, key, doc);
      WellFormed(v) && Provenance.Sound(View(v)) && Shallow(v, MAX_DECODE_DEPTH)
    ensures var r := Receive(hash, s, key, doc, wall, io);
      && (r.1.Rejected? <==> Saturated(s.clock, Meaning(doc).ts))
      && if r.1.Rejected? then r.0 == s else Committed(s, r, key, MergedWith(s, key, doc), io)
  {
    var ts := Meaning(doc).ts;
    assert Refuses(s.clock, ts, wall) <==> Saturated(s.clock, ts);
    if !Refuses(s.clock, ts, wall) {
      CommitExactly(hash, s, s.(clock := Fold(s.clock, ts, wall)), key, MergedWith(s, key, doc), io);
    }
  }

  lemma MergedMeans(hash: bytes -> bytes, w: World, step: Step)
    requires Inv(hash, w) && step.Deliver? && Legal(w, step) && Decode(step.doc).Some?
    requires step.key in w.nodes[step.node].store ==> Decode(w.nodes[step.node].store[step.key]).Some?
    ensures var s := w.nodes[step.node];
      View(MergedWith(s, step.key, step.doc)) ==
      if step.key in s.store then Lattice.Join(Meaning(s.store[step.key]), Meaning(step.doc)) else Meaning(step.doc)
  {
    var s := w.nodes[step.node];
    assert NodeOk(hash, w, step.node);
    assert GoodCopy(w, step.key, step.doc);
    if step.key in s.store {
      assert GoodCopy(w, step.key, s.store[step.key]);
      MergeMeansJoin(Decode(s.store[step.key]).value, Decode(step.doc).value);
    }
  }
}
