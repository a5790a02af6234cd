/** Every run of a mesh of engines over an unreliable network: any node may
    write at any time, and any document any node has ever stored may be
    delivered to any node, in any order, any number of times or never.
 */
module Mesh {
  import opened Wrappers
  import opened ByteStrings
  import opened Stamps
  import opened JsonValues
  import opened Documents
  import opened Codec
  import opened Updates
  import opened Clocks
  import opened Engine
  import opened Depth
  import Lattice
  import Provenance

  // ------------------------------------------------------------------
  // Stored bytes
  // ------------------------------------------------------------------

  /** Bytes some engine stored: they decode, re-encode to themselves, and the
      document is sound. */
  ghost predicate Honest(b: bytes) {
    && |b| <= MAX_DOC_BYTES
    && Decode(b).Some?
    && var v := Decode(b).value;
       WellFormed(v) && Provenance.Sound(View(v)) && Shallow(v, MAX_DECODE_DEPTH) && Encode(v) == b
  }

  function Meaning(b: bytes): Lattice.Doc
    requires Decode(b).Some?
  {
    View(Decode(b).value)
  }

  lemma StoredHonest(v: Crdt)
    requires WellFormed(v) && Provenance.Sound(View(v)) && Shallow(v, MAX_DECODE_DEPTH)
    requires |Encode(v)| <= MAX_DOC_BYTES
    ensures Honest(Encode(v)) && Meaning(Encode(v)) == View(v)
  {
    WellFormedFlagged(v);
    DecodeEncode(v);
    CanonMeans(v);
    EncodeCanon(v);
    ShallowCanon(v, MAX_DECODE_DEPTH);
  }

  /** Honest copies are the same bytes exactly when they mean the same. */
  lemma HonestBytes(a: bytes, b: bytes)
    requires Honest(a) && Honest(b)
    ensures a == b <==> Meaning(a) == Meaning(b)
  {
    EncodeExactly(Decode(a).value, Decode(b).value);
  }

  // ------------------------------------------------------------------
  // The mesh
  // ------------------------------------------------------------------

  datatype Write = Write(key: bytes, doc: Lattice.Doc)

  /** `sent` is everything ever stored; `issued` every stamp ever handed out, also
      to writes that storage then refused; `writes` the stored writes by stamp;
      `walls` is the largest wall-clock reading each node has seen. */
  datatype World = World(nodes: map<bytes, State>, sent: set<(bytes, bytes)>, issued: set<Timestamp>,
                         writes: map<Timestamp, Write>, walls: map<bytes, nat>)

  datatype Step =
    | LocalWrite(node: bytes, key: bytes, json: Json, wall: u64, io: bool)
    | Deliver(node: bytes, key: bytes, doc: bytes, wall: u64, io: bool)
    | ListDigests(node: bytes)

  ghost predicate Legal(w: World, step: Step) {
    step.node in w.nodes &&
    match step
    case LocalWrite(n, _, j, wall, _) => Keyed(j) && Flat(j, MAX_DECODE_DEPTH) && !Wraps(w.nodes[n].clock, wall)
    case Deliver(_, key, doc, _, _) => (key, doc) in w.sent
    case ListDigests(_) => true
  }

  function After(hash: bytes -> bytes, s: State, step: Step): (State, Status)
    requires !step.ListDigests?
  {
    match step
    case LocalWrite(_, key, j, wall, io) => Put(hash, s, key, j, wall, io)
    case Deliver(_, key, doc, wall, io) => Receive(hash, s, key, doc, wall, io)
  }

  ghost function Next(hash: bytes -> bytes, w: World, step: Step): World
    requires step.node in w.nodes
  {
    var s := w.nodes[step.node];
    if step.ListDigests? then w.(nodes := w.nodes[step.node := Refresh(hash, s)]) else
    var (s', status) := After(hash, s, step);
    var seen := if step.node in w.walls && w.walls[step.node] > step.wall then w.walls[step.node] else step.wall;
    var stamps := step.LocalWrite? && (step.key in s.store ==> Decode(s.store[step.key]).Some?);
    World(
      w.nodes[step.node := s'],
      if status.Ok? && step.key in s'.store then w.sent + {(step.key, s'.store[step.key])} else w.sent,
      if stamps then w.issued + {StampOf(s, step.wall)} else w.issued,
      if status.Ok? && stamps then
        w.writes[StampOf(s, step.wall) := Write(step.key, View(Written(s, step.key, step.json, step.wall).0))]
      else w.writes,
      w.walls[step.node := seen])
  }

  ghost predicate Run(hash: bytes -> bytes, w: World, steps: seq<Step>, end: World)
    decreases |steps|
  {
    if steps == [] then end == w
    else Legal(w, steps[0]) && Run(hash, Next(hash, w, steps[0]), steps[1..], end)
  }

  function Idle(node: bytes): State {
    State(node, Reading(0, 0), 0, map[], map[])
  }

  ghost predicate Initial(w: World) {
    && (forall n :: n in w.nodes ==> w.nodes[n] == Idle(n))
    && w.sent == {} && w.issued == {} && w.writes == map[] && w.walls == map[]
  }

  // ------------------------------------------------------------------
  // The invariant
  // ------------------------------------------------------------------

  ghost function WritesTo(writes: map<Timestamp, Write>, key: bytes): map<Timestamp, Lattice.Doc> {
    map t | t in writes && writes[t].key == key :: writes[t].doc
  }

  ghost predicate GoodCopy(w: World, key: bytes, b: bytes) {
    0 < |key| < MAX_KEY_BYTES && Honest(b) && Provenance.Attested(Meaning(b), WritesTo(w.writes, key))
  }

  ghost predicate CacheOk(hash: bytes -> bytes, s: State) {
    forall k :: k in s.digests ==> k in s.store && DigestOf(hash, s.store[k]) == Some(s.digests[k])
  }

  /** A node: its copies are known, its clock is past everything it holds, its
      digest cache is what recomputation would give, and it has not run ahead. */
  ghost predicate NodeOk(hash: bytes -> bytes, w: World, n: bytes)
    requires n in w.nodes
  {
    var s := w.nodes[n];
    && s.node == n
    && (forall k :: k in s.store ==>
          && (k, s.store[k]) in w.sent
          && Decode(s.store[k]).Some?
          && Covers(s.clock, Meaning(s.store[k]).ts))
    && CacheOk(hash, s)
    && s.clock.physical <= (if n in w.walls then w.walls[n] else 0) + MAX_FUTURE_SKEW_MS
  }

  ghost predicate Inv(hash: bytes -> bytes, w: World) {
    && (forall k, b :: (k, b) in w.sent ==> GoodCopy(w, k, b))
    && (forall n :: n in w.nodes ==> NodeOk(hash, w, n))
    && (forall t :: t in w.issued ==> t.node in w.nodes && Covers(w.nodes[t.node].clock, t))
    && w.writes.Keys <= w.issued
  }

  // ------------------------------------------------------------------
  // One local write
  // ------------------------------------------------------------------

  /** The stamp of a local write is after every stamp the node has issued and
      after every stamp in the document it replaces. */
  lemma WriteDominates(hash: bytes -> bytes, w: World, step: Step)
    requires Inv(hash, w) && step.LocalWrite? && step.node in w.nodes && !Wraps(w.nodes[step.node].clock, step.wall)
    ensures var s := w.nodes[step.node];
      var ts := StampOf(s, step.wall);
      && (forall t :: t in w.issued && t.node == step.node ==> Before(t, ts))
      && ts !in w.issued && ts !in w.writes
      && (step.key in s.store ==> Before(Decode(s.store[step.key]).value.ts, ts))
      && (step.key in s.store ==> forall p :: Provenance.At(Meaning(s.store[step.key]), p).Some? ==>
            Before(Provenance.At(Meaning(s.store[step.key]), p).value.ts, ts))
  {
    var s := w.nodes[step.node];
    var ts := StampOf(s, step.wall);
    assert NodeOk(hash, w, step.node);
    TickExceedsExactly(s.clock, step.wall, s.node);
    BeforeIrreflexive(ts);
    if step.key in s.store {
      assert GoodCopy(w, step.key, s.store[step.key]);
      var d := Meaning(s.store[step.key]);
      forall p | Provenance.At(d, p).Some? ensures Before(Provenance.At(d, p).value.ts, ts) {
        NodeStampBound(d, p);
        NotAfterCovered(s.clock, Provenance.At(d, p).value.ts, d.ts);
      }
    }
  }

  lemma {:induction false} NodeStampBound(d: Lattice.Doc, p: seq<bytes>)
    requires Provenance.Sound(d) && Provenance.At(d, p).Some?
    ensures NotAfter(Provenance.At(d, p).value.ts, d.ts)
    decreases |p|
  {
    StampOrder();
    if p != [] {
      NodeStampBound(d.cells[p[0]].value, p[1..]);
    }
  }

  lemma NotAfterCovered(c: Reading, a: Timestamp, b: Timestamp)
    requires NotAfter(a, b) && Covers(c, b)
    ensures Covers(c, a)
  {
  }

  lemma WrittenGood(hash: bytes -> bytes, w: World, step: Step)
    requires Inv(hash, w) && step.LocalWrite? && Legal(w, step)
    ensures var s := w.nodes[step.node];
      && (step.key in s.store ==> Decode(s.store[step.key]).Some?)
      && var v := Written(s, step.key, step.json, step.wall).0;
         var prev := if step.key in s.store then Some(Meaning(s.store[step.key])) else None;
         && WellFormed(v) && Shallow(v, MAX_DECODE_DEPTH)
         && Provenance.Extends(View(v), prev, StampOf(s, step.wall))
  {
    var s := w.nodes[step.node];
    var ts := StampOf(s, step.wall);
    assert NodeOk(hash, w, step.node);
    WriteDominates(hash, w, step);
    if step.key in s.store {
      assert GoodCopy(w, step.key, s.store[step.key]);
      var prev := Decode(s.store[step.key]).value;
      UpdateGood(prev, step.json, ts, s.tags);
      ApplyShallow(prev, step.json, ts, s.tags, MAX_DECODE_DEPTH);
    } else {
      BuildGood(step.json, ts, s.tags);
      BuildShallow(step.json, ts, s.tags, MAX_DECODE_DEPTH);
    }
  }

  lemma AttestedMore(d: Lattice.Doc, writes: map<Timestamp, Lattice.Doc>, more: map<Timestamp, Lattice.Doc>)
    requires Provenance.Attested(d, writes)
    requires forall t :: t in writes ==> t in more && more[t] == writes[t]
    ensures Provenance.Attested(d, more)
  {
  }

  /** What one step does to the node that takes it. */
  ghost predicate StepOk(hash: bytes -> bytes, w: World, step: Step)
    requires step.node in w.nodes && !step.ListDigests?
  {
    var s := w.nodes[step.node];
    var (s', status) := After(hash, s, step);
    var w' := Next(hash, w, step);
    && s'.node == s.node
    && (forall t :: Covers(s.clock, t) ==> Covers(s'.clock, t))
    && (forall t :: t in w'.issued && t !in w.issued ==> t.node == step.node && Covers(s'.clock, t))
    && (forall t :: t in w.writes ==> t in w'.writes && w'.writes[t] == w.writes[t])
    && w'.writes.Keys <= w.writes.Keys + w'.issued
    && CacheOk(hash, s')
    && s'.clock.physical <= w'.walls[step.node] + MAX_FUTURE_SKEW_MS
    && if status.Ok? then
         && step.key in s'.store
         && s'.store == s.store[step.key := s'.store[step.key]]
         && GoodCopy(w', step.key, s'.store[step.key])
         && Covers(s'.clock, Meaning(s'.store[step.key]).ts)
       else
         s'.store == s.store
  }

  lemma CommitCache(hash: bytes -> bytes, s: State, key: bytes, doc: bytes, io: bool)
    requires CacheOk(hash, s)
    ensures Commit(hash, s, key, doc, io).1.Ok? ==>
      (CacheOk(hash, Commit(hash, s, key, doc, io).0) <==> Decode(doc).Some? || key !in s.digests)
    ensures !Commit(hash, s, key, doc, io).1.Ok? ==> CacheOk(hash, Commit(hash, s, key, doc, io).0)
  {
    var (s', status) := Commit(hash, s, key, doc, io);
    if status.Ok? {
      if Decode(doc).Some? {
        forall k | k in s'.digests ensures k in s'.store && DigestOf(hash, s'.store[k]) == Some(s'.digests[k]) {
        }
      } else if key in s.digests {
        assert key in s'.digests && DigestOf(hash, s'.store[key]).None?;
      }
    }
  }

  lemma LocalWriteOk(hash: bytes -> bytes, w: World, step: Step)
    requires Inv(hash, w) && step.LocalWrite? && Legal(w, step)
    ensures StepOk(hash, w, step)
  {
    WriteDominates(hash, w, step);
    WrittenGood(hash, w, step);
    WrittenTraceable(hash, w, step);
    assert NodeOk(hash, w, step.node);
    WriteAccepted(hash, w, step);
  }

  lemma WriteAccepted(hash: bytes -> bytes, w: World, step: Step)
    requires step.LocalWrite? && step.node in w.nodes && NodeOk(hash, w, step.node)
    requires !Wraps(w.nodes[step.node].clock, step.wall) && StampOf(w.nodes[step.node], step.wall) !in w.writes
    requires var s := w.nodes[step.node];
      && (step.key in s.store ==> Decode(s.store[step.key]).Some?)
      && var v := Written(s, step.key, step.json, step.wall).0;
         var ts := StampOf(s, step.wall);
         && WellFormed(v) && Shallow(v, MAX_DECODE_DEPTH) && Provenance.Sound(View(v)) && NotAfter(v.ts, ts)
         && Provenance.Attested(View(v), WritesTo(w.writes[ts := Write(step.key, View(v))], step.key))
    ensures StepOk(hash, w, step)
  {
    var s := w.nodes[step.node];
    var (v, tags) := Written(s, step.key, step.json, step.wall);
    var s1 := s.(clock := Tick(s.clock, step.wall), tags := tags);
    assert After(hash, s, step) == Commit(hash, s1, step.key, Encode(v), step.io);
    PhysicalBound(s.clock, StampOf(s, step.wall), step.wall, if step.node in w.walls then w.walls[step.node] else 0);
    forall t | Covers(s.clock, t) ensures Covers(s1.clock, t) {
      TickCovers(s.clock, step.wall, t);
    }
    NotAfterCovered(s1.clock, v.ts, StampOf(s, step.wall));
    assert CacheOk(hash, s1);
    CommittedOk(hash, w, step, s1, v);
  }

  lemma WritesToMore(writes: map<Timestamp, Write>, key: bytes, ts: Timestamp, d: Lattice.Doc)
    requires ts !in writes
    ensures WritesTo(writes[ts := Write(key, d)], key) == WritesTo(writes, key)[ts := d]
  {
  }

  /** The write, recorded under its stamp, traces every node of its document. */
  lemma WrittenTraceable(hash: bytes -> bytes, w: World, step: Step)
    requires Inv(hash, w) && step.LocalWrite? && Legal(w, step)
    ensures var s := w.nodes[step.node];
      && (step.key in s.store ==> Decode(s.store[step.key]).Some?)
      && var d := View(Written(s, step.key, step.json, step.wall).0);
         var ts := StampOf(s, step.wall);
         Provenance.Attested(d, WritesTo(w.writes[ts := Write(step.key, d)], step.key))
  {
    var s := w.nodes[step.node];
    var ts := StampOf(s, step.wall);
    WriteDominates(hash, w, step);
    WrittenGood(hash, w, step);
    var d := View(Written(s, step.key, step.json, step.wall).0);
    var prev := if step.key in s.store then Some(Meaning(s.store[step.key])) else None;
    assert step.key in s.store ==> GoodCopy(w, step.key, s.store[step.key]) by {
      assert NodeOk(hash, w, step.node);
    }
    Provenance.UpdateAttested(d, prev, ts, WritesTo(w.writes, step.key));
    WritesToMore(w.writes, step.key, ts, d);
  }

  // ------------------------------------------------------------------
  // One delivery
  // ------------------------------------------------------------------

  function MergedWith(s: State, key: bytes, doc: bytes): Crdt
    requires Decode(doc).Some?
    requires key in s.store ==> Decode(s.store[key]).Some?
  {
    if key in s.store then Merge(Decode(s.store[key]).value, Decode(doc).value) else Decode(doc).value
  }

  lemma MergedGood(hash: bytes -> bytes, w: World, step: Step)
    requires Inv(hash, w) && step.Deliver? && Legal(w, step)
    ensures var s := w.nodes[step.node];
      && Decode(step.doc).Some?
      && (step.key in s.store ==> Decode(s.store[step.key]).Some?)
      && var v := MergedWith(s, step.key, step.doc);
         && WellFormed(v) && Shallow(v, MAX_DECODE_DEPTH)
         && Provenance.Sound(View(v))
         && Provenance.Attested(View(v), WritesTo(w.writes, step.key))
         && v.ts == (if step.key in s.store then Later(Meaning(s.store[step.key]).ts, Meaning(step.doc).ts)
                     else Meaning(step.doc).ts)
  {
    var s := w.nodes[step.node];
    assert NodeOk(hash, w, step.node);
    assert GoodCopy(w, step.key, step.doc);
    if step.key in s.store {
      assert GoodCopy(w, step.key, s.store[step.key]);
      var a, b := Decode(s.store[step.key]).value, Decode(step.doc).value;
      MergeMeansJoin(a, b);
      MergeShallow(a, b, MAX_DECODE_DEPTH);
      Provenance.JoinSound(View(a), View(b));
      Provenance.JoinAttested(View(a), View(b), WritesTo(w.writes, step.key));
    }
  }

  lemma DeliverOk(hash: bytes -> bytes, w: World, step: Step)
    requires Inv(hash, w) && step.Deliver? && Legal(w, step)
    ensures StepOk(hash, w, step)
  {
    MergedGood(hash, w, step);
    assert MaxStamp(Decode(step.doc).value) == Meaning(step.doc).ts by {
      assert GoodCopy(w, step.key, step.doc);
      MaxStampIsRoot(Decode(step.doc).value);
    }
    assert NodeOk(hash, w, step.node);
    if Refuses(w.nodes[step.node].clock, Meaning(step.doc).ts, step.wall) {
      DeliverRejected(hash, w, step);
    } else {
      DeliverAccepted(hash, w, step);
    }
  }

  lemma DeliverRejected(hash: bytes -> bytes, w: World, step: Step)
    requires step.Deliver? && step.node in w.nodes && NodeOk(hash, w, step.node)
    requires Decode(step.doc).Some? && MaxStamp(Decode(step.doc).value) == Meaning(step.doc).ts
    requires Refuses(w.nodes[step.node].clock, Meaning(step.doc).ts, step.wall)
    ensures StepOk(hash, w, step)
  {
    var s := w.nodes[step.node];
    assert After(hash, s, step) == (s, Rejected);
  }

  lemma DeliverAccepted(hash: bytes -> bytes, w: World, step: Step)
    requires step.Deliver? && step.node in w.nodes && NodeOk(hash, w, step.node)
    requires Decode(step.doc).Some? && MaxStamp(Decode(step.doc).value) == Meaning(step.doc).ts
    requires !Refuses(w.nodes[step.node].clock, Meaning(step.doc).ts, step.wall)
    requires var v := MergedWith(w.nodes[step.node], step.key, step.doc);
      && WellFormed(v) && Shallow(v, MAX_DECODE_DEPTH) && Provenance.Sound(View(v))
      && Provenance.Attested(View(v), WritesTo(w.writes, step.key))
      && v.ts == (if step.key in w.nodes[step.node].store
                  then Later(Meaning(w.nodes[step.node].store[step.key]).ts, Meaning(step.doc).ts)
                  else Meaning(step.doc).ts)
    ensures StepOk(hash, w, step)
  {
    var s := w.nodes[step.node];
    var ts := Meaning(step.doc).ts;
    var s1 := s.(clock := Fold(s.clock, ts, step.wall));
    var v := MergedWith(s, step.key, step.doc);
    assert After(hash, s, step) == Commit(hash, s1, step.key, Encode(v), step.io);
    PhysicalBound(s.clock, ts, step.wall, if step.node in w.walls then w.walls[step.node] else 0);
    FoldCovers(s.clock, ts, step.wall);
    assert CacheOk(hash, s1);
    CommittedOk(hash, w, step, s1, v);
  }

  /** Committing a sound, traceable document that the clock already covers. */
  lemma CommittedOk(hash: bytes -> bytes, w: World, step: Step, s1: State, v: Crdt)
    requires step.node in w.nodes && !step.ListDigests? && s1.node == w.nodes[step.node].node
    requires s1.store == w.nodes[step.node].store
    requires After(hash, w.nodes[step.node], step) == Commit(hash, s1, step.key, Encode(v), step.io)
    requires forall t :: Covers(w.nodes[step.node].clock, t) ==> Covers(s1.clock, t)
    requires CacheOk(hash, s1)
    requires var w' := Next(hash, w, step);
      && s1.clock.physical <= w'.walls[step.node] + MAX_FUTURE_SKEW_MS
      && (forall t :: t in w'.issued && t !in w.issued ==> t.node == step.node && Covers(s1.clock, t))
      && (forall t :: t in w.writes ==> t in w'.writes && w'.writes[t] == w.writes[t])
      && (Commit(hash, s1, step.key, Encode(v), step.io).1.Ok? ==>
            Provenance.Attested(View(v), WritesTo(w'.writes, step.key)))
    requires WellFormed(v) && Shallow(v, MAX_DECODE_DEPTH) && Provenance.Sound(View(v))
    requires Covers(s1.clock, v.ts)
    ensures StepOk(hash, w, step)
  {
    var (s', status) := Commit(hash, s1, step.key, Encode(v), step.io);
    CommitCache(hash, s1, step.key, Encode(v), step.io);
    if status.Ok? {
      StoredHonest(v);
    }
  }

  // ------------------------------------------------------------------
  // Every run
  // ------------------------------------------------------------------

  lemma StepKeeps(hash: bytes -> bytes, w: World, step: Step)
    requires Inv(hash, w) && Legal(w, step)
    ensures Inv(hash, Next(hash, w, step))
  {
    if step.ListDigests? {
      DigestsKept(hash, w, step);
    } else {
      if step.LocalWrite? {
        LocalWriteOk(hash, w, step);
      } else {
        DeliverOk(hash, w, step);
      }
      StepOkKeeps(hash, w, step);
    }
  }

  lemma DigestsKept(hash: bytes -> bytes, w: World, step: Step)
    requires Inv(hash, w) && step.ListDigests? && step.node in w.nodes
    ensures Inv(hash, Next(hash, w, step))
  {
    var w' := Next(hash, w, step);
    forall k, b | (k, b) in w'.sent ensures GoodCopy(w', k, b) {
      assert GoodCopy(w, k, b);
    }
    forall n | n in w'.nodes ensures NodeOk(hash, w', n) {
      assert NodeOk(hash, w, n);
      if n != step.node { OtherNodeKept(hash, w, w', n); } else { RefreshKept(hash, w, w', n); }
    }
  }

  lemma RefreshKept(hash: bytes -> bytes, w: World, w': World, n: bytes)
    requires n in w.nodes && NodeOk(hash, w, n) && n in w'.nodes && w'.nodes[n] == Refresh(hash, w.nodes[n])
    requires w'.sent == w.sent && w'.walls == w.walls
    ensures NodeOk(hash, w', n)
  {
    RefreshCache(hash, w.nodes[n]);
  }

  lemma RefreshCache(hash: bytes -> bytes, s: State)
    requires CacheOk(hash, s)
    ensures CacheOk(hash, Refresh(hash, s))
  {
  }

  lemma CopiesKept(hash: bytes -> bytes, w: World, step: Step)
    requires Inv(hash, w) && step.node in w.nodes && !step.ListDigests? && StepOk(hash, w, step)
    ensures var w' := Next(hash, w, step); forall k, b :: (k, b) in w'.sent ==> GoodCopy(w', k, b)
  {
    var w' := Next(hash, w, step);
    forall k, b | (k, b) in w'.sent ensures GoodCopy(w', k, b) {
      if (k, b) in w.sent {
        CopyKept(w, w', k, b);
      }
    }
  }

  lemma CopyKept(w: World, w': World, k: bytes, b: bytes)
    requires GoodCopy(w, k, b)
    requires forall t :: t in w.writes ==> t in w'.writes && w'.writes[t] == w.writes[t]
    ensures GoodCopy(w', k, b)
  {
    AttestedMore(Meaning(b), WritesTo(w.writes, k), WritesTo(w'.writes, k));
  }

  lemma NodesKept(hash: bytes -> bytes, w: World, step: Step, n: bytes)
    requires n in w.nodes && NodeOk(hash, w, n)
    requires step.node in w.nodes && !step.ListDigests? && StepOk(hash, w, step)
    ensures NodeOk(hash, Next(hash, w, step), n)
  {
    var w' := Next(hash, w, step);
    if n != step.node {
      OtherNodeKept(hash, w, w', n);
    } else {
      var s, s' := w.nodes[n], w'.nodes[n];
      forall k | k in s'.store
        ensures (k, s'.store[k]) in w'.sent && Decode(s'.store[k]).Some? && Covers(s'.clock, Meaning(s'.store[k]).ts)
      {
      }
    }
  }

  lemma OtherNodeKept(hash: bytes -> bytes, w: World, w': World, n: bytes)
    requires n in w.nodes && NodeOk(hash, w, n)
    requires n in w'.nodes && w'.nodes[n] == w.nodes[n] && w.sent <= w'.sent
    requires if n in w.walls then n in w'.walls && w'.walls[n] == w.walls[n] else n !in w'.walls
    ensures NodeOk(hash, w', n)
  {
  }

  lemma StepOkKeeps(hash: bytes -> bytes, w: World, step: Step)
    requires Inv(hash, w) && step.node in w.nodes && !step.ListDigests? && StepOk(hash, w, step)
    ensures Inv(hash, Next(hash, w, step))
  {
    var w' := Next(hash, w, step);
    CopiesKept(hash, w, step);
    forall n | n in w'.nodes ensures NodeOk(hash, w', n) {
      assert NodeOk(hash, w, n);
      NodesKept(hash, w, step, n);
    }
    forall t | t in w'.issued ensures t.node in w'.nodes && Covers(w'.nodes[t.node].clock, t) {
    }
  }

  lemma {:induction false} RunKeeps(hash: bytes -> bytes, w: World, steps: seq<Step>, end: World)
    requires Inv(hash, w) && Run(hash, w, steps, end)
    ensures Inv(hash, end)
    decreases |steps|
  {
    if steps != [] {
      StepKeeps(hash, w, steps[0]);
      RunKeeps(hash, Next(hash, w, steps[0]), steps[1..], end);
    }
  }

  lemma ReachableInv(hash: bytes -> bytes, w: World, steps: seq<Step>, end: World)
    requires Initial(w) && Run(hash, w, steps, end)
    ensures Inv(hash, end)
  {
    RunKeeps(hash, w, steps, end);
  }

  /** In every run, all copies of a document that ever existed anywhere are
      compatible, so any two of them merge to the same bytes in either order. */
  lemma CopiesCompatible(hash: bytes -> bytes, w: World, steps: seq<Step>, end: World, key: bytes, a: bytes, b: bytes)
    requires Initial(w) && Run(hash, w, steps, end)
    requires (key, a) in end.sent && (key, b) in end.sent
    ensures Honest(a) && Honest(b)
    ensures Lattice.Compat(Meaning(a), Meaning(b))
    ensures Encode(Merge(Decode(a).value, Decode(b).value)) == Encode(Merge(Decode(b).value, Decode(a).value))
  {
    ReachableInv(hash, w, steps, end);
    assert GoodCopy(end, key, a) && GoodCopy(end, key, b);
    Provenance.AttestedCompat(Meaning(a), Meaning(b), WritesTo(end.writes, key));
    CompatBytes(Decode(a).value, Decode(b).value);
  }

  lemma CompatBytes(a: Crdt, b: Crdt)
    requires WellFormed(a) && WellFormed(b) && Lattice.Compat(View(a), View(b))
    ensures Encode(Merge(a, b)) == Encode(Merge(b, a))
  {
    MergeMeansJoin(a, b);
    MergeMeansJoin(b, a);
    Lattice.JoinCommutes(View(a), View(b));
    SameMeaningSameBytes(Merge(a, b), Merge(b, a));
  }

  /** What holds at every node at the end of every run: the next local write is
      stamped above everything the node issued and everything in the document
      it replaces; the clock has not passed the largest wall time seen by more
      than the skew bound; and every cached digest is the one recomputed from
      the stored bytes, whose newest stamp is the root's. */
  lemma EveryRun(hash: bytes -> bytes, w: World, steps: seq<Step>, end: World, next: Step)
    requires Initial(w) && Run(hash, w, steps, end)
    requires next.LocalWrite? && Legal(end, next)
    ensures var s := end.nodes[next.node];
      var ts := StampOf(s, next.wall);
      && (forall t :: t in end.issued && t.node == next.node ==> Before(t, ts))
      && (next.key in s.store ==> Honest(s.store[next.key]))
      && (next.key in s.store ==> forall p :: Provenance.At(Meaning(s.store[next.key]), p).Some? ==>
            Before(Provenance.At(Meaning(s.store[next.key]), p).value.ts, ts))
      && s.clock.physical <= (if next.node in end.walls then end.walls[next.node] else 0) + MAX_FUTURE_SKEW_MS
      && (forall k :: k in s.digests ==>
            k in s.store && Honest(s.store[k]) && s.digests[k] == Digest(Meaning(s.store[k]).ts, hash(s.store[k])))
  {
    ReachableInv(hash, w, steps, end);
    WriteDominates(hash, end, next);
    assert NodeOk(hash, end, next.node);
    var s := end.nodes[next.node];
    forall k | k in s.store ensures Honest(s.store[k]) && MaxStamp(Decode(s.store[k]).value) == Meaning(s.store[k]).ts {
      assert GoodCopy(end, k, s.store[k]);
      MaxStampIsRoot(Decode(s.store[k]).value);
    }
  }
}
