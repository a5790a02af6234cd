/** A run of two nodes in which a deleted member comes back: the writer creates
    {"f":{"x":true}}, deletes the field and creates {"f":{"y":true}}; the reader is
    sent the first copy and the last.
 */
module Deletions {
  import opened Wrappers
  import opened Sequences
  import opened ByteStrings
  import opened Stamps
  import opened NamedItems
  import opened JsonValues
  import opened Documents
  import opened Codec
  import opened Updates
  import opened Clocks
  import opened Depth
  import opened Mesh
  import opened Plans
  import opened Convergence
  import Engine
  import Lattice

  const WRITER: bytes := [97]
  const READER: bytes := [98]
  const KEY: bytes := [107]
  const F: bytes := [102]
  const X: bytes := [120]
  const Y: bytes := [121]

  // ------------------------------------------------------------------
  // The documents
  // ------------------------------------------------------------------

  function Stamp(wall: u64): Timestamp {
    Timestamp(wall, 0, WRITER)
  }

  /** {"f": {m: true}} */
  function Having(m: bytes): Json {
    JObj([Named(F, JObj([Named(m, JBool(true))]))])
  }

  function Entry(name: bytes, v: Crdt): Named<Slot> {
    Named(name, Slot(false, v))
  }

  function Object(ts: Timestamp, es: seq<Named<Slot>>): Crdt {
    Container(ts, false, Lattice.ObjectShape, es)
  }

  function Live(ts: Timestamp): Crdt {
    Register(ts, false, Lattice.Bool(true))
  }

  function Inner(ts: Timestamp, m: bytes): Crdt {
    Object(ts, [Entry(m, Live(ts))])
  }

  function Holding(ts: Timestamp, m: bytes): Crdt {
    Object(ts, [Entry(F, Inner(ts, m))])
  }

  function Emptied(ts: Timestamp): Crdt {
    Object(ts, [Entry(F, Register(ts, true, Lattice.Null))])
  }

  /** Both members: what the reader ends up with. */
  function Both(t1: Timestamp, t3: Timestamp): Crdt {
    Object(t3, [Entry(F, Object(t3, [Entry(X, Live(t1)), Entry(Y, Live(t3))]))])
  }

  lemma OneField(f: Named<Json>, ts: Timestamp)
    ensures FromFields([f], ts, 0) ==
      ([Entry(f.name, FromJson(f.item, ts, 0).0)], FromJson(f.item, ts, 0).1)
  {
    assert [f][1..] == [];
    AppendNone([Entry(f.name, FromJson(f.item, ts, 0).0)]);
  }

  lemma Created(m: bytes, ts: Timestamp)
    ensures FromJson(Having(m), ts, 0) == (Holding(ts, m), 0)
    ensures FromJson(JObj([Named(m, JBool(true))]), ts, 0) == (Inner(ts, m), 0)
  {
    OneField(Named(m, JBool(true)), ts);
    OneField(Named(F, JObj([Named(m, JBool(true))])), ts);
  }

  lemma Deleted(m: bytes, t1: Timestamp, t2: Timestamp)
    ensures Apply(Holding(t1, m), JObj([]), t2, 0) == (Emptied(t2), 0)
  {
    var es := Holding(t1, m).entries;
    LiveFields(es);
    assert es[1..] == [];
    assert Missing(es, [], t2) == Emptied(t2).entries;
    AppendNone(Emptied(t2).entries);
  }

  lemma Recreated(m: bytes, t2: Timestamp, t3: Timestamp)
    ensures Apply(Emptied(t2), Having(m), t3, 0) == (Holding(t3, m), 0)
  {
    var es, fields := Emptied(t2).entries, Having(m).fields;
    Created(m, t3);
    assert es[1..] == [] && fields[1..] == [];
    assert ToFields(es) == [];
    assert fields[0].name in Names(fields);
    assert Missing(es, fields, t3) == [];
    assert UpdateField(es, fields[0], t3, 0) == (Inner(t3, m), 0);
    assert UpdateFields(es, fields, t3, 0) == (Holding(t3, m).entries, 0);
    AppendNone(Holding(t3, m).entries);
  }

  lemma OneEntry(e: Named<Slot>)
    ensures Index([e]) == map[e.name := e.item] && Names([e]) == {e.name}
  {
    assert [e][0].name == e.name;
    assert [e][..0] == [];
  }

  lemma MembersMeet(t1: Timestamp, t3: Timestamp)
    requires Before(t1, t3)
    ensures Merge(Inner(t1, X), Inner(t3, Y)) == Object(t3, [Entry(X, Live(t1)), Entry(Y, Live(t3))])
  {
    var x, y := Entry(X, Live(t1)), Entry(Y, Live(t3));
    OneEntry(x);
    OneEntry(y);
    assert X[0] < Y[0];
    assert [x][1..] == [] && [y][1..] == [];
    assert JoinEntry(x, Index([y])) == x;
    assert JoinLeft([x], Index([y])) == [x];
    assert Only([y], {Y} - {X}) == [y];
    assert Union([x], [y]) == [x, y];
    SortIdentity([x, y]);
  }

  lemma CopiesMeet(t1: Timestamp, t3: Timestamp)
    requires Before(t1, t3)
    ensures Merge(Holding(t1, X), Holding(t3, Y)) == Both(t1, t3)
  {
    var a, b := Entry(F, Inner(t1, X)), Entry(F, Inner(t3, Y));
    MembersMeet(t1, t3);
    OneEntry(a);
    OneEntry(b);
    assert [a][1..] == [] && [b][1..] == [];
    assert {F} - {F} == {};
    assert Only([b], {}) == [];
    assert JoinEntry(a, Index([b])) == Both(t1, t3).entries[0];
    assert JoinLeft([a], Index([b])) == Both(t1, t3).entries;
    assert Union([a], [b]) == Both(t1, t3).entries;
    SortIdentity(Both(t1, t3).entries);
  }

  // ------------------------------------------------------------------
  // Their bytes
  // ------------------------------------------------------------------

  lemma HeadSize(v: Crdt)
    requires v.ts.node == WRITER
    ensures |Head(v)| == 19
  {
  }

  function Weight(es: seq<Named<Slot>>): nat {
    if es == [] then 0 else 8 + |es[0].name| + |Encode(es[0].item.value)| + Weight(es[1..])
  }

  lemma {:induction false} InsertWeight(e: Named<bytes>, s: seq<Named<bytes>>)
    ensures |Flatten(InsertByName(e, s))| == 4 + |e.name| + |e.item| + |Flatten(s)|
  {
    if s != [] && Less(s[0].name, e.name) {
      InsertWeight(e, s[1..]);
    } else {
      assert ([e] + s)[1..] == s;
    }
  }

  lemma {:induction false} SortWeight(s: seq<Named<bytes>>)
    ensures |Flatten(SortByName(s))| == |Flatten(s)|
  {
    if s != [] {
      SortWeight(s[1..]);
      InsertWeight(s[0], SortByName(s[1..]));
    }
  }

  lemma {:induction false} EachWeight(es: seq<Named<Slot>>)
    ensures |Flatten(EncodeEach(Lattice.ObjectShape, es))| == Weight(es)
  {
    if es != [] {
      EachWeight(es[1..]);
      FlattenFirst(Lattice.ObjectShape, es);
    }
  }

  lemma ObjectSize(ts: Timestamp, es: seq<Named<Slot>>)
    requires ts.node == WRITER
    ensures |Encode(Object(ts, es))| == 23 + Weight(es)
  {
    HeadSize(Object(ts, es));
    SortWeight(EncodeEach(Lattice.ObjectShape, es));
    EachWeight(es);
  }

  lemma OneEntrySize(ts: Timestamp, e: Named<Slot>)
    requires ts.node == WRITER
    ensures |Encode(Object(ts, [e]))| == 31 + |e.name| + |Encode(e.item.value)|
  {
    ObjectSize(ts, [e]);
    assert [e][1..] == [];
  }

  lemma TwoEntriesSize(ts: Timestamp, e: Named<Slot>, f: Named<Slot>)
    requires ts.node == WRITER
    ensures |Encode(Object(ts, [e, f]))| ==
      39 + |e.name| + |Encode(e.item.value)| + |f.name| + |Encode(f.item.value)|
  {
    ObjectSize(ts, [e, f]);
    assert [e, f][1..] == [f] && [f][1..] == [];
    assert Weight([f]) == 8 + |f.name| + |Encode(f.item.value)|;
  }

  lemma Sizes(t1: Timestamp, t3: Timestamp, m: bytes)
    requires t1.node == WRITER && t3.node == WRITER && |m| == 1
    ensures |Encode(Holding(t1, m))| <= 100 && |Encode(Emptied(t1))| <= 100 && |Encode(Both(t1, t3))| <= 200
  {
    HeadSize(Live(t1));
    HeadSize(Live(t3));
    HeadSize(Register(t1, true, Lattice.Null));
    OneEntrySize(t1, Entry(m, Live(t1)));
    OneEntrySize(t1, Entry(F, Inner(t1, m)));
    OneEntrySize(t1, Entry(F, Register(t1, true, Lattice.Null)));
    TwoEntriesSize(t3, Entry(X, Live(t1)), Entry(Y, Live(t3)));
    OneEntrySize(t3, Entry(F, Object(t3, [Entry(X, Live(t1)), Entry(Y, Live(t3))])));
  }

  predicate Reads(v: Crdt) {
    Decode(Encode(v)) == Some(v)
  }

  lemma ReadsBack(v: Crdt)
    requires Canonical(v) && WellFormed(v) && Shallow(v, MAX_DECODE_DEPTH) && |Encode(v)| <= Engine.MAX_DOC_BYTES
    ensures Reads(v)
  {
    WellFormedFlagged(v);
    DecodeEncode(v);
    CanonMeans(v);
    CanonicalUnique(Canon(v), v);
  }

  lemma OneOk(ts: Timestamp, e: Named<Slot>, left: nat)
    requires Canonical(e.item.value) && WellFormed(e.item.value) && Shallow(e.item.value, left) && !e.item.removed
    ensures var v := Object(ts, [e]); Canonical(v) && WellFormed(v) && Shallow(v, left + 1)
  {
  }

  lemma OneMaxStamp(ts: Timestamp, e: Named<Slot>)
    requires Engine.MaxStamp(e.item.value) == ts
    ensures Engine.MaxStamp(Object(ts, [e])) == ts
  {
    var es := [e];
    assert es[1..] == [];
    assert Later(ts, ts) == ts;
    assert Engine.MaxStampEach(es, ts) == Engine.MaxStampEach(es[1..], ts);
  }

  lemma HoldingStamp(ts: Timestamp, m: bytes)
    ensures Engine.MaxStamp(Holding(ts, m)) == ts
  {
    OneMaxStamp(ts, Entry(m, Live(ts)));
    OneMaxStamp(ts, Entry(F, Inner(ts, m)));
  }

  lemma HoldingReads(ts: Timestamp, m: bytes)
    requires ts.node == WRITER && |m| == 1
    ensures Reads(Holding(ts, m)) && |Encode(Holding(ts, m))| <= 100
  {
    Sizes(ts, ts, m);
    OneOk(ts, Entry(m, Live(ts)), 62);
    OneOk(ts, Entry(F, Inner(ts, m)), 63);
    ReadsBack(Holding(ts, m));
  }

  lemma EmptiedReads(ts: Timestamp)
    requires ts.node == WRITER
    ensures Reads(Emptied(ts)) && |Encode(Emptied(ts))| <= 100
  {
    Sizes(ts, ts, F);
    OneOk(ts, Entry(F, Register(ts, true, Lattice.Null)), 63);
    ReadsBack(Emptied(ts));
  }

  lemma BothReads(t1: Timestamp, t3: Timestamp)
    requires t1.node == WRITER && t3.node == WRITER
    ensures Reads(Both(t1, t3)) && |Encode(Both(t1, t3))| <= 200
  {
    Sizes(t1, t3, F);
    var both := Object(t3, [Entry(X, Live(t1)), Entry(Y, Live(t3))]);
    assert X[0] < Y[0];
    assert Canonical(both) && WellFormed(both) && Shallow(both, 63);
    OneOk(t3, Entry(F, both), 63);
    ReadsBack(Both(t1, t3));
  }

  // ------------------------------------------------------------------
  // The run
  // ------------------------------------------------------------------

  /** Node `n` holds this document of the key, made by this plan. */
  ghost predicate At(w: World, h: History, n: bytes, clock: Reading, doc: Option<Crdt>, plan: Plan) {
    && n in w.nodes && w.nodes[n].node == n && w.nodes[n].clock == clock && w.nodes[n].tags == 0
    && match doc
       case None => KEY !in w.nodes[n].store
       case Some(v) =>
         && KEY in w.nodes[n].store && w.nodes[n].store[KEY] == Encode(v)
         && n in h.held && KEY in h.held[n] && h.held[n][KEY] == plan
  }

  /** The copy has been stored somewhere, made by this plan. */
  ghost predicate Known(w: World, h: History, v: Crdt, plan: Plan) {
    (KEY, Encode(v)) in w.sent && Note(KEY, Encode(v), plan) in h.sent
  }

  /** What a step of node `n` leaves alone. */
  ghost predicate Grows(w: World, h: History, w': World, h': History, n: bytes) {
    && (forall m :: m != n && m in w.nodes ==> m in w'.nodes && w'.nodes[m] == w.nodes[m])
    && (forall m :: m != n && m in h.held ==> m in h'.held && h'.held[m] == h.held[m])
    && w.sent <= w'.sent && h.sent <= h'.sent
  }

  function Extend(doc: Option<Crdt>, plan: Plan, added: Plan): Plan {
    if doc.Some? then Two(plan, added) else added
  }

  function WriteOf(j: Json, wall: u64): Step {
    LocalWrite(WRITER, KEY, j, wall, true)
  }

  lemma {:induction false} WriteStep(hash: bytes -> bytes, w: World, h: History, j: Json, wall: u64, clock: Reading,
                                     prev: Option<Crdt>, plan: Plan, via: Plan, v: Crdt)
    requires At(w, h, WRITER, clock, prev, plan) && clock.physical < wall && Keyed(j) && Flat(j, MAX_DECODE_DEPTH)
    requires prev.Some? ==> Reads(prev.value)
    requires (v, 0) == if prev.Some? then Apply(prev.value, j, Stamp(wall), 0) else FromJson(j, Stamp(wall), 0)
    requires |Encode(v)| <= Engine.MAX_DOC_BYTES
    ensures var step := WriteOf(j, wall);
      && Legal(w, step) && Tells(h, step, via)
      && var w', h' := Next(hash, w, step), NextHistory(hash, w, h, step, via);
         && At(w', h', WRITER, Reading(wall, 0), Some(v), Extend(prev, plan, One(View(v))))
         && Known(w', h', v, Extend(prev, plan, One(View(v))))
         && Grows(w, h, w', h', WRITER)
  {
    var s, step := w.nodes[WRITER], WriteOf(j, wall);
    assert Engine.StampOf(s, wall) == Stamp(wall);
    assert Engine.Written(s, KEY, j, wall) == (v, 0);
    assert |KEY| == 1;
    assert Stores(hash, w, step);
    assert Added(w, step, via) == One(View(v));
    assert PlanAfter(hash, w, h, step, via) == Extend(prev, plan, One(View(v)));
  }

  function DeliveryOf(v: Crdt): Step {
    Deliver(READER, KEY, Encode(v), 3, true)
  }

  lemma {:induction false} DeliverStep(hash: bytes -> bytes, w: World, h: History, copy: Crdt, clock: Reading,
                                       prev: Option<Crdt>, plan: Plan, via: Plan, v: Crdt)
    requires At(w, h, READER, clock, prev, plan) && Known(w, h, copy, via) && Reads(copy)
    requires prev.Some? ==> Reads(prev.value)
    requires Engine.MaxStamp(copy) == copy.ts && !Refuses(clock, copy.ts, 3)
    requires v == if prev.Some? then Merge(prev.value, copy) else copy
    requires |Encode(v)| <= Engine.MAX_DOC_BYTES
    ensures var step := DeliveryOf(copy);
      && Legal(w, step) && Tells(h, step, via)
      && var w', h' := Next(hash, w, step), NextHistory(hash, w, h, step, via);
         && At(w', h', READER, Fold(clock, copy.ts, 3), Some(v), Extend(prev, plan, via))
         && Grows(w, h, w', h', READER)
  {
    var s, step := w.nodes[READER], DeliveryOf(copy);
    assert |KEY| == 1;
    assert Stores(hash, w, step);
    assert Added(w, step, via) == via;
    assert PlanAfter(hash, w, h, step, via) == Extend(prev, plan, via);
  }

  /** One more step at the end of a run. */
  lemma {:induction false} StepAfter(hash: bytes -> bytes, w: World, h: History, steps: seq<Step>, vias: seq<Plan>,
                                     end: World, hend: History, step: Step, via: Plan)
    requires TracedRun(hash, w, h, steps, vias, end, hend) && Legal(end, step) && Tells(hend, step, via)
    ensures TracedRun(hash, w, h, steps + [step], vias + [via], Next(hash, end, step),
                      NextHistory(hash, end, hend, step, via))
    decreases |steps|
  {
    if steps == [] {
      LastStep(hash, w, h, step, via);
      AppendNone([step]);
      AppendNone([via]);
    } else {
      StepAfter(hash, Next(hash, w, steps[0]), NextHistory(hash, w, h, steps[0], vias[0]), steps[1..], vias[1..], end,
                hend, step, via);
      AppendTail(steps, [step]);
      AppendTail(vias, [via]);
    }
  }

  lemma LastStep(hash: bytes -> bytes, w: World, h: History, step: Step, via: Plan)
    requires Legal(w, step) && Tells(h, step, via)
    ensures TracedRun(hash, w, h, [step], [via], Next(hash, w, step), NextHistory(hash, w, h, step, via))
  {
    assert [step][1..] == [] && [via][1..] == [];
  }

  /** A run so far. */
  ghost predicate Ran(hash: bytes -> bytes, steps: seq<Step>, vias: seq<Plan>, w: World, h: History) {
    TracedRun(hash, Start(), NoHistory(), steps, vias, w, h)
  }

  function Start(): World {
    World(map[WRITER := Idle(WRITER), READER := Idle(READER)], {}, {}, map[], map[])
  }

  lemma {:induction false} RanWrite(hash: bytes -> bytes, steps: seq<Step>, vias: seq<Plan>, w: World, h: History,
                                    j: Json, wall: u64, clock: Reading, prev: Option<Crdt>, plan: Plan, via: Plan,
                                    v: Crdt) returns (w': World, h': History)
    requires Ran(hash, steps, vias, w, h)
    requires At(w, h, WRITER, clock, prev, plan) && clock.physical < wall && Keyed(j) && Flat(j, MAX_DECODE_DEPTH)
    requires prev.Some? ==> Reads(prev.value)
    requires (v, 0) == if prev.Some? then Apply(prev.value, j, Stamp(wall), 0) else FromJson(j, Stamp(wall), 0)
    requires |Encode(v)| <= Engine.MAX_DOC_BYTES
    ensures Ran(hash, steps + [WriteOf(j, wall)], vias + [via], w', h')
    ensures At(w', h', WRITER, Reading(wall, 0), Some(v), Extend(prev, plan, One(View(v))))
    ensures Known(w', h', v, Extend(prev, plan, One(View(v)))) && Grows(w, h, w', h', WRITER)
  {
    var step := WriteOf(j, wall);
    WriteStep(hash, w, h, j, wall, clock, prev, plan, via, v);
    w', h' := Next(hash, w, step), NextHistory(hash, w, h, step, via);
    StepAfter(hash, Start(), NoHistory(), steps, vias, w, h, step, via);
  }

  lemma {:induction false} RanDelivery(hash: bytes -> bytes, steps: seq<Step>, vias: seq<Plan>, w: World, h: History,
                                       copy: Crdt, clock: Reading, prev: Option<Crdt>, plan: Plan, via: Plan, v: Crdt)
    returns (w': World, h': History)
    requires Ran(hash, steps, vias, w, h)
    requires At(w, h, READER, clock, prev, plan) && Known(w, h, copy, via) && Reads(copy)
    requires prev.Some? ==> Reads(prev.value)
    requires Engine.MaxStamp(copy) == copy.ts && !Refuses(clock, copy.ts, 3)
    requires v == if prev.Some? then Merge(prev.value, copy) else copy
    requires |Encode(v)| <= Engine.MAX_DOC_BYTES
    ensures Ran(hash, steps + [DeliveryOf(copy)], vias + [via], w', h')
    ensures At(w', h', READER, Fold(clock, copy.ts, 3), Some(v), Extend(prev, plan, via))
    ensures Grows(w, h, w', h', READER)
  {
    var step := DeliveryOf(copy);
    DeliverStep(hash, w, h, copy, clock, prev, plan, via, v);
    w', h' := Next(hash, w, step), NextHistory(hash, w, h, step, via);
    StepAfter(hash, Start(), NoHistory(), steps, vias, w, h, step, via);
  }

  lemma AtKept(w: World, h: History, w': World, h': History, n: bytes, m: bytes, clock: Reading, doc: Option<Crdt>,
               plan: Plan)
    requires Grows(w, h, w', h', n) && m != n && At(w, h, m, clock, doc, plan)
    ensures At(w', h', m, clock, doc, plan)
  {
  }

  lemma KnownKept(w: World, h: History, w': World, h': History, n: bytes, v: Crdt, plan: Plan)
    requires Grows(w, h, w', h', n) && Known(w, h, v, plan)
    ensures Known(w', h', v, plan)
  {
  }

  /** Three documents written one over the other, and the first merged with the last. */
  datatype Story = Story(j1: Json, j2: Json, j3: Json, d1: Crdt, d2: Crdt, d3: Crdt, both: Crdt) {
    function First(): Plan { One(View(d1)) }
    function Second(): Plan { Two(First(), One(View(d2))) }
    function Third(): Plan { Two(Second(), One(View(d3))) }

    function Steps(): seq<Step> {
      [WriteOf(j1, 1)] + [WriteOf(j2, 2)] + [WriteOf(j3, 3)] + [DeliveryOf(d1)] + [DeliveryOf(d3)]
    }

    function Vias(): seq<Plan> {
      [First()] + [First()] + [First()] + [First()] + [Third()]
    }
  }

  predicate SmallDoc(v: Crdt) {
    Reads(v) && |Encode(v)| <= Engine.MAX_DOC_BYTES
  }

  predicate Writable(j: Json) {
    Keyed(j) && Flat(j, MAX_DECODE_DEPTH)
  }

  predicate Holds(s: Story) {
    && Writable(s.j1) && Writable(s.j2) && Writable(s.j3)
    && FromJson(s.j1, Stamp(1), 0) == (s.d1, 0) && Apply(s.d1, s.j2, Stamp(2), 0) == (s.d2, 0)
    && Apply(s.d2, s.j3, Stamp(3), 0) == (s.d3, 0) && Merge(s.d1, s.d3) == s.both
    && SmallDoc(s.d1) && SmallDoc(s.d2) && SmallDoc(s.d3) && SmallDoc(s.both)
    && Engine.MaxStamp(s.d1) == s.d1.ts == Stamp(1) && Engine.MaxStamp(s.d3) == s.d3.ts == Stamp(3)
  }

  lemma {:induction false} WriterRuns(hash: bytes -> bytes, s: Story) returns (w: World, h: History)
    requires Holds(s)
    ensures Ran(hash, [WriteOf(s.j1, 1)] + [WriteOf(s.j2, 2)] + [WriteOf(s.j3, 3)],
                [s.First()] + [s.First()] + [s.First()], w, h)
    ensures At(w, h, WRITER, Reading(3, 0), Some(s.d3), s.Third())
    ensures At(w, h, READER, Reading(0, 0), None, s.First())
    ensures Known(w, h, s.d1, s.First()) && Known(w, h, s.d3, s.Third())
  {
    var w0, h0, via := Start(), NoHistory(), s.First();
    assert At(w0, h0, WRITER, Reading(0, 0), None, via) && At(w0, h0, READER, Reading(0, 0), None, via);
    var w1, h1 := RanWrite(hash, [], [], w0, h0, s.j1, 1, Reading(0, 0), None, via, via, s.d1);
    AtKept(w0, h0, w1, h1, WRITER, READER, Reading(0, 0), None, via);
    AppendNone([WriteOf(s.j1, 1)]);
    AppendNone([via]);
    var w2, h2 := RanWrite(hash, [WriteOf(s.j1, 1)], [via], w1, h1, s.j2, 2, Reading(1, 0), Some(s.d1), via, via, s.d2);
    AtKept(w1, h1, w2, h2, WRITER, READER, Reading(0, 0), None, via);
    KnownKept(w1, h1, w2, h2, WRITER, s.d1, via);
    w, h := RanWrite(hash, [WriteOf(s.j1, 1)] + [WriteOf(s.j2, 2)], [via] + [via], w2, h2, s.j3, 3, Reading(2, 0),
                     Some(s.d2), s.Second(), via, s.d3);
    AtKept(w2, h2, w, h, WRITER, READER, Reading(0, 0), None, via);
    KnownKept(w2, h2, w, h, WRITER, s.d1, via);
  }

  lemma ReaderClock()
    ensures !Refuses(Reading(0, 0), Stamp(1), 3) && Fold(Reading(0, 0), Stamp(1), 3) == Reading(3, 0)
    ensures !Refuses(Reading(3, 0), Stamp(3), 3) && Fold(Reading(3, 0), Stamp(3), 3) == Reading(3, 1)
  {
  }

  lemma {:induction false} ReaderRuns(hash: bytes -> bytes, s: Story, steps: seq<Step>, vias: seq<Plan>, w: World,
                                      h: History) returns (end: World, hend: History)
    requires Holds(s) && Ran(hash, steps, vias, w, h)
    requires At(w, h, WRITER, Reading(3, 0), Some(s.d3), s.Third())
    requires At(w, h, READER, Reading(0, 0), None, s.First())
    requires Known(w, h, s.d1, s.First()) && Known(w, h, s.d3, s.Third())
    ensures Ran(hash, steps + [DeliveryOf(s.d1)] + [DeliveryOf(s.d3)], vias + [s.First()] + [s.Third()], end, hend)
    ensures At(end, hend, WRITER, Reading(3, 0), Some(s.d3), s.Third())
    ensures At(end, hend, READER, Reading(3, 1), Some(s.both), Two(s.First(), s.Third()))
  {
    ReaderClock();
    var w4, h4 := RanDelivery(hash, steps, vias, w, h, s.d1, Reading(0, 0), None, s.First(), s.First(), s.d1);
    AtKept(w, h, w4, h4, READER, WRITER, Reading(3, 0), Some(s.d3), s.Third());
    KnownKept(w, h, w4, h4, READER, s.d3, s.Third());
    end, hend := RanDelivery(hash, steps + [DeliveryOf(s.d1)], vias + [s.First()], w4, h4, s.d3, Reading(3, 0),
                             Some(s.d1), s.First(), s.Third(), s.both);
    AtKept(w4, h4, end, hend, READER, WRITER, Reading(3, 0), Some(s.d3), s.Third());
  }

  /** Both nodes absorb the same writes; they differ if the last document is not
      what merging the first into it gives. */
  lemma {:induction false} StoryRuns(hash: bytes -> bytes, s: Story) returns (end: World, h: History)
    requires Holds(s)
    ensures Ran(hash, s.Steps(), s.Vias(), end, h)
    ensures At(end, h, WRITER, Reading(3, 0), Some(s.d3), s.Third())
    ensures At(end, h, READER, Reading(3, 1), Some(s.both), Two(s.First(), s.Third()))
  {
    var w3, h3 := WriterRuns(hash, s);
    end, h := ReaderRuns(hash, s, [WriteOf(s.j1, 1)] + [WriteOf(s.j2, 2)] + [WriteOf(s.j3, 3)],
                         [s.First()] + [s.First()] + [s.First()], w3, h3);
  }

  lemma AtHolds(w: World, h: History, n: bytes, clock: Reading, v: Crdt, plan: Plan)
    requires At(w, h, n, clock, Some(v), plan) && Reads(v)
    ensures n in w.nodes && KEY in w.nodes[n].store && n in h.held && KEY in h.held[n] && PlanOf(h, n, KEY) == plan
    ensures Decode(w.nodes[n].store[KEY]) == Some(v)
  {
  }

  // ------------------------------------------------------------------
  // The story
  // ------------------------------------------------------------------

  function Resurrection(): Story {
    Story(Having(X), JObj([]), Having(Y), Holding(Stamp(1), X), Emptied(Stamp(2)), Holding(Stamp(3), Y),
          Both(Stamp(1), Stamp(3)))
  }

  lemma HavingWritable(m: bytes)
    ensures Writable(Having(m)) && Writable(JObj([]))
  {
    assert Keyed(JObj([Named(m, JBool(true))]));
    assert Flat(JBool(true), 62);
    assert Flat(JObj([Named(m, JBool(true))]), 63);
  }

  lemma ResurrectionHolds()
    ensures Holds(Resurrection())
  {
    HavingWritable(X);
    HavingWritable(Y);
    HoldingReads(Stamp(1), X);
    EmptiedReads(Stamp(2));
    HoldingReads(Stamp(3), Y);
    BothReads(Stamp(1), Stamp(3));
    HoldingStamp(Stamp(1), X);
    HoldingStamp(Stamp(3), Y);
    Created(X, Stamp(1));
    Deleted(X, Stamp(1), Stamp(2));
    Recreated(Y, Stamp(2), Stamp(3));
    CopiesMeet(Stamp(1), Stamp(3));
  }

  lemma SameInputs(s: Story)
    ensures Inputs(Two(s.First(), s.Third())) == Inputs(s.Third())
  {
    ThreePlans(View(s.d1), View(s.d2), View(s.d3));
    assert Inputs(s.First()) == {View(s.d1)};
  }

  lemma StartIsInitial()
    ensures Initial(Start())
  {
  }

  lemma {:induction false} StoryDiverges(hash: bytes -> bytes, s: Story) returns (end: World, h: History)
    requires Holds(s) && s.d3 != s.both
    ensures Ran(hash, s.Steps(), s.Vias(), end, h)
    ensures WRITER in end.nodes && KEY in end.nodes[WRITER].store && WRITER in h.held && KEY in h.held[WRITER]
    ensures READER in end.nodes && KEY in end.nodes[READER].store && READER in h.held && KEY in h.held[READER]
    ensures Inputs(PlanOf(h, WRITER, KEY)) == Inputs(PlanOf(h, READER, KEY))
    ensures end.nodes[WRITER].store[KEY] != end.nodes[READER].store[KEY]
    ensures Decode(end.nodes[WRITER].store[KEY]) == Some(s.d3)
    ensures Decode(end.nodes[READER].store[KEY]) == Some(s.both)
  {
    end, h := StoryRuns(hash, s);
    SameInputs(s);
    AtHolds(end, h, WRITER, Reading(3, 0), s.d3, s.Third());
    AtHolds(end, h, READER, Reading(3, 1), s.both, Two(s.First(), s.Third()));
  }

  lemma MemberBack()
    ensures Holding(Stamp(3), Y) != Both(Stamp(1), Stamp(3))
  {
    assert |Inner(Stamp(3), Y).entries| == 1;
  }

  /** Without associating writes, nodes with the same writes can differ: in this run
      both have absorbed the same three writes, and only the reader still has the
      member that was deleted. */
  lemma DeletedMemberReturns(hash: bytes -> bytes) returns (end: World, h: History)
    ensures Initial(Start()) && Ran(hash, Resurrection().Steps(), Resurrection().Vias(), end, h)
    ensures WRITER in end.nodes && KEY in end.nodes[WRITER].store && WRITER in h.held && KEY in h.held[WRITER]
    ensures READER in end.nodes && KEY in end.nodes[READER].store && READER in h.held && KEY in h.held[READER]
    ensures Inputs(PlanOf(h, WRITER, KEY)) == Inputs(PlanOf(h, READER, KEY))
    ensures end.nodes[WRITER].store[KEY] != end.nodes[READER].store[KEY]
    ensures Decode(end.nodes[WRITER].store[KEY]) == Some(Holding(Stamp(3), Y))
    ensures Decode(end.nodes[READER].store[KEY]) == Some(Both(Stamp(1), Stamp(3)))
  {
    StartIsInitial();
    ResurrectionHolds();
    MemberBack();
    end, h := StoryDiverges(hash, Resurrection());
  }
}
