/** JSON that repeats a key or nests past the decoder's cap: exactly these local
    writes, when stored, break what every other run of the mesh keeps.
 */
module Repeats {
  import opened Wrappers
  import opened Sequences
  import opened ByteStrings
  import opened Stamps
  import opened NamedItems
  import opened JsonValues
  import opened Documents
  import opened Codec
  import opened Updates
  import opened Clocks
  import opened Engine
  import opened Depth
  import opened Mesh
  import Lattice
  import Provenance

  /** No repeated key, and at most `left` levels of nesting. */
  predicate Sane(j: Json, left: int) {
    Keyed(j) && Flat(j, left)
  }

  predicate Fits(v: Crdt, left: int) {
    WellFormed(v) && Shallow(v, left)
  }

  predicate AllFit(es: seq<Named<Slot>>, left: int) {
    forall e :: e in es ==> Fits(e.item.value, left)
  }

  lemma FitsEach(v: Crdt, left: int)
    requires v.Container? && Fits(v, left)
    ensures Distinct(v.entries) && AllFit(v.entries, left - 1)
  {
  }

  // ------------------------------------------------------------------
  // What a document reads as
  // ------------------------------------------------------------------

  lemma {:induction false} EqualsSane(a: Json, b: Json, left: int)
    requires Sane(a, left) && JsonEquals(a, b)
    ensures Sane(b, left)
    decreases a
  {
    match a
    case JArr(items) =>
      forall i | 0 <= i < |items| ensures Sane(b.items[i], left - 1) {
        assert items[i] in items && JsonEquals(items[i], b.items[i]);
        EqualsSane(items[i], b.items[i], left - 1);
      }
    case JObj(fields) =>
      EqualsDistinct(fields, b.fields);
      forall f | f in b.fields ensures Sane(f.item, left - 1) {
        assert f.name in Names(b.fields);
        var i :| 0 <= i < |fields| && fields[i].name == f.name;
        assert fields[i] in fields;
        FindMember(b.fields, f);
        EqualsSane(fields[i].item, f.item, left - 1);
      }
    case _ =>
  }

  /** As many fields, each found: the other object repeats no key either. */
  lemma EqualsDistinct(x: seq<Named<Json>>, y: seq<Named<Json>>)
    requires Distinct(x) && |x| == |y| && forall e :: e in x ==> Find(y, e.name).Found?
    ensures Distinct(y) && Names(y) == Names(x)
  {
    forall n | n in Names(x) ensures n in Names(y) {
      var i :| 0 <= i < |x| && x[i].name == n;
      assert x[i] in x;
      var k :| 0 <= k < |y| && y[k] == Named(n, Find(y, n).value);
      assert y[k].name == n;
    }
    DistinctExactly(x);
    DistinctExactly(y);
    SubsetSize(Names(x), Names(y));
  }

  lemma SubsetSize<T>(a: set<T>, b: set<T>)
    requires a <= b
    ensures |a| <= |b| && (|a| == |b| ==> a == b)
  {
    assert b == a + (b - a);
    if |b - a| == 0 { assert b - a == {}; }
  }

  lemma {:induction false} ReadsSane(v: Crdt, left: int)
    requires Fits(v, left)
    ensures Sane(ToJson(v), left)
    decreases v, 1
  {
    if v.Container? && !v.dead {
      FitsEach(v, left);
      if v.shape.ArrayShape? {
        ItemsRead(v.entries, left - 1);
      } else {
        FieldsRead(v.entries, left - 1);
      }
    }
  }

  lemma {:induction false} ItemsRead(es: seq<Named<Slot>>, left: int)
    requires AllFit(es, left)
    ensures forall x :: x in ToItems(es) ==> Sane(x, left)
    decreases es, 0
  {
    if es != [] {
      assert es[0] in es;
      ReadsSane(es[0].item.value, left);
      ItemsRead(es[1..], left);
    }
  }

  lemma {:induction false} FieldsRead(es: seq<Named<Slot>>, left: int)
    requires AllFit(es, left) && Distinct(es)
    ensures Distinct(ToFields(es)) && Names(ToFields(es)) <= Names(es)
    ensures forall f :: f in ToFields(es) ==> Sane(f.item, left)
    decreases es, 0
  {
    if es != [] {
      assert es[0] in es;
      ReadsSane(es[0].item.value, left);
      FieldsRead(es[1..], left);
      AppendNames([es[0]], es[1..]);
      HeadTail(es);
      DistinctTail(es);
      if !es[0].item.value.dead {
        var f := Named(es[0].name, ToJson(es[0].item.value));
        ConsDistinct(f, ToFields(es[1..]));
      }
    }
  }

  lemma DistinctTail(es: seq<Named<Slot>>)
    requires es != [] && Distinct(es)
    ensures es[0].name !in Names(es[1..])
  {
  }

  lemma ConsDistinct(f: Named<Json>, fs: seq<Named<Json>>)
    requires Distinct(fs) && f.name !in Names(fs)
    ensures Distinct([f] + fs) && Names([f] + fs) == {f.name} + Names(fs)
  {
    AppendNames([f], fs);
    assert Names([f]) == {f.name} by { assert [f][0].name == f.name; }
    forall i | 0 <= i < |fs| ensures fs[i].name != f.name {
      assert fs[i].name in Names(fs);
    }
  }

  // ------------------------------------------------------------------
  // A new document
  // ------------------------------------------------------------------

  lemma {:induction false} BuiltSane(j: Json, ts: Timestamp, next: nat, left: int)
    requires Fits(FromJson(j, ts, next).0, left)
    ensures Sane(j, left)
    decreases j, 1
  {
    match j
    case JArr(items) =>
      FitsEach(FromJson(j, ts, next).0, left);
      BuiltItems(items, ts, next, left - 1);
    case JObj(fields) =>
      FitsEach(FromJson(j, ts, next).0, left);
      BuiltFields(fields, ts, next, left - 1);
      DistinctExactly(FromFields(fields, ts, next).0);
      DistinctExactly(fields);
    case _ =>
  }

  lemma {:induction false} BuiltItems(items: seq<Json>, ts: Timestamp, next: nat, left: int)
    requires AllFit(FromItems(items, ts, next).0, left)
    ensures forall x :: x in items ==> Sane(x, left)
    decreases items, 0
  {
    if items != [] {
      var (v, n) := FromJson(items[0], ts, next + 1);
      var e, rest := Named(Tag(ts, next), Slot(false, v)), FromItems(items[1..], ts, n).0;
      FitFirst(e, rest, left);
      BuiltSane(items[0], ts, next + 1, left);
      BuiltItems(items[1..], ts, n, left);
      HeadTail(items);
    }
  }

  lemma FitFirst(e: Named<Slot>, rest: seq<Named<Slot>>, left: int)
    requires AllFit([e] + rest, left)
    ensures Fits(e.item.value, left) && AllFit(rest, left)
  {
    assert e in [e] + rest;
  }

  lemma {:induction false} BuiltFields(fields: seq<Named<Json>>, ts: Timestamp, next: nat, left: int)
    requires AllFit(FromFields(fields, ts, next).0, left)
    ensures forall f :: f in fields ==> Sane(f.item, left)
    ensures |FromFields(fields, ts, next).0| == |fields| && Names(FromFields(fields, ts, next).0) == Names(fields)
    decreases fields, 0
  {
    if fields != [] {
      var (v, n) := FromJson(fields[0].item, ts, next);
      var e, rest := Named(fields[0].name, Slot(false, v)), FromFields(fields[1..], ts, n).0;
      FitFirst(e, rest, left);
      BuiltSane(fields[0].item, ts, next, left);
      BuiltFields(fields[1..], ts, n, left);
      SameFirstName(e, rest, fields);
      HeadTail(fields);
    }
  }

  lemma SameFirstName(e: Named<Slot>, rest: seq<Named<Slot>>, fields: seq<Named<Json>>)
    requires fields != [] && e.name == fields[0].name && Names(rest) == Names(fields[1..])
    ensures Names([e] + rest) == Names(fields)
  {
    HeadTail(fields);
    AppendNames([e], rest);
    AppendNames([fields[0]], fields[1..]);
    assert Names([e]) == {e.name} by { assert [e][0].name == e.name; }
    assert Names([fields[0]]) == {e.name} by { assert [fields[0]][0].name == e.name; }
  }

  // ------------------------------------------------------------------
  // An updated document
  // ------------------------------------------------------------------

  lemma {:induction false} UpdatedSane(prev: Crdt, j: Json, ts: Timestamp, next: nat, left: int)
    requires Fits(prev, left) && Fits(Apply(prev, j, ts, next).0, left)
    ensures Sane(j, left)
    decreases j, 1
  {
    if !prev.dead && JsonEquals(ToJson(prev), j) {
      ReadsSane(prev, left);
      EqualsSane(ToJson(prev), j, left);
    } else if !prev.dead && prev.Container? && prev.shape.ObjectShape? && j.JObj? {
      FitsEach(prev, left);
      FitsEach(Apply(prev, j, ts, next).0, left);
      var es := UpdateFields(prev.entries, j.fields, ts, next).0;
      FitFront(es, Missing(prev.entries, j.fields, ts), left - 1);
      FieldsSane(prev.entries, j.fields, ts, next, left - 1);
      DistinctExactly(es);
      DistinctExactly(j.fields);
    } else if !prev.dead && prev.Container? && prev.shape.ArrayShape? && j.JArr? {
      FitsEach(prev, left);
      FitsEach(Apply(prev, j, ts, next).0, left);
      var (es, gone, _) := MatchItems(prev.entries, j.items, ts, next);
      FitFront(es, Remove(gone), left - 1);
      ItemsSane(prev.entries, j.items, ts, next, left - 1);
    } else {
      BuiltSane(j, ts, next, left);
    }
  }

  lemma FitFront(a: seq<Named<Slot>>, b: seq<Named<Slot>>, left: int)
    requires Distinct(a + b) && AllFit(a + b, left)
    ensures Distinct(a) && AllFit(a, left)
  {
    assert forall i :: 0 <= i < |a| ==> (a + b)[i] == a[i];
    forall e | e in a ensures e in a + b {}
  }

  lemma {:induction false} FieldsSane(prev: seq<Named<Slot>>, fields: seq<Named<Json>>, ts: Timestamp, next: nat,
                                      left: int)
    requires AllFit(prev, left) && AllFit(UpdateFields(prev, fields, ts, next).0, left)
    ensures forall f :: f in fields ==> Sane(f.item, left)
    ensures var es := UpdateFields(prev, fields, ts, next).0; |es| == |fields| && Names(es) == Names(fields)
    decreases fields, 0
  {
    if fields != [] {
      var (v, n) := UpdateField(prev, fields[0], ts, next);
      var e, rest := Named(fields[0].name, Slot(false, v)), UpdateFields(prev, fields[1..], ts, n).0;
      FitFirst(e, rest, left);
      var found := Find(prev, fields[0].name);
      if found.Found? {
        assert Named(fields[0].name, found.value) in prev;
        UpdatedSane(found.value.value, fields[0].item, ts, next, left);
      } else {
        BuiltSane(fields[0].item, ts, next, left);
      }
      FieldsSane(prev, fields[1..], ts, n, left);
      SameFirstName(e, rest, fields);
      HeadTail(fields);
    }
  }

  lemma {:induction false} ItemsSane(prev: seq<Named<Slot>>, items: seq<Json>, ts: Timestamp, next: nat, left: int)
    requires AllFit(prev, left) && AllFit(MatchItems(prev, items, ts, next).0, left)
    ensures forall x :: x in items ==> Sane(x, left)
    decreases items, 0
  {
    if items != [] {
      HeadTail(items);
      var i := FirstMatch(prev, items[0]);
      if i < |prev| {
        var others := prev[..i] + prev[i + 1..];
        assert prev[i] in prev;
        ReadsSane(prev[i].item.value, left);
        EqualsSane(ToJson(prev[i].item.value), items[0], left);
        FitFirst(prev[i], MatchItems(others, items[1..], ts, next).0, left);
        ItemsSane(others, items[1..], ts, next, left);
      } else {
        var (v, n) := FromJson(items[0], ts, next + 1);
        FitFirst(Named(Tag(ts, next), Slot(false, v)), MatchItems(prev, items[1..], ts, n).0, left);
        BuiltSane(items[0], ts, next + 1, left);
        ItemsSane(prev, items[1..], ts, n, left);
      }
    }
  }

  // ------------------------------------------------------------------
  // Exactly
  // ------------------------------------------------------------------

  /** A new document has distinct names and can be read back exactly when the JSON
      repeats no key and nests within the cap. */
  lemma BuildExactly(j: Json, ts: Timestamp, next: nat, left: int)
    ensures Fits(FromJson(j, ts, next).0, left) <==> Sane(j, left)
  {
    if Sane(j, left) {
      BuildGood(j, ts, next);
      BuildShallow(j, ts, next, left);
    } else if Fits(FromJson(j, ts, next).0, left) {
      BuiltSane(j, ts, next, left);
    }
  }

  /** ... and so has an updated one. */
  lemma UpdateExactly(prev: Crdt, j: Json, ts: Timestamp, next: nat, left: int)
    requires Updatable(prev, ts) && Shallow(prev, left)
    ensures Fits(Apply(prev, j, ts, next).0, left) <==> Sane(j, left)
  {
    if Sane(j, left) {
      UpdateGood(prev, j, ts, next);
      ApplyShallow(prev, j, ts, next, left);
    } else if Fits(Apply(prev, j, ts, next).0, left) {
      UpdatedSane(prev, j, ts, next, left);
    }
  }

  /** Whatever the depth, names stay distinct exactly when no key is repeated. */
  lemma DistinctNamesExactly(prev: Crdt, j: Json, ts: Timestamp, next: nat)
    requires Updatable(prev, ts)
    ensures WellFormed(FromJson(j, ts, next).0) <==> Keyed(j)
    ensures WellFormed(Apply(prev, j, ts, next).0) <==> Keyed(j)
  {
    var built, updated := FromJson(j, ts, next).0, Apply(prev, j, ts, next).0;
    var l := SomeDepth(built);
    var m := SomeDepth(prev);
    var n := SomeDepth(updated);
    ShallowMonotone(prev, m, m + n);
    ShallowMonotone(updated, n, m + n);
    if Keyed(j) {
      BuildGood(j, ts, next);
      UpdateGood(prev, j, ts, next);
    }
    BuildExactly(j, ts, next, l);
    UpdateExactly(prev, j, ts, next, m + n);
  }

  // ------------------------------------------------------------------
  // Removal flags, repeated keys or not
  // ------------------------------------------------------------------

  predicate AllFlagged(shape: Shape, es: seq<Named<Slot>>) {
    forall e :: e in es ==> (shape.ObjectShape? ==> !e.item.removed) && Flagged(e.item.value)
  }

  lemma {:induction false} BuiltFlagged(j: Json, ts: Timestamp, next: nat)
    ensures Flagged(FromJson(j, ts, next).0)
    decreases j, 1
  {
    match j
    case JArr(items) => ItemsFlagged(items, ts, next);
    case JObj(fields) => FieldsFlagged(fields, ts, next);
    case _ =>
  }

  lemma {:induction false} ItemsFlagged(items: seq<Json>, ts: Timestamp, next: nat)
    ensures AllFlagged(Lattice.ArrayShape, FromItems(items, ts, next).0)
    decreases items, 0
  {
    if items != [] {
      BuiltFlagged(items[0], ts, next + 1);
      ItemsFlagged(items[1..], ts, FromJson(items[0], ts, next + 1).1);
    }
  }

  lemma {:induction false} FieldsFlagged(fields: seq<Named<Json>>, ts: Timestamp, next: nat)
    ensures AllFlagged(Lattice.ObjectShape, FromFields(fields, ts, next).0)
    decreases fields, 0
  {
    if fields != [] {
      BuiltFlagged(fields[0].item, ts, next);
      FieldsFlagged(fields[1..], ts, FromJson(fields[0].item, ts, next).1);
    }
  }

  lemma {:induction false} UpdatedFlagged(prev: Crdt, j: Json, ts: Timestamp, next: nat)
    requires Flagged(prev)
    ensures Flagged(Apply(prev, j, ts, next).0)
    decreases j, 1
  {
    if !prev.dead && JsonEquals(ToJson(prev), j) {
    } else if !prev.dead && prev.Container? && prev.shape.ObjectShape? && j.JObj? {
      UpdatesFlagged(prev.entries, j.fields, ts, next);
      MissingFlagged(prev.entries, j.fields, ts);
    } else if !prev.dead && prev.Container? && prev.shape.ArrayShape? && j.JArr? {
      MatchesFlagged(prev.entries, j.items, ts, next);
      RemoveFlagged(MatchItems(prev.entries, j.items, ts, next).1);
    } else {
      BuiltFlagged(j, ts, next);
    }
  }

  lemma {:induction false} UpdatesFlagged(prev: seq<Named<Slot>>, fields: seq<Named<Json>>, ts: Timestamp, next: nat)
    requires AllFlagged(Lattice.ObjectShape, prev)
    ensures AllFlagged(Lattice.ObjectShape, UpdateFields(prev, fields, ts, next).0)
    decreases fields, 0
  {
    if fields != [] {
      var found := Find(prev, fields[0].name);
      if found.Found? {
        assert Named(fields[0].name, found.value) in prev;
        UpdatedFlagged(found.value.value, fields[0].item, ts, next);
      } else {
        BuiltFlagged(fields[0].item, ts, next);
      }
      UpdatesFlagged(prev, fields[1..], ts, UpdateField(prev, fields[0], ts, next).1);
    }
  }

  lemma {:induction false} MissingFlagged(prev: seq<Named<Slot>>, fields: seq<Named<Json>>, ts: Timestamp)
    requires AllFlagged(Lattice.ObjectShape, prev)
    ensures AllFlagged(Lattice.ObjectShape, Missing(prev, fields, ts))
  {
    if prev != [] {
      assert prev[0] in prev;
      MissingFlagged(prev[1..], fields, ts);
    }
  }

  lemma {:induction false} MatchesFlagged(prev: seq<Named<Slot>>, items: seq<Json>, ts: Timestamp, next: nat)
    requires AllFlagged(Lattice.ArrayShape, prev)
    ensures AllFlagged(Lattice.ArrayShape, MatchItems(prev, items, ts, next).0)
    ensures AllFlagged(Lattice.ArrayShape, MatchItems(prev, items, ts, next).1)
    decreases items
  {
    if items != [] {
      var i := FirstMatch(prev, items[0]);
      if i < |prev| {
        assert prev[i] in prev;
        MatchesFlagged(prev[..i] + prev[i + 1..], items[1..], ts, next);
      } else {
        BuiltFlagged(items[0], ts, next + 1);
        MatchesFlagged(prev, items[1..], ts, FromJson(items[0], ts, next + 1).1);
      }
    }
  }

  lemma {:induction false} RemoveFlagged(es: seq<Named<Slot>>)
    requires AllFlagged(Lattice.ArrayShape, es)
    ensures AllFlagged(Lattice.ArrayShape, Remove(es))
  {
    if es != [] {
      assert es[0] in es;
      RemoveFlagged(es[1..]);
    }
  }

  // ------------------------------------------------------------------
  // In the mesh
  // ------------------------------------------------------------------

  /** The document of a local write fits exactly when its JSON is sane. */
  lemma WrittenExactly(hash: bytes -> bytes, w: World, step: Step)
    requires Inv(hash, w) && step.LocalWrite? && step.node in w.nodes && !Wraps(w.nodes[step.node].clock, step.wall)
    ensures var s := w.nodes[step.node];
      && (step.key in s.store ==> Decode(s.store[step.key]).Some?)
      && var v := Written(s, step.key, step.json, step.wall).0;
         Flagged(v) && (Fits(v, MAX_DECODE_DEPTH) <==> Sane(step.json, MAX_DECODE_DEPTH))
  {
    var s := w.nodes[step.node];
    var ts := StampOf(s, step.wall);
    assert NodeOk(hash, w, step.node);
    WriteDominates(hash, w, step);
    if step.key in s.store {
      assert GoodCopy(w, step.key, s.store[step.key]);
      var prev := Decode(s.store[step.key]).value;
      UpdateExactly(prev, step.json, ts, s.tags, MAX_DECODE_DEPTH);
      WellFormedFlagged(prev);
      UpdatedFlagged(prev, step.json, ts, s.tags);
    } else {
      BuildExactly(step.json, ts, s.tags, MAX_DECODE_DEPTH);
      BuiltFlagged(step.json, ts, s.tags);
    }
  }

  /** Stored bytes are honest only if the document was well formed and shallow. */
  lemma HonestFits(v: Crdt)
    requires Flagged(v) && Honest(Encode(v))
    ensures Fits(v, MAX_DECODE_DEPTH)
  {
    DecodeEncode(v);
    CanonWellFormed(v);
  }

  /** A refused write leaves the invariant alone, whatever the JSON. */
  lemma RefusedKeeps(hash: bytes -> bytes, w: World, step: Step)
    requires Inv(hash, w) && step.LocalWrite? && step.node in w.nodes && !Wraps(w.nodes[step.node].clock, step.wall)
    requires !After(hash, w.nodes[step.node], step).1.Ok?
    ensures Inv(hash, Next(hash, w, step))
  {
    var s := w.nodes[step.node];
    assert NodeOk(hash, w, step.node);
    WriteDominates(hash, w, step);
    var s1 := s.(clock := Tick(s.clock, step.wall), tags := Written(s, step.key, step.json, step.wall).1);
    assert After(hash, s, step) == (s1, Refused);
    PhysicalBound(s.clock, StampOf(s, step.wall), step.wall, if step.node in w.walls then w.walls[step.node] else 0);
    forall t | Covers(s.clock, t) ensures Covers(s1.clock, t) {
      TickCovers(s.clock, step.wall, t);
    }
    assert CacheOk(hash, s1);
    assert StepOk(hash, w, step);
    StepOkKeeps(hash, w, step);
  }

  /** A local write keeps the invariant of the mesh if and only if it is refused or
      its JSON repeats no key and nests within the decoder's cap. */
  lemma StepKeepsExactly(hash: bytes -> bytes, w: World, step: Step)
    requires Inv(hash, w) && step.LocalWrite? && step.node in w.nodes && !Wraps(w.nodes[step.node].clock, step.wall)
    ensures Inv(hash, Next(hash, w, step)) <==>
      (After(hash, w.nodes[step.node], step).1.Ok? ==> Sane(step.json, MAX_DECODE_DEPTH))
  {
    if !After(hash, w.nodes[step.node], step).1.Ok? {
      RefusedKeeps(hash, w, step);
    } else if Sane(step.json, MAX_DECODE_DEPTH) {
      StepKeeps(hash, w, step);
    } else {
      InsaneBreaks(hash, w, step);
    }
  }

  lemma InsaneBreaks(hash: bytes -> bytes, w: World, step: Step)
    requires Inv(hash, w) && step.LocalWrite? && step.node in w.nodes && !Wraps(w.nodes[step.node].clock, step.wall)
    requires After(hash, w.nodes[step.node], step).1.Ok? && !Sane(step.json, MAX_DECODE_DEPTH)
    ensures !Inv(hash, Next(hash, w, step))
  {
    var s, w' := w.nodes[step.node], Next(hash, w, step);
    WrittenExactly(hash, w, step);
    var v := Written(s, step.key, step.json, step.wall).0;
    assert (step.key, Encode(v)) in w'.sent;
    if Honest(Encode(v)) {
      HonestFits(v);
      assert false;
    }
    assert !GoodCopy(w', step.key, Encode(v));
  }

  // ------------------------------------------------------------------
  // A repeated key
  // ------------------------------------------------------------------

  /** The count of entries is in the bytes. */
  lemma CountsDiffer(a: Crdt, b: Crdt)
    requires a.Container? && b.Container? && |Head(a)| == |Head(b)|
    requires |a.entries| < U32_LIMIT && |b.entries| < U32_LIMIT && |a.entries| != |b.entries|
    ensures Encode(a) != Encode(b)
  {
    var x, y := Encode(a), Encode(b);
    var h := |Head(a)|;
    assert x[h..][..4] == U32(|a.entries|);
    assert y[h..][..4] == U32(|b.entries|);
    U32RoundTrip(|a.entries|);
    U32RoundTrip(|b.entries|);
  }

  lemma {:induction false} NoneOnly(es: seq<Named<Slot>>)
    ensures Only(es, {}) == []
  {
    if es != [] { NoneOnly(es[1..]); }
  }

  /** Containers with the same names and different counts: the merge has as many
      entries as its left side, so the two merges differ. */
  lemma MergeCountsDiffer(a: Crdt, b: Crdt)
    requires Documents.Mergeable(a, b) && Names(a.entries) == Names(b.entries)
    requires |a.entries| < U32_LIMIT && |b.entries| < U32_LIMIT && |a.entries| != |b.entries|
    ensures |Union(a.entries, b.entries)| == |a.entries| && |Union(b.entries, a.entries)| == |b.entries|
    ensures Encode(Merge(a, b)) != Encode(Merge(b, a))
  {
    var ab, ba := Union(a.entries, b.entries), Union(b.entries, a.entries);
    assert Names(a.entries) - Names(b.entries) == {} == Names(b.entries) - Names(a.entries);
    NoneOnly(a.entries);
    NoneOnly(b.entries);
    SortItems(ab);
    SortItems(ba);
    StampOrder();
    assert Head(Merge(a, b)) == Head(Merge(b, a));
    CountsDiffer(Merge(a, b), Merge(b, a));
  }

  lemma BuiltLive(j: Json, ts: Timestamp, next: nat)
    ensures !FromJson(j, ts, next).0.dead
  {
  }

  lemma BuiltTwice(k: bytes, x: Json, y: Json, ts: Timestamp, next: nat)
    ensures var a := FromJson(JObj([Named(k, x), Named(k, y)]), ts, next).0;
      && a.Container? && !a.dead && a.shape.ObjectShape? && |a.entries| == 2
      && a.entries[0].name == a.entries[1].name == k
      && !a.entries[0].item.value.dead && !a.entries[1].item.value.dead
  {
    var fields := [Named(k, x), Named(k, y)];
    var n := FromJson(x, ts, next).1;
    assert fields[1..] == [Named(k, y)];
    assert [Named(k, y)][1..] == [];
    assert FromFields([Named(k, y)], ts, n).0 == [Named(k, Slot(false, FromJson(y, ts, n).0))];
    BuiltLive(x, ts, next);
    BuiltLive(y, ts, n);
  }

  lemma UpdatedOnce(a: Crdt, k: bytes, z: Json, ts: Timestamp, next: nat)
    requires a.Container? && !a.dead && a.shape.ObjectShape? && |a.entries| == 2
    requires a.entries[0].name == a.entries[1].name == k
    requires !a.entries[0].item.value.dead && !a.entries[1].item.value.dead
    ensures var b := Apply(a, JObj([Named(k, z)]), ts, next).0;
      b.Container? && !b.dead && b.shape.ObjectShape? && |b.entries| == 1 && b.entries[0].name == k
  {
    var fields := [Named(k, z)];
    LiveFields(a.entries);
    assert fields[0].name in Names(fields);
    assert Missing(a.entries[1..], fields, ts) == [];
    assert Missing(a.entries, fields, ts) == [];
    assert fields[1..] == [];
    var (v, n) := UpdateField(a.entries, fields[0], ts, next);
    assert UpdateFields(a.entries, fields[1..], ts, n).0 == [];
    assert UpdateFields(a.entries, fields, ts, next).0 == [Named(k, Slot(false, v))];
    assert !JsonEquals(ToJson(a), JObj(fields));
  }

  lemma CanonCounts(v: Crdt)
    requires v.Container?
    ensures |Canon(v).entries| == |v.entries| && Names(Canon(v).entries) == Names(v.entries)
  {
    CanonEachFacts(v.entries);
    SortItems(CanonEach(v.entries));
  }

  lemma StoredCountsDiffer(a: Crdt, b: Crdt)
    requires Documents.Mergeable(a, b) && Names(a.entries) == Names(b.entries)
    requires |a.entries| < U32_LIMIT && |b.entries| < U32_LIMIT && |a.entries| != |b.entries|
    requires Flagged(a) && Shallow(a, MAX_DECODE_DEPTH) && |Encode(a)| <= MAX_DOC_BYTES
    requires Flagged(b) && Shallow(b, MAX_DECODE_DEPTH) && |Encode(b)| <= MAX_DOC_BYTES
    ensures Decode(Encode(a)).Some? && Decode(Encode(b)).Some?
    ensures var x, y := Decode(Encode(a)).value, Decode(Encode(b)).value; Encode(Merge(x, y)) != Encode(Merge(y, x))
  {
    DecodeEncode(a);
    DecodeEncode(b);
    CanonCounts(a);
    CanonCounts(b);
    MergeCountsDiffer(Canon(a), Canon(b));
  }

  /** An object is written with a key twice and then with that key once: merging
      the two versions, as built or as read back from the store, keeps two entries
      or one, depending on which side is merged into which. */
  lemma RepeatedKeyDiverges(k: bytes, x: Json, y: Json, z: Json, t1: Timestamp, t2: Timestamp, m: nat, n: nat)
    ensures var a := FromJson(JObj([Named(k, x), Named(k, y)]), t1, m).0;
      var b := Apply(a, JObj([Named(k, z)]), t2, n).0;
      && a.Container? && b.Container?
      && |Union(a.entries, b.entries)| == 2 && |Union(b.entries, a.entries)| == 1
      && Encode(Merge(a, b)) != Encode(Merge(b, a))
      && (Shallow(a, MAX_DECODE_DEPTH) && Shallow(b, MAX_DECODE_DEPTH)
          && |Encode(a)| <= MAX_DOC_BYTES && |Encode(b)| <= MAX_DOC_BYTES ==>
            && Decode(Encode(a)).Some? && Decode(Encode(b)).Some?
            && var c, d := Decode(Encode(a)).value, Decode(Encode(b)).value;
               Encode(Merge(c, d)) != Encode(Merge(d, c)))
  {
    var twice, once := JObj([Named(k, x), Named(k, y)]), JObj([Named(k, z)]);
    var a := FromJson(twice, t1, m).0;
    BuiltTwice(k, x, y, t1, m);
    var b := Apply(a, once, t2, n).0;
    UpdatedOnce(a, k, z, t2, n);
    assert Names(a.entries) == {k} by { assert a.entries[0].name == k; }
    assert Names(b.entries) == {k} by { assert b.entries[0].name == k; }
    MergeCountsDiffer(a, b);
    if Shallow(a, MAX_DECODE_DEPTH) && Shallow(b, MAX_DECODE_DEPTH)
       && |Encode(a)| <= MAX_DOC_BYTES && |Encode(b)| <= MAX_DOC_BYTES {
      BuiltFlagged(twice, t1, m);
      UpdatedFlagged(a, once, t2, n);
      StoredCountsDiffer(a, b);
    }
  }
}
