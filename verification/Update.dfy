/** Local writes: building a document from JSON, reading it back, and the
    diff-style update of an existing document.
 */
module Updates {
  import opened Wrappers
  import opened Sequences
  import opened ByteStrings
  import opened Stamps
  import opened NamedItems
  import opened JsonValues
  import opened Documents
  import Lattice
  import opened Provenance

  // ------------------------------------------------------------------
  // JSON to document and back
  // ------------------------------------------------------------------

  /** The new tree and the tag counter after building it. */
  function FromJson(j: Json, ts: Timestamp, next: nat): (Crdt, nat)
    decreases j, 1
  {
    match j
    case JNull => (Register(ts, false, Lattice.Null), next)
    case JBool(b) => (Register(ts, false, Lattice.Bool(b)), next)
    case JInt(i) => (Register(ts, false, Lattice.Int(i)), next)
    case JStr(s) => (Register(ts, false, Lattice.Str(s)), next)
    case JArr(items) =>
      var (es, n) := FromItems(items, ts, next);
      (Container(ts, false, Lattice.ArrayShape, es), n)
    case JObj(fields) =>
      var (es, n) := FromFields(fields, ts, next);
      (Container(ts, false, Lattice.ObjectShape, es), n)
  }

  function FromItems(items: seq<Json>, ts: Timestamp, next: nat): (seq<Named<Slot>>, nat)
    decreases items, 0
  {
    if items == [] then ([], next) else
    var (v, n) := FromJson(items[0], ts, next + 1);
    var (rest, m) := FromItems(items[1..], ts, n);
    ([Named(Tag(ts, next), Slot(false, v))] + rest, m)
  }

  function FromFields(fields: seq<Named<Json>>, ts: Timestamp, next: nat): (seq<Named<Slot>>, nat)
    decreases fields, 0
  {
    if fields == [] then ([], next) else
    var (v, n) := FromJson(fields[0].item, ts, next);
    var (rest, m) := FromFields(fields[1..], ts, n);
    ([Named(fields[0].name, Slot(false, v))] + rest, m)
  }

  function ToJson(v: Crdt): Json
    decreases v, 1
  {
    if v.dead then JNull else
    match v
    case Register(_, _, Null) => JNull
    case Register(_, _, Bool(b)) => JBool(b)
    case Register(_, _, Int(i)) => JInt(i)
    case Register(_, _, Str(s)) => JStr(s)
    case Container(_, _, ArrayShape, entries) => JArr(ToItems(entries))
    case Container(_, _, ObjectShape, entries) => JObj(ToFields(entries))
  }

  function ToItems(es: seq<Named<Slot>>): seq<Json>
    decreases es, 0
  {
    if es == [] then [] else
    (if es[0].item.removed then [] else [ToJson(es[0].item.value)]) + ToItems(es[1..])
  }

  function ToFields(es: seq<Named<Slot>>): seq<Named<Json>>
    decreases es, 0
  {
    if es == [] then [] else
    (if es[0].item.value.dead then [] else [Named(es[0].name, ToJson(es[0].item.value))]) + ToFields(es[1..])
  }

  // ------------------------------------------------------------------
  // Updating an existing document
  // ------------------------------------------------------------------

  function Apply(prev: Crdt, j: Json, ts: Timestamp, next: nat): (Crdt, nat)
    decreases j, 1
  {
    if !prev.dead && JsonEquals(ToJson(prev), j) then
      (prev, next)
    else if !prev.dead && prev.Container? && prev.shape.ObjectShape? && j.JObj? then
      var (es, n) := UpdateFields(prev.entries, j.fields, ts, next);
      (Container(ts, false, Lattice.ObjectShape, es + Missing(prev.entries, j.fields, ts)), n)
    else if !prev.dead && prev.Container? && prev.shape.ArrayShape? && j.JArr? then
      var (es, left, n) := MatchItems(prev.entries, j.items, ts, next);
      (Container(ts, false, Lattice.ArrayShape, es + Remove(left)), n)
    else
      FromJson(j, ts, next)
  }

  function UpdateFields(prev: seq<Named<Slot>>, fields: seq<Named<Json>>, ts: Timestamp, next: nat)
    : (seq<Named<Slot>>, nat)
    decreases fields, 0
  {
    if fields == [] then ([], next) else
    var (v, n) := UpdateField(prev, fields[0], ts, next);
    var (rest, m) := UpdateFields(prev, fields[1..], ts, n);
    ([Named(fields[0].name, Slot(false, v))] + rest, m)
  }

  function UpdateField(prev: seq<Named<Slot>>, f: Named<Json>, ts: Timestamp, next: nat): (Crdt, nat)
    decreases f.item, 2
  {
    var found := Find(prev, f.name);
    if found.Found? then Apply(found.value.value, f.item, ts, next) else FromJson(f.item, ts, next)
  }

  /** Fields absent from the new object become tombstones. */
  function Missing(prev: seq<Named<Slot>>, fields: seq<Named<Json>>, ts: Timestamp): seq<Named<Slot>> {
    if prev == [] then [] else
    (if prev[0].name in Names(fields) then []
     else if prev[0].item.value.dead then [prev[0]]
     else [Named(prev[0].name, Slot(false, Register(ts, true, Lattice.Null)))])
    + Missing(prev[1..], fields, ts)
  }

  /** The position of the first live element that reads as `x`, or `|es|`. */
  function FirstMatch(es: seq<Named<Slot>>, x: Json): (i: nat)
    ensures i <= |es|
    ensures i < |es| ==> !es[i].item.removed && JsonEquals(ToJson(es[i].item.value), x)
  {
    if es == [] then 0
    else if !es[0].item.removed && JsonEquals(ToJson(es[0].item.value), x) then 0
    else 1 + FirstMatch(es[1..], x)
  }

  /** The element vector of the new array, and the previous elements nothing
      matched (in order).  Dropping a matched element stands for marking it. */
  function MatchItems(prev: seq<Named<Slot>>, items: seq<Json>, ts: Timestamp, next: nat)
    : (seq<Named<Slot>>, seq<Named<Slot>>, nat)
    decreases items
  {
    if items == [] then ([], prev, next) else
    var i := FirstMatch(prev, items[0]);
    if i < |prev| then
      var (rest, left, m) := MatchItems(prev[..i] + prev[i + 1..], items[1..], ts, next);
      ([prev[i]] + rest, left, m)
    else
      var (v, n) := FromJson(items[0], ts, next + 1);
      var (rest, left, m) := MatchItems(prev, items[1..], ts, n);
      ([Named(Tag(ts, next), Slot(false, v))] + rest, left, m)
  }

  function Remove(es: seq<Named<Slot>>): seq<Named<Slot>> {
    if es == [] then [] else [Named(es[0].name, Slot(true, es[0].item.value))] + Remove(es[1..])
  }

  // ------------------------------------------------------------------
  // Entries and cells
  // ------------------------------------------------------------------

  function ViewOf(v: Option<Crdt>): Option<Lattice.Doc> {
    if v.Some? then Some(View(v.value)) else None
  }

  /** A well-formed replacement for `prev` that reads as `j`. */
  ghost predicate Good(v: Crdt, prev: Option<Crdt>, j: Json, ts: Timestamp) {
    && WellFormed(v)
    && !v.dead
    && Extends(View(v), ViewOf(prev), ts)
    && JsonEquals(ToJson(v), j)
  }

  /** One entry of a new container, against the previous container's cells. */
  ghost predicate GoodEntry(e: Named<Slot>, prev: Option<Lattice.Doc>, ts: Timestamp) {
    WellFormed(e.item.value) && Extends(View(e.item.value), Child(prev, e.name), ts)
  }

  /** ... with the flags and tag its container's shape demands. */
  ghost predicate EntryOk(shape: Shape, e: Named<Slot>, prev: Option<Lattice.Doc>, ts: Timestamp) {
    && GoodEntry(e, prev, ts)
    && (shape.ObjectShape? ==> !e.item.removed)
    && (shape.ArrayShape? ==> TaggedBy(e.name, e.item.value.ts))
  }

  /** Every previous name is still there, and removals are not undone. */
  ghost predicate Remembers(es: seq<Named<Slot>>, prev: Lattice.Doc) {
    prev.Node? ==> forall n :: n in prev.cells ==>
      n in Names(es) && (prev.cells[n].removed ==> Index(es)[n].removed)
  }

  lemma CellExtends(v: Crdt, prev: Option<Lattice.Doc>, ts: Timestamp, n: bytes)
    requires v.Container? && Distinct(v.entries) && n in Names(v.entries)
    requires forall e :: e in v.entries ==> EntryOk(v.shape, e, prev, ts)
    ensures var cell := Cells(v.entries)[n];
      && Extends(cell.value, Child(prev, n), ts)
      && (v.shape.ObjectShape? ==> !cell.removed)
      && (v.shape.ArrayShape? ==> TaggedBy(n, cell.value.ts))
      && cell.removed == Index(v.entries)[n].removed
  {
    var e := Named(n, Index(v.entries)[n]);
    assert e in v.entries;
    CellOf(v.entries, e);
    assert EntryOk(v.shape, e, prev, ts);
  }

  lemma EntriesExtend(v: Crdt, prev: Option<Lattice.Doc>, ts: Timestamp)
    requires v.Container? && !v.dead && v.ts == ts && Distinct(v.entries)
    requires forall e :: e in v.entries ==> EntryOk(v.shape, e, prev, ts)
    requires prev.Some? ==> Before(prev.value.ts, ts)
    requires prev.Some? && Lattice.Mergeable(prev.value, View(v)) ==> Remembers(v.entries, prev.value)
    ensures WellFormed(v) && Extends(View(v), prev, ts)
  {
    var d := View(v);
    forall n | n in d.cells
      ensures Extends(d.cells[n].value, Child(prev, n), ts)
      ensures v.shape.ObjectShape? ==> !d.cells[n].removed
      ensures v.shape.ArrayShape? ==> TaggedBy(n, d.cells[n].value.ts)
      ensures d.cells[n].removed == Index(v.entries)[n].removed
    {
      CellExtends(v, prev, ts, n);
    }
    ContainerExtends(d, prev, ts);
  }

  // ------------------------------------------------------------------
  // A new document
  // ------------------------------------------------------------------

  lemma {:induction false} BuildGood(j: Json, ts: Timestamp, next: nat)
    requires Keyed(j)
    ensures Good(FromJson(j, ts, next).0, None, j, ts)
    ensures FromJson(j, ts, next).0.ts == ts
    ensures FromJson(j, ts, next).1 >= next
    decreases j, 1
  {
    match j
    case JArr(items) =>
      ItemsGood(items, ts, next);
      BuiltArray(FromItems(items, ts, next).0, items, ts, next, FromItems(items, ts, next).1);
    case JObj(fields) =>
      FieldsGood(fields, ts, next);
      BuiltObject(FromFields(fields, ts, next).0, fields, ts);
    case _ =>
      StampOrder();
  }

  lemma BuiltArray(es: seq<Named<Slot>>, items: seq<Json>, ts: Timestamp, next: nat, m: nat)
    requires Built(es, items, ts, next, m)
    ensures Good(Container(ts, false, Lattice.ArrayShape, es), None, JArr(items), ts)
  {
    var v := Container(ts, false, Lattice.ArrayShape, es);
    forall e | e in es ensures EntryOk(v.shape, e, None, ts) {
      assert FreshElement(e, ts, next, m);
    }
    EntriesExtend(v, None, ts);
  }

  lemma BuiltObject(es: seq<Named<Slot>>, fields: seq<Named<Json>>, ts: Timestamp)
    requires Aligned(es, fields, None, ts) && Distinct(fields)
    ensures Good(Container(ts, false, Lattice.ObjectShape, es), None, JObj(fields), ts)
  {
    var v := Container(ts, false, Lattice.ObjectShape, es);
    AlignedDistinct(es, fields, None, ts);
    forall e | e in es ensures EntryOk(v.shape, e, None, ts) {
      var i :| 0 <= i < |es| && es[i] == e;
      assert FieldOk(es[i], fields[i], None, ts);
    }
    EntriesExtend(v, None, ts);
    AlignedReads(es, fields, None, ts);
  }

  ghost predicate FreshElement(e: Named<Slot>, ts: Timestamp, next: nat, m: nat) {
    && GoodEntry(e, None, ts)
    && e.item.value.ts == ts
    && exists k :: next <= k < m && e.name == Tag(ts, k)
  }

  /** Elements built for `items`, in order, from counter `next` up to `m`. */
  ghost predicate Built(es: seq<Named<Slot>>, items: seq<Json>, ts: Timestamp, next: nat, m: nat) {
    && next <= m
    && Distinct(es)
    && (forall e :: e in es ==> !e.item.removed && FreshElement(e, ts, next, m))
    && ReadsAs(ToItems(es), items)
  }

  ghost predicate ReadsAs(xs: seq<Json>, ys: seq<Json>) {
    |xs| == |ys| && forall i :: 0 <= i < |xs| ==> JsonEquals(xs[i], ys[i])
  }

  lemma {:induction false} ItemsGood(items: seq<Json>, ts: Timestamp, next: nat)
    requires forall x :: x in items ==> Keyed(x)
    ensures Built(FromItems(items, ts, next).0, items, ts, next, FromItems(items, ts, next).1)
    decreases items, 0
  {
    if items != [] {
      assert items[0] in items;
      BuildGood(items[0], ts, next + 1);
      var (v, n) := FromJson(items[0], ts, next + 1);
      ItemsGood(items[1..], ts, n);
      var (rest, m) := FromItems(items[1..], ts, n);
      BuiltFirst(v, rest, items, ts, next, n, m);
    }
  }

  lemma BuiltFirst(v: Crdt, rest: seq<Named<Slot>>, items: seq<Json>, ts: Timestamp, next: nat, n: nat, m: nat)
    requires items != [] && next < n && v.ts == ts && Good(v, None, items[0], ts) && Built(rest, items[1..], ts, n, m)
    ensures Built([Named(Tag(ts, next), Slot(false, v))] + rest, items, ts, next, m)
  {
    var e := Named(Tag(ts, next), Slot(false, v));
    var es := [e] + rest;
    forall f | f in rest ensures f.name != e.name && FreshElement(f, ts, next, m) {
      assert FreshElement(f, ts, n, m);
      var k :| n <= k < m && f.name == Tag(ts, k);
      assert next <= k < m;
      if f.name == e.name { TagInjective(ts, k, ts, next); }
    }
    assert FreshElement(e, ts, next, m) by { assert next <= next < m && e.name == Tag(ts, next); }
    BuiltReads(e, rest, items);
  }

  lemma BuiltReads(e: Named<Slot>, rest: seq<Named<Slot>>, items: seq<Json>)
    requires items != [] && !e.item.removed && JsonEquals(ToJson(e.item.value), items[0])
    requires ReadsAs(ToItems(rest), items[1..])
    ensures ReadsAs(ToItems([e] + rest), items)
  {
    assert ([e] + rest)[1..] == rest;
    var xs := ToItems([e] + rest);
    assert xs == [ToJson(e.item.value)] + ToItems(rest);
    forall i | 0 <= i < |xs| ensures JsonEquals(xs[i], items[i]) {
      if i > 0 { assert JsonEquals(ToItems(rest)[i - 1], items[1..][i - 1]); }
    }
  }

  /** `es` holds one live, good entry per field, in the same order. */
  ghost predicate Aligned(es: seq<Named<Slot>>, fields: seq<Named<Json>>, prev: Option<Lattice.Doc>, ts: Timestamp) {
    |es| == |fields| && forall i :: 0 <= i < |es| ==> FieldOk(es[i], fields[i], prev, ts)
  }

  ghost predicate FieldOk(e: Named<Slot>, f: Named<Json>, prev: Option<Lattice.Doc>, ts: Timestamp) {
    && e.name == f.name
    && GoodEntry(e, prev, ts)
    && !e.item.removed && !e.item.value.dead
    && JsonEquals(ToJson(e.item.value), f.item)
  }

  lemma {:induction false} FieldsGood(fields: seq<Named<Json>>, ts: Timestamp, next: nat)
    requires forall f :: f in fields ==> Keyed(f.item)
    ensures Aligned(FromFields(fields, ts, next).0, fields, None, ts)
    ensures FromFields(fields, ts, next).1 >= next
    decreases fields, 0
  {
    if fields != [] {
      assert fields[0] in fields;
      BuildGood(fields[0].item, ts, next);
      var (v, n) := FromJson(fields[0].item, ts, next);
      FieldsGood(fields[1..], ts, n);
    }
  }

  lemma AlignedDistinct(es: seq<Named<Slot>>, fields: seq<Named<Json>>, prev: Option<Lattice.Doc>, ts: Timestamp)
    requires Aligned(es, fields, prev, ts) && Distinct(fields)
    ensures Distinct(es) && Names(es) == Names(fields)
  {
    assert forall i :: 0 <= i < |es| ==> es[i].name == fields[i].name by {
      forall i | 0 <= i < |es| ensures es[i].name == fields[i].name {
        assert FieldOk(es[i], fields[i], prev, ts);
      }
    }
    forall n | n in Names(fields) ensures n in Names(es) {
      var i :| 0 <= i < |fields| && fields[i].name == n;
      assert es[i].name == n;
    }
  }

  lemma {:induction false} LiveFields(es: seq<Named<Slot>>)
    requires forall i :: 0 <= i < |es| ==> !es[i].item.value.dead
    ensures |ToFields(es)| == |es|
    ensures forall i :: 0 <= i < |es| ==> ToFields(es)[i] == Named(es[i].name, ToJson(es[i].item.value))
  {
    if es != [] {
      LiveFields(es[1..]);
    }
  }

  lemma AlignedReads(es: seq<Named<Slot>>, fields: seq<Named<Json>>, prev: Option<Lattice.Doc>, ts: Timestamp)
    requires Aligned(es, fields, prev, ts) && Distinct(fields)
    ensures JsonEquals(JObj(ToFields(es)), JObj(fields))
  {
    forall i | 0 <= i < |es| ensures !es[i].item.value.dead {
      assert FieldOk(es[i], fields[i], prev, ts);
    }
    LiveFields(es);
    var out := ToFields(es);
    forall e | e in out
      ensures Find(fields, e.name).Found? && JsonEquals(e.item, Find(fields, e.name).value)
    {
      var i :| 0 <= i < |out| && out[i] == e;
      assert FieldOk(es[i], fields[i], prev, ts);
      FindMember(fields, fields[i]);
    }
  }

  // ------------------------------------------------------------------
  // Replacing a document
  // ------------------------------------------------------------------

  /** What the store guarantees of a document about to be updated. */
  ghost predicate Updatable(prev: Crdt, ts: Timestamp) {
    WellFormed(prev) && Sound(View(prev)) && Before(prev.ts, ts)
  }

  lemma {:induction false} DescendsFromNothing(d: Lattice.Doc, prev: Option<Lattice.Doc>, ts: Timestamp)
    requires Descends(d, None, ts)
    ensures Descends(d, prev, ts)
    decreases d
  {
    if d.Node? {
      forall n | n in d.cells ensures Descends(d.cells[n].value, Child(prev, n), ts) {
        DescendsFromNothing(d.cells[n].value, Child(prev, n), ts);
      }
    }
  }

  lemma ChildEntry(prev: Crdt, ts: Timestamp, n: bytes)
    requires Updatable(prev, ts) && prev.Container?
    ensures var found := Find(prev.entries, n);
      if found.Found? then
        && Child(Some(View(prev)), n) == Some(View(found.value.value))
        && Updatable(found.value.value, ts)
        && (prev.shape.ArrayShape? ==> TaggedBy(n, found.value.value.ts))
      else
        Child(Some(View(prev)), n) == None
  {
    var found := Find(prev.entries, n);
    if found.Found? {
      CellOf(prev.entries, Named(n, found.value));
      StampOrder();
      assert n in View(prev).cells;
    }
  }

  lemma ReplacesGood(prev: Crdt, j: Json, ts: Timestamp, next: nat)
    requires Keyed(j) && Updatable(prev, ts)
    requires !Mergeable(prev, FromJson(j, ts, next).0)
    ensures Good(FromJson(j, ts, next).0, Some(prev), j, ts)
  {
    BuildGood(j, ts, next);
    DescendsFromNothing(View(FromJson(j, ts, next).0), Some(View(prev)), ts);
  }

  lemma {:induction false} UpdatedField(prev: Crdt, f: Named<Json>, ts: Timestamp, next: nat)
    requires Updatable(prev, ts) && prev.Container? && Keyed(f.item)
    ensures FieldOk(Named(f.name, Slot(false, UpdateField(prev.entries, f, ts, next).0)), f, Some(View(prev)), ts)
    decreases f.item, 2
  {
    var found := Find(prev.entries, f.name);
    ChildEntry(prev, ts, f.name);
    if found.Found? {
      UpdateGood(found.value.value, f.item, ts, next);
    } else {
      BuildGood(f.item, ts, next);
    }
  }

  lemma {:induction false} UpdatedFields(prev: Crdt, fields: seq<Named<Json>>, ts: Timestamp, next: nat)
    requires Updatable(prev, ts) && prev.Container?
    requires forall f :: f in fields ==> Keyed(f.item)
    ensures Aligned(UpdateFields(prev.entries, fields, ts, next).0, fields, Some(View(prev)), ts)
    decreases fields, 0
  {
    if fields != [] {
      assert fields[0] in fields;
      var (v, n) := UpdateField(prev.entries, fields[0], ts, next);
      UpdatedField(prev, fields[0], ts, next);
      UpdatedFields(prev, fields[1..], ts, n);
      AlignedFirst(Named(fields[0].name, Slot(false, v)), UpdateFields(prev.entries, fields[1..], ts, n).0, fields,
                   Some(View(prev)), ts);
    }
  }

  lemma AlignedFirst(e: Named<Slot>, es: seq<Named<Slot>>, fields: seq<Named<Json>>, prev: Option<Lattice.Doc>,
                     ts: Timestamp)
    requires fields != [] && FieldOk(e, fields[0], prev, ts) && Aligned(es, fields[1..], prev, ts)
    ensures Aligned([e] + es, fields, prev, ts)
  {
    var all := [e] + es;
    forall i | 0 <= i < |all| ensures FieldOk(all[i], fields[i], prev, ts) {
      if i > 0 { assert FieldOk(es[i - 1], fields[1..][i - 1], prev, ts); }
    }
  }

  predicate Tombstones(e: Named<Slot>, f: Named<Slot>, ts: Timestamp) {
    e.name == f.name && e.item == if f.item.value.dead then f.item else Slot(false, Register(ts, true, Lattice.Null))
  }

  lemma {:induction false} MissingMembers(es: seq<Named<Slot>>, fields: seq<Named<Json>>, ts: Timestamp)
    ensures forall e :: e in Missing(es, fields, ts) ==>
      e.name !in Names(fields) && exists f :: f in es && Tombstones(e, f, ts)
  {
    if es != [] {
      MissingMembers(es[1..], fields, ts);
      var rest := Missing(es[1..], fields, ts);
      forall e | e in Missing(es, fields, ts)
        ensures e.name !in Names(fields) && exists f :: f in es && Tombstones(e, f, ts)
      {
        if e in rest {
          var f :| f in es[1..] && Tombstones(e, f, ts);
          assert f in es;
        } else {
          assert Tombstones(e, es[0], ts) && es[0] in es;
        }
      }
    }
  }

  lemma {:induction false} MissingDistinct(es: seq<Named<Slot>>, fields: seq<Named<Json>>, ts: Timestamp)
    requires Distinct(es)
    ensures Distinct(Missing(es, fields, ts))
  {
    if es != [] {
      MissingDistinct(es[1..], fields, ts);
      MissingMembers(es[1..], fields, ts);
      var rest := Missing(es[1..], fields, ts);
      forall e | e in rest ensures e.name != es[0].name {
        var f :| f in es[1..] && Tombstones(e, f, ts);
        var i :| 0 <= i < |es[1..]| && es[1..][i] == f;
      }
      assert forall i :: 0 <= i < |rest| ==> rest[i] in rest;
    }
  }

  lemma {:induction false} MissingCovers(es: seq<Named<Slot>>, fields: seq<Named<Json>>, ts: Timestamp)
    ensures Names(es) <= Names(fields) + Names(Missing(es, fields, ts))
  {
    if es != [] {
      MissingCovers(es[1..], fields, ts);
      var rest, all := Missing(es[1..], fields, ts), Missing(es, fields, ts);
      assert all == all[..|all| - |rest|] + rest;
      AppendNames(all[..|all| - |rest|], rest);
      AppendNames([es[0]], es[1..]);
      assert es == [es[0]] + es[1..];
      if es[0].name !in Names(fields) {
        assert all[0].name == es[0].name;
      }
    }
  }

  lemma {:induction false} MissingUnread(es: seq<Named<Slot>>, fields: seq<Named<Json>>, ts: Timestamp)
    ensures ToFields(Missing(es, fields, ts)) == []
  {
    if es != [] {
      var rest, all := Missing(es[1..], fields, ts), Missing(es, fields, ts);
      MissingUnread(es[1..], fields, ts);
      if |all| > |rest| {
        assert all[1..] == rest;
      } else {
        assert all == rest;
      }
    }
  }

  lemma MissingEntry(prev: Crdt, ts: Timestamp, e: Named<Slot>, f: Named<Slot>)
    requires Updatable(prev, ts) && prev.Container? && prev.shape.ObjectShape?
    requires f in prev.entries && Tombstones(e, f, ts)
    ensures GoodEntry(e, Some(View(prev)), ts) && !e.item.removed
  {
    ChildEntry(prev, ts, f.name);
    FindMember(prev.entries, f);
    if f.item.value.dead {
      BeforeNotAfter(f.item.value.ts, ts);
      ExtendsSelf(View(f.item.value), ts);
    } else {
      BeforeIrreflexive(ts);
      TombstoneExtends(View(f.item.value), ts);
    }
  }

  lemma TombstoneExtends(d: Lattice.Doc, ts: Timestamp)
    requires Before(d.ts, ts)
    ensures Extends(Lattice.Leaf(ts, true, Lattice.Null), Some(d), ts)
  {
    BeforeIrreflexive(ts);
  }

  lemma {:induction false} ToFieldsAppend(a: seq<Named<Slot>>, b: seq<Named<Slot>>)
    ensures ToFields(a + b) == ToFields(a) + ToFields(b)
  {
    if a == [] {
      AppendNone(b);
      AppendNone(ToFields(b));
    } else {
      ToFieldsAppend(a[1..], b);
      AppendTail(a, b);
      AppendAssociates(if a[0].item.value.dead then [] else [Named(a[0].name, ToJson(a[0].item.value))],
                       ToFields(a[1..]), ToFields(b));
    }
  }

  lemma ObjectUpdate(prev: Crdt, fields: seq<Named<Json>>, es: seq<Named<Slot>>, ts: Timestamp)
    requires Updatable(prev, ts) && prev.Container? && !prev.dead && prev.shape.ObjectShape?
    requires Distinct(fields) && Aligned(es, fields, Some(View(prev)), ts)
    ensures Good(Container(ts, false, Lattice.ObjectShape, es + Missing(prev.entries, fields, ts)),
                 Some(prev), JObj(fields), ts)
  {
    var gone := Missing(prev.entries, fields, ts);
    var v := Container(ts, false, Lattice.ObjectShape, es + gone);
    AlignedDistinct(es, fields, Some(View(prev)), ts);
    assert ToFields(v.entries) == ToFields(es) by {
      ToFieldsAppend(es, gone);
      MissingUnread(prev.entries, fields, ts);
    }
    AlignedReads(es, fields, Some(View(prev)), ts);
    MissingMembers(prev.entries, fields, ts);
    MissingDistinct(prev.entries, fields, ts);
    AppendDistinct(es, gone);
    MissingCovers(prev.entries, fields, ts);
    forall e | e in v.entries ensures EntryOk(v.shape, e, Some(View(prev)), ts) {
      if e in gone {
        var f :| f in prev.entries && Tombstones(e, f, ts);
        MissingEntry(prev, ts, e, f);
      } else {
        var i :| 0 <= i < |es| && es[i] == e;
        assert FieldOk(es[i], fields[i], Some(View(prev)), ts);
      }
    }
    assert Remembers(v.entries, View(prev));
    EntriesExtend(v, Some(View(prev)), ts);
  }

  lemma AppendDistinct<T>(a: seq<Named<T>>, b: seq<Named<T>>)
    requires Distinct(a) && Distinct(b)
    requires forall e :: e in b ==> e.name !in Names(a)
    ensures Distinct(a + b) && Names(a + b) == Names(a) + Names(b)
  {
    forall i, j | 0 <= i < |a| && 0 <= j < |b| ensures a[i].name != b[j].name {
      assert b[j] in b;
    }
    AppendNames(a, b);
  }

  // ------------------------------------------------------------------
  // Replacing an array
  // ------------------------------------------------------------------

  ghost predicate Untagged(es: seq<Named<Slot>>, ts: Timestamp) {
    forall e, k: nat :: e in es ==> e.name != Tag(ts, k)
  }

  /** How the new element vector and the unmatched rest account for `prev`. */
  ghost predicate Matched(prev: seq<Named<Slot>>, items: seq<Json>, ts: Timestamp, next: nat,
                          es: seq<Named<Slot>>, left: seq<Named<Slot>>, m: nat) {
    && next <= m
    && Distinct(es + left)
    && (forall e :: e in es ==> !e.item.removed && (e in prev || FreshElement(e, ts, next, m)))
    && (forall e :: e in left ==> e in prev)
    && (forall e :: e in prev ==> e in es || e in left)
    && ReadsAs(ToItems(es), items)
  }

  lemma {:induction false} MatchFacts(prev: seq<Named<Slot>>, items: seq<Json>, ts: Timestamp, next: nat)
    requires Distinct(prev) && Untagged(prev, ts)
    requires forall x :: x in items ==> Keyed(x)
    ensures var (es, left, m) := MatchItems(prev, items, ts, next); Matched(prev, items, ts, next, es, left, m)
    decreases items, 1
  {
    if items == [] {
      assert [] + prev == prev;
    } else if FirstMatch(prev, items[0]) < |prev| {
      MatchKept(prev, items, ts, next);
    } else {
      MatchAdded(prev, items, ts, next);
    }
  }

  lemma {:induction false} MatchKept(prev: seq<Named<Slot>>, items: seq<Json>, ts: Timestamp, next: nat)
    requires Distinct(prev) && Untagged(prev, ts) && items != []
    requires forall x :: x in items ==> Keyed(x)
    requires FirstMatch(prev, items[0]) < |prev|
    ensures var (es, left, m) := MatchItems(prev, items, ts, next); Matched(prev, items, ts, next, es, left, m)
    decreases items, 0
  {
    var i := FirstMatch(prev, items[0]);
    var others := prev[..i] + prev[i + 1..];
    var (rest, left, m) := MatchItems(others, items[1..], ts, next);
    assert Matched(others, items[1..], ts, next, rest, left, m) by {
      Others(prev, i);
      MatchFacts(others, items[1..], ts, next);
    }
    MatchedFirst(prev, i, items, ts, next, rest, left, m);
  }

  lemma {:induction false} MatchAdded(prev: seq<Named<Slot>>, items: seq<Json>, ts: Timestamp, next: nat)
    requires Distinct(prev) && Untagged(prev, ts) && items != []
    requires forall x :: x in items ==> Keyed(x)
    requires FirstMatch(prev, items[0]) == |prev|
    ensures var (es, left, m) := MatchItems(prev, items, ts, next); Matched(prev, items, ts, next, es, left, m)
    decreases items, 0
  {
    var (v, n) := FromJson(items[0], ts, next + 1);
    assert Keyed(items[0]) by { assert items[0] in items; }
    BuildGood(items[0], ts, next + 1);
    var (rest, left, m) := MatchItems(prev, items[1..], ts, n);
    assert Matched(prev, items[1..], ts, n, rest, left, m) by {
      MatchFacts(prev, items[1..], ts, n);
    }
    AddedFirst(prev, items, ts, next, v, n, rest, left, m);
  }

  lemma AddedFirst(prev: seq<Named<Slot>>, items: seq<Json>, ts: Timestamp, next: nat, v: Crdt, n: nat,
                   rest: seq<Named<Slot>>, left: seq<Named<Slot>>, m: nat)
    requires Untagged(prev, ts) && items != [] && next < n
    requires Good(v, None, items[0], ts) && v.ts == ts
    requires Matched(prev, items[1..], ts, n, rest, left, m)
    ensures Matched(prev, items, ts, next, [Named(Tag(ts, next), Slot(false, v))] + rest, left, m)
  {
    var e := Named(Tag(ts, next), Slot(false, v));
    assert next <= next < m && e.name == Tag(ts, next);
    forall f | f in rest + left ensures f.name != e.name {
      if f !in prev {
        assert FreshElement(f, ts, n, m);
        var k :| n <= k < m && f.name == Tag(ts, k);
        if f.name == e.name { TagInjective(ts, k, ts, next); }
      }
    }
    assert forall k :: 0 <= k < |rest + left| ==> (rest + left)[k] in rest + left;
    assert ([e] + rest) + left == [e] + (rest + left);
    assert ToItems([e] + rest) == [ToJson(v)] + ToItems(rest);
    forall f | f in rest && FreshElement(f, ts, n, m) ensures FreshElement(f, ts, next, m) {
    }
  }

  lemma Others(prev: seq<Named<Slot>>, i: nat)
    requires Distinct(prev) && i < |prev|
    ensures var others := prev[..i] + prev[i + 1..];
      && Distinct(others)
      && (forall e :: e in others <==> e in prev && e != prev[i])
      && (forall e :: e in others ==> e.name != prev[i].name)
  {
    var a, b := prev[..i], prev[i + 1..];
    assert prev == a + [prev[i]] + b;
    forall e: Named<Slot> | e in a + b ensures e.name != prev[i].name {
      if e in a {
        var j :| 0 <= j < |a| && a[j] == e;
      } else {
        var j :| 0 <= j < |b| && b[j] == e;
        assert prev[i + 1 + j] == e;
      }
    }
  }

  lemma MatchedFirst(prev: seq<Named<Slot>>, i: nat, items: seq<Json>, ts: Timestamp, next: nat,
                     rest: seq<Named<Slot>>, left: seq<Named<Slot>>, m: nat)
    requires Distinct(prev) && Untagged(prev, ts) && items != [] && i < |prev|
    requires !prev[i].item.removed && JsonEquals(ToJson(prev[i].item.value), items[0])
    requires Matched(prev[..i] + prev[i + 1..], items[1..], ts, next, rest, left, m)
    ensures Matched(prev, items, ts, next, [prev[i]] + rest, left, m)
  {
    Others(prev, i);
    var others := prev[..i] + prev[i + 1..];
    var e := prev[i];
    assert e in prev;
    forall f | f in rest + left ensures f.name != e.name {
      assert f in others || FreshElement(f, ts, next, m);
    }
    assert ([e] + rest) + left == [e] + (rest + left);
    assert forall k :: 0 <= k < |rest + left| ==> (rest + left)[k] in rest + left;
    assert ToItems([e] + rest) == [ToJson(e.item.value)] + ToItems(rest);
  }

  lemma {:induction false} RemoveAt(es: seq<Named<Slot>>, i: nat)
    requires i < |es|
    ensures |Remove(es)| == |es|
    ensures Remove(es)[i] == Named(es[i].name, Slot(true, es[i].item.value))
    ensures ToItems(Remove(es)) == []
  {
    if |es| > 1 {
      RemoveAt(es[1..], if i > 0 then i - 1 else 0);
    }
  }

  lemma RemoveFacts(es: seq<Named<Slot>>)
    ensures |Remove(es)| == |es|
    ensures forall i :: 0 <= i < |es| ==> Remove(es)[i] == Named(es[i].name, Slot(true, es[i].item.value))
    ensures ToItems(Remove(es)) == []
  {
    forall i | 0 <= i < |es|
      ensures |Remove(es)| == |es| && Remove(es)[i] == Named(es[i].name, Slot(true, es[i].item.value))
      ensures ToItems(Remove(es)) == []
    {
      RemoveAt(es, i);
    }
  }

  lemma {:induction false} ToItemsAppend(a: seq<Named<Slot>>, b: seq<Named<Slot>>)
    ensures ToItems(a + b) == ToItems(a) + ToItems(b)
  {
    if a == [] {
      AppendNone(b);
      AppendNone(ToItems(b));
    } else {
      ToItemsAppend(a[1..], b);
      AppendTail(a, b);
      AppendAssociates(if a[0].item.removed then [] else [ToJson(a[0].item.value)], ToItems(a[1..]), ToItems(b));
    }
  }

  lemma OldTags(prev: Crdt, ts: Timestamp)
    requires Updatable(prev, ts) && prev.Container? && prev.shape.ArrayShape?
    ensures Untagged(prev.entries, ts)
  {
    forall e, k: nat | e in prev.entries ensures e.name != Tag(ts, k) {
      ChildEntry(prev, ts, e.name);
      FindMember(prev.entries, e);
      StampOrder();
      var born := e.item.value.ts;
      var n: nat :| e.name == Tag(born, n);
      if e.name == Tag(ts, k) { TagInjective(born, n, ts, k); }
    }
  }

  /** An element of the new array, kept, added or removed. */
  lemma ElementGood(prev: Crdt, ts: Timestamp, e: Named<Slot>, next: nat, m: nat)
    requires Updatable(prev, ts) && prev.Container? && prev.shape.ArrayShape?
    requires
      || (exists f :: f in prev.entries && f.name == e.name && f.item.value == e.item.value)
      || FreshElement(e, ts, next, m)
    ensures GoodEntry(e, Some(View(prev)), ts) && TaggedBy(e.name, e.item.value.ts)
  {
    ChildEntry(prev, ts, e.name);
    if f :| f in prev.entries && f.name == e.name && f.item.value == e.item.value {
      FindMember(prev.entries, f);
      StampOrder();
      ExtendsSelf(View(e.item.value), ts);
    } else {
      OldTags(prev, ts);
      assert Find(prev.entries, e.name).Absent?;
    }
  }

  lemma ArrayUpdate(prev: Crdt, items: seq<Json>, ts: Timestamp, next: nat)
    requires Updatable(prev, ts) && prev.Container? && !prev.dead && prev.shape.ArrayShape?
    requires forall x :: x in items ==> Keyed(x)
    ensures var (es, left, _) := MatchItems(prev.entries, items, ts, next);
      && Good(Container(ts, false, Lattice.ArrayShape, es + Remove(left)), Some(prev), JArr(items), ts)
      && Names(prev.entries) <= Names(es + Remove(left))
  {
    OldTags(prev, ts);
    MatchFacts(prev.entries, items, ts, next);
    var (es, left, m) := MatchItems(prev.entries, items, ts, next);
    RemovedKept(prev.entries, es, left);
    MatchedArray(prev, items, ts, next, es, left, m);
  }

  lemma MatchedArray(prev: Crdt, items: seq<Json>, ts: Timestamp, next: nat,
                     es: seq<Named<Slot>>, left: seq<Named<Slot>>, m: nat)
    requires Updatable(prev, ts) && prev.Container? && !prev.dead && prev.shape.ArrayShape?
    requires Matched(prev.entries, items, ts, next, es, left, m)
    ensures Good(Container(ts, false, Lattice.ArrayShape, es + Remove(left)), Some(prev), JArr(items), ts)
  {
    var v := Container(ts, false, Lattice.ArrayShape, es + Remove(left));
    assert ToItems(v.entries) == ToItems(es) by {
      RemoveFacts(left);
      ToItemsAppend(es, Remove(left));
    }
    assert ToJson(v) == JArr(ToItems(es));
    ElementsExtend(prev, ts, next, es, left, m);
  }

  lemma ElementsExtend(prev: Crdt, ts: Timestamp, next: nat, es: seq<Named<Slot>>, left: seq<Named<Slot>>, m: nat)
    requires Updatable(prev, ts) && prev.Container? && !prev.dead && prev.shape.ArrayShape?
    requires Distinct(es + left)
    requires forall e :: e in es ==> !e.item.removed && (e in prev.entries || FreshElement(e, ts, next, m))
    requires forall e :: e in left ==> e in prev.entries
    requires forall e :: e in prev.entries ==> e in es || e in left
    ensures var v := Container(ts, false, Lattice.ArrayShape, es + Remove(left));
      WellFormed(v) && Extends(View(v), Some(View(prev)), ts)
  {
    var v := Container(ts, false, Lattice.ArrayShape, es + Remove(left));
    forall e | e in v.entries ensures EntryOk(v.shape, e, Some(View(prev)), ts) {
      ElementFrom(prev, ts, e, es, left, next, m);
      ElementGood(prev, ts, e, next, m);
    }
    RemovedKept(prev.entries, es, left);
    assert Remembers(v.entries, View(prev));
    EntriesExtend(v, Some(View(prev)), ts);
  }

  lemma ElementFrom(prev: Crdt, ts: Timestamp, e: Named<Slot>, es: seq<Named<Slot>>, left: seq<Named<Slot>>,
                    next: nat, m: nat)
    requires prev.Container? && e in es + Remove(left)
    requires forall f :: f in es ==> f in prev.entries || FreshElement(f, ts, next, m)
    requires forall f :: f in left ==> f in prev.entries
    ensures
      || (exists f :: f in prev.entries && f.name == e.name && f.item.value == e.item.value)
      || FreshElement(e, ts, next, m)
  {
    RemoveFacts(left);
    if e !in es {
      var i :| 0 <= i < |left| && Remove(left)[i] == e;
      assert left[i] in left;
    }
  }

  /** No tag is forgotten and no removal undone. */
  lemma RemovedKept(prev: seq<Named<Slot>>, es: seq<Named<Slot>>, left: seq<Named<Slot>>)
    requires Distinct(prev) && Distinct(es + left)
    requires forall e :: e in es ==> !e.item.removed
    requires forall e :: e in prev ==> e in es || e in left
    ensures Distinct(es + Remove(left))
    ensures forall n :: n in Names(prev) ==>
      n in Names(es + Remove(left)) && (Index(prev)[n].removed ==> Index(es + Remove(left))[n].removed)
  {
    RemoveFacts(left);
    var all := es + Remove(left);
    forall i, j | 0 <= i < j < |all| ensures all[i].name != all[j].name {
      assert (es + left)[i].name == all[i].name && (es + left)[j].name == all[j].name;
    }
    forall n | n in Names(prev)
      ensures n in Names(all) && (Index(prev)[n].removed ==> Index(all)[n].removed)
    {
      var p := Named(n, Index(prev)[n]);
      assert p in prev;
      if p in es {
        assert p in all;
        IndexMember(all, p);
      } else {
        var i :| 0 <= i < |left| && left[i] == p;
        assert all[|es| + i] in all;
        IndexMember(all, all[|es| + i]);
      }
    }
  }

  lemma {:induction false} UpdateGood(prev: Crdt, j: Json, ts: Timestamp, next: nat)
    requires Keyed(j) && Updatable(prev, ts)
    ensures Good(Apply(prev, j, ts, next).0, Some(prev), j, ts)
    decreases j, 1
  {
    if !prev.dead && JsonEquals(ToJson(prev), j) {
      StampOrder();
      ExtendsSelf(View(prev), ts);
    } else if !prev.dead && prev.Container? && prev.shape.ObjectShape? && j.JObj? {
      UpdatedFields(prev, j.fields, ts, next);
      ObjectUpdate(prev, j.fields, UpdateFields(prev.entries, j.fields, ts, next).0, ts);
    } else if !prev.dead && prev.Container? && prev.shape.ArrayShape? && j.JArr? {
      ArrayUpdate(prev, j.items, ts, next);
    } else {
      ReplacesGood(prev, j, ts, next);
    }
  }

  /** A local write loses nothing of the document it replaces (merging the old
      document back in changes nothing, so every field and array tag is still
      accounted for) and reads back as the JSON that was written. */
  lemma UpdateInflatesAndReads(prev: Crdt, j: Json, ts: Timestamp, next: nat)
    requires Keyed(j) && Updatable(prev, ts)
    ensures var v := Apply(prev, j, ts, next).0;
      && WellFormed(v) && Sound(View(v)) && NotAfter(v.ts, ts)
      && View(Merge(prev, v)) == View(v)
      && Lattice.KeepsRight(View(prev), View(v))
      && JsonEquals(ToJson(v), j)
  {
    UpdateGood(prev, j, ts, next);
    var v := Apply(prev, j, ts, next).0;
    MergeMeansJoin(prev, v);
    Lattice.KeepsRightExactly(View(prev), View(v));
  }

  // ------------------------------------------------------------------
  // Array matching as it is computed: a flag per previous element
  // ------------------------------------------------------------------

  function Unmatched(prev: seq<Named<Slot>>, matched: seq<bool>): seq<Named<Slot>>
    requires |prev| == |matched|
  {
    if prev == [] then [] else
    (if matched[0] then [] else [prev[0]]) + Unmatched(prev[1..], matched[1..])
  }

  predicate Candidate(e: Named<Slot>, matched: bool, x: Json) {
    !matched && !e.item.removed && JsonEquals(ToJson(e.item.value), x)
  }

  /** The matched element, seen among the elements not yet matched. */
  predicate Takes(prev: seq<Named<Slot>>, matched: seq<bool>, x: Json, i: nat)
    requires |prev| == |matched| && i < |prev|
  {
    var un := Unmatched(prev, matched);
    var f := FirstMatch(un, x);
    f < |un| && un[f] == prev[i] && Unmatched(prev, matched[i := true]) == un[..f] + un[f + 1..]
  }

  lemma {:induction false} ScanFinds(prev: seq<Named<Slot>>, matched: seq<bool>, x: Json, i: nat)
    requires |prev| == |matched| && i < |prev| && Candidate(prev[i], matched[i], x)
    requires forall k :: 0 <= k < i ==> !Candidate(prev[k], matched[k], x)
    ensures Takes(prev, matched, x, i)
    decreases prev
  {
    if i == 0 {
      var rest := Unmatched(prev[1..], matched[1..]);
      assert Unmatched(prev, matched) == [prev[0]] + rest;
      assert matched[0 := true][1..] == matched[1..];
    } else {
      assert forall k :: 0 <= k < i - 1 ==> prev[1..][k] == prev[k + 1] && matched[1..][k] == matched[k + 1];
      ScanFinds(prev[1..], matched[1..], x, i - 1);
      TakesLater(prev, matched, x, i);
    }
  }

  lemma TakesLater(prev: seq<Named<Slot>>, matched: seq<bool>, x: Json, i: nat)
    requires |prev| == |matched| && 0 < i < |prev| && !Candidate(prev[0], matched[0], x)
    requires Takes(prev[1..], matched[1..], x, i - 1)
    ensures Takes(prev, matched, x, i)
  {
    var rest := Unmatched(prev[1..], matched[1..]);
    assert matched[i := true][1..] == matched[1..][i - 1 := true];
    if matched[0] {
      AppendNone(rest);
      AppendNone(Unmatched(prev[1..], matched[1..][i - 1 := true]));
    } else {
      MatchBehind(prev[0], rest, x);
    }
  }

  lemma MatchBehind(e: Named<Slot>, rest: seq<Named<Slot>>, x: Json)
    requires !Candidate(e, false, x) && FirstMatch(rest, x) < |rest|
    ensures var un, f := [e] + rest, FirstMatch(rest, x);
      && FirstMatch(un, x) == f + 1 && un[f + 1] == rest[f]
      && un[..f + 1] + un[f + 2..] == [e] + (rest[..f] + rest[f + 1..])
  {
    assert ([e] + rest)[1..] == rest;
  }

  lemma {:induction false} ScanMisses(prev: seq<Named<Slot>>, matched: seq<bool>, x: Json)
    requires |prev| == |matched|
    requires forall k :: 0 <= k < |prev| ==> !Candidate(prev[k], matched[k], x)
    ensures FirstMatch(Unmatched(prev, matched), x) == |Unmatched(prev, matched)|
    decreases prev
  {
    if prev != [] {
      assert !Candidate(prev[0], matched[0], x);
      ScanMisses(prev[1..], matched[1..], x);
      var un, rest := Unmatched(prev, matched), Unmatched(prev[1..], matched[1..]);
      if matched[0] {
        assert un == rest;
      } else {
        assert un[1..] == rest;
      }
    }
  }

  lemma {:induction false} UnmatchedAll(prev: seq<Named<Slot>>)
    ensures Unmatched(prev, seq(|prev|, _ => false)) == prev
  {
    if prev != [] {
      UnmatchedAll(prev[1..]);
      assert seq(|prev|, _ => false)[1..] == seq(|prev[1..]|, _ => false);
    }
  }

  method FindCandidate(prev: seq<Named<Slot>>, matched: seq<bool>, x: Json) returns (i: nat)
    requires |prev| == |matched|
    ensures i <= |prev|
    ensures i < |prev| ==> Candidate(prev[i], matched[i], x)
    ensures forall k :: 0 <= k < i ==> !Candidate(prev[k], matched[k], x)
  {
    i := 0;
    while i < |prev|
      invariant i <= |prev|
      invariant forall k :: 0 <= k < i ==> !Candidate(prev[k], matched[k], x)
    {
      if Candidate(prev[i], matched[i], x) { return; }
      i := i + 1;
    }
  }

  /** Entries already chosen, then what matching the rest gives. */
  function Resumed(front: seq<Named<Slot>>, rest: (seq<Named<Slot>>, seq<Named<Slot>>, nat))
    : (seq<Named<Slot>>, seq<Named<Slot>>, nat)
  {
    (front + rest.0, rest.1, rest.2)
  }

  lemma ResumedNext(front: seq<Named<Slot>>, e: Named<Slot>, rest: (seq<Named<Slot>>, seq<Named<Slot>>, nat))
    ensures Resumed(front, Resumed([e], rest)) == Resumed(front + [e], rest)
  {
    AppendAssociates(front, [e], rest.0);
  }

  method MatchOne(prev: seq<Named<Slot>>, matched: seq<bool>, items: seq<Json>, ts: Timestamp, n: nat)
    returns (e: Named<Slot>, matched': seq<bool>, n': nat)
    requires |prev| == |matched| && items != []
    ensures |matched'| == |prev|
    ensures MatchItems(Unmatched(prev, matched), items, ts, n) ==
      Resumed([e], MatchItems(Unmatched(prev, matched'), items[1..], ts, n'))
  {
    var i := FindCandidate(prev, matched, items[0]);
    if i < |prev| {
      ScanFinds(prev, matched, items[0], i);
      return prev[i], matched[i := true], n;
    } else {
      ScanMisses(prev, matched, items[0]);
      var built := FromJson(items[0], ts, n + 1);
      return Named(Tag(ts, n), Slot(false, built.0)), matched, built.1;
    }
  }

  method MatchByFlags(prev: seq<Named<Slot>>, items: seq<Json>, ts: Timestamp, next: nat)
    returns (entries: seq<Named<Slot>>, n: nat)
    ensures var (es, left, m) := MatchItems(prev, items, ts, next); entries == es + Remove(left) && n == m
  {
    var matched := seq(|prev|, _ => false);
    UnmatchedAll(prev);
    ghost var all := MatchItems(prev, items, ts, next);
    entries, n := [], next;
    AppendNone(all.0);
    ghost var rest := items;
    for k := 0 to |items|
      invariant |matched| == |prev| && rest == items[k..]
      invariant all == Resumed(entries, MatchItems(Unmatched(prev, matched), rest, ts, n))
    {
      var e;
      e, matched, n := MatchOne(prev, matched, items[k..], ts, n);
      ResumedNext(entries, e, MatchItems(Unmatched(prev, matched), rest[1..], ts, n));
      entries, rest := entries + [e], rest[1..];
    }
    assert rest == [];
    AppendNone(entries);
    entries := AppendRemoved(prev, matched, entries);
  }

  method AppendRemoved(prev: seq<Named<Slot>>, matched: seq<bool>, front: seq<Named<Slot>>)
    returns (entries: seq<Named<Slot>>)
    requires |prev| == |matched|
    ensures entries == front + Remove(Unmatched(prev, matched))
  {
    entries := front;
    for i := 0 to |prev|
      invariant entries + Remove(Unmatched(prev[i..], matched[i..])) == front + Remove(Unmatched(prev, matched))
    {
      assert prev[i..][1..] == prev[i + 1..] && matched[i..][1..] == matched[i + 1..];
      var rest := Unmatched(prev[i + 1..], matched[i + 1..]);
      if !matched[i] {
        assert Unmatched(prev[i..], matched[i..]) == [prev[i]] + rest;
        assert ([prev[i]] + rest)[1..] == rest;
        entries := entries + [Named(prev[i].name, Slot(true, prev[i].item.value))];
      } else {
        assert Unmatched(prev[i..], matched[i..]) == rest;
      }
    }
  }
}
