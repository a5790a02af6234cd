/** A local write changes what it says and nothing else: what reads as before keeps
    its node and its stamp, so a concurrent remote edit of it is not overwritten.
 */
module Locality {
  import opened Wrappers
  import opened Sequences
  import opened ByteStrings
  import opened Stamps
  import opened NamedItems
  import opened JsonValues
  import opened Documents
  import opened Updates
  import opened Repeats
  import opened Elements
  import Lattice
  import Provenance

  // ------------------------------------------------------------------
  // Paths of object keys
  // ------------------------------------------------------------------

  /** What is at the end of a path of keys through live objects. */
  function CrdtAt(v: Crdt, p: seq<bytes>): Option<Crdt>
    decreases |p|
  {
    if p == [] then Some(v)
    else if v.Register? || v.dead || v.shape.ArrayShape? then None
    else
      var found := Find(v.entries, p[0]);
      if found.Absent? then None else CrdtAt(found.value.value, p[1..])
  }

  function JsonAt(j: Json, p: seq<bytes>): Option<Json>
    decreases |p|
  {
    if p == [] then Some(j)
    else if !j.JObj? then None
    else
      var found := Find(j.fields, p[0]);
      if found.Absent? then None else JsonAt(found.value, p[1..])
  }

  /** The previous value is live and reads as the new JSON does. */
  predicate Unchanged(c: Crdt, x: Json) {
    !c.dead && JsonEquals(ToJson(c), x)
  }

  lemma {:induction false} FindAppend<T>(a: seq<Named<T>>, b: seq<Named<T>>, n: bytes)
    ensures Find(a + b, n) == if Find(a, n).Found? then Find(a, n) else Find(b, n)
  {
    if a == [] {
      AppendNone(b);
    } else {
      AppendTail(a, b);
      FindAppend(a[1..], b, n);
    }
  }

  /** A field of the new object is the update of the field of that name. */
  lemma {:induction false} FieldUpdated(prev: seq<Named<Slot>>, fields: seq<Named<Json>>, ts: Timestamp, next: nat,
                                        n: bytes) returns (c: nat)
    ensures var es := UpdateFields(prev, fields, ts, next).0;
      match Find(fields, n)
      case Absent => Find(es, n) == Absent
      case Found(x) => Find(es, n) == Found(Slot(false, UpdateField(prev, Named(n, x), ts, c).0))
    decreases fields
  {
    c := next;
    if fields != [] {
      var (v, m) := UpdateField(prev, fields[0], ts, next);
      var rest := UpdateFields(prev, fields[1..], ts, m).0;
      var e := Named(fields[0].name, Slot(false, v));
      assert ([e] + rest)[1..] == rest;
      if fields[0].name == n {
        assert fields[0] == Named(n, fields[0].item);
      } else {
        c := FieldUpdated(prev, fields[1..], ts, m, n);
      }
    }
  }

  /** What a missing field becomes. */
  lemma {:induction false} FieldMissing(prev: seq<Named<Slot>>, fields: seq<Named<Json>>, ts: Timestamp, n: bytes)
    requires n !in Names(fields)
    ensures match Find(prev, n)
      case Absent => Find(Missing(prev, fields, ts), n) == Absent
      case Found(slot) =>
        Find(Missing(prev, fields, ts), n) ==
        Found(if slot.value.dead then slot else Slot(false, Register(ts, true, Lattice.Null)))
    decreases prev
  {
    if prev != [] {
      FieldMissing(prev[1..], fields, ts, n);
      var rest := Missing(prev[1..], fields, ts);
      var first := if prev[0].name in Names(fields) then []
                   else if prev[0].item.value.dead then [prev[0]]
                   else [Named(prev[0].name, Slot(false, Register(ts, true, Lattice.Null)))];
      FindAppend(first, rest, n);
      assert first != [] ==> first[1..] == [];
    }
  }

  // ------------------------------------------------------------------
  // Nothing unchanged is touched
  // ------------------------------------------------------------------

  /** Writing what is already there is no write. */
  lemma SameIsNoWrite(prev: Crdt, j: Json, ts: Timestamp, next: nat)
    requires !prev.dead && JsonEquals(ToJson(prev), j)
    ensures Apply(prev, j, ts, next) == (prev, next)
  {
  }

  lemma {:induction false} FindLive(es: seq<Named<Slot>>, n: bytes)
    requires Find(es, n).Found? && !Find(es, n).value.value.dead
    ensures Named(n, ToJson(Find(es, n).value.value)) in ToFields(es)
  {
    if es[0].name != n { FindLive(es[1..], n); }
  }

  /** If a document reads as the JSON does, so does every live part of it. */
  lemma {:induction false} PartsUnchanged(v: Crdt, j: Json, p: seq<bytes>)
    requires Unchanged(v, j) && CrdtAt(v, p).Some? && !CrdtAt(v, p).value.dead && JsonAt(j, p).Some?
    ensures Unchanged(CrdtAt(v, p).value, JsonAt(j, p).value)
    decreases |p|
  {
    if p != [] {
      var child := Find(v.entries, p[0]).value.value;
      assert !child.dead;
      FindLive(v.entries, p[0]);
      PartsUnchanged(child, Find(j.fields, p[0]).value, p[1..]);
    }
  }

  /** The update at a path is the update of what was live there. */
  lemma {:induction false} UpdateAt(prev: Crdt, j: Json, ts: Timestamp, next: nat, p: seq<bytes>) returns (c: nat)
    requires CrdtAt(prev, p).Some? && !CrdtAt(prev, p).value.dead && JsonAt(j, p).Some?
    ensures CrdtAt(Apply(prev, j, ts, next).0, p) ==
      Some(Apply(CrdtAt(prev, p).value, JsonAt(j, p).value, ts, c).0)
    decreases |p|
  {
    c := next;
    if Unchanged(prev, j) {
      PartsUnchanged(prev, j, p);
    } else if p != [] {
      var fields := j.fields;
      var n := FieldUpdated(prev.entries, fields, ts, next, p[0]);
      var (es, _) := UpdateFields(prev.entries, fields, ts, next);
      FindAppend(es, Missing(prev.entries, fields, ts), p[0]);
      c := UpdateAt(Find(prev.entries, p[0]).value.value, Find(fields, p[0]).value, ts, n, p[1..]);
    }
  }

  /** Every path whose previous value is live and reads as the JSON does there has the
      same node afterwards, stamp and all. */
  lemma UnchangedKept(prev: Crdt, j: Json, ts: Timestamp, next: nat, p: seq<bytes>)
    requires CrdtAt(prev, p).Some? && JsonAt(j, p).Some? && Unchanged(CrdtAt(prev, p).value, JsonAt(j, p).value)
    ensures CrdtAt(Apply(prev, j, ts, next).0, p) == CrdtAt(prev, p)
  {
    var c := UpdateAt(prev, j, ts, next, p);
    SameIsNoWrite(CrdtAt(prev, p).value, JsonAt(j, p).value, ts, c);
  }

  /** Every other live one is stamped with the write. */
  lemma ChangedStamped(prev: Crdt, j: Json, ts: Timestamp, next: nat, p: seq<bytes>)
    requires CrdtAt(prev, p).Some? && !CrdtAt(prev, p).value.dead && JsonAt(j, p).Some?
    requires !Unchanged(CrdtAt(prev, p).value, JsonAt(j, p).value)
    ensures var v := CrdtAt(Apply(prev, j, ts, next).0, p); v.Some? && !v.value.dead && v.value.ts == ts
  {
    var c := UpdateAt(prev, j, ts, next, p);
  }

  /** A field of an object at the path that the JSON leaves out: a tombstone stays as
      it is, stamp and all; a live field becomes a tombstone of this write. */
  lemma AbsentField(prev: Crdt, j: Json, ts: Timestamp, next: nat, p: seq<bytes>, n: bytes)
    requires CrdtAt(prev, p).Some? && JsonAt(j, p).Some? && JsonAt(j, p).value.JObj?
    requires n !in Names(JsonAt(j, p).value.fields)
    requires CrdtAt(CrdtAt(prev, p).value, [n]).Some?
    ensures var was := CrdtAt(CrdtAt(prev, p).value, [n]).value;
      var v := CrdtAt(Apply(prev, j, ts, next).0, p);
      && v.Some?
      && CrdtAt(v.value, [n]) == Some(if was.dead then was else Register(ts, true, Lattice.Null))
  {
    var o, fields := CrdtAt(prev, p).value, JsonAt(j, p).value.fields;
    var c := UpdateAt(prev, j, ts, next, p);
    assert [n][1..] == [];
    if Unchanged(o, JObj(fields)) {
      NotMissed(o.entries, fields, n);
    } else {
      var k := FieldUpdated(o.entries, fields, ts, c, n);
      NotNamed(fields, n);
      FieldMissing(o.entries, fields, ts, n);
      FindAppend(UpdateFields(o.entries, fields, ts, c).0, Missing(o.entries, fields, ts), n);
    }
  }

  lemma NotNamed(fields: seq<Named<Json>>, n: bytes)
    requires n !in Names(fields)
    ensures Find(fields, n) == Absent
  {
    forall i | 0 <= i < |fields| ensures fields[i].name != n {
      assert fields[i].name in Names(fields);
    }
  }

  /** A live field that the JSON leaves out is a change. */
  lemma NotMissed(es: seq<Named<Slot>>, fields: seq<Named<Json>>, n: bytes)
    requires Find(es, n).Found? && n !in Names(fields) && JsonEquals(JObj(ToFields(es)), JObj(fields))
    ensures Find(es, n).value.value.dead
  {
    NotNamed(fields, n);
    if !Find(es, n).value.value.dead {
      FindLive(es, n);
      assert false;
    }
  }

  // ------------------------------------------------------------------
  // Elements of an array
  // ------------------------------------------------------------------

  /** An element of the new array: an old one as it was, or a new one for an item that
      no old element left over reads as. */
  ghost predicate Thrifty(e: Named<Slot>, x: Json, prev: seq<Named<Slot>>, left: seq<Named<Slot>>, ts: Timestamp) {
    || (e in prev && !e.item.removed && JsonEquals(ToJson(e.item.value), x))
    || (e.item.value.ts == ts && forall f :: f in left && !f.item.removed ==> !JsonEquals(ToJson(f.item.value), x))
  }

  lemma {:induction false} NoMatch(es: seq<Named<Slot>>, x: Json)
    requires FirstMatch(es, x) == |es|
    ensures forall f :: f in es && !f.item.removed ==> !JsonEquals(ToJson(f.item.value), x)
  {
    if es != [] {
      NoMatch(es[1..], x);
      HeadTail(es);
    }
  }

  lemma BuiltStamp(j: Json, ts: Timestamp, next: nat)
    ensures FromJson(j, ts, next).0.ts == ts
  {
  }

  /** No element is removed and put back under another tag. */
  lemma {:induction false} MatchThrifty(prev: seq<Named<Slot>>, items: seq<Json>, ts: Timestamp, next: nat)
    ensures var (es, left, _) := MatchItems(prev, items, ts, next);
      && |es| == |items| && (forall e :: e in left ==> e in prev)
      && forall i :: 0 <= i < |es| ==> Thrifty(es[i], items[i], prev, left, ts)
    decreases items
  {
    if items != [] {
      var i := FirstMatch(prev, items[0]);
      if i < |prev| {
        var others := prev[..i] + prev[i + 1..];
        MatchThrifty(others, items[1..], ts, next);
        var (rest, left, _) := MatchItems(others, items[1..], ts, next);
        assert forall e :: e in others ==> e in prev;
        ThriftyFirst(prev[i], rest, items, prev, others, left, ts);
      } else {
        NoMatch(prev, items[0]);
        var (v, n) := FromJson(items[0], ts, next + 1);
        BuiltStamp(items[0], ts, next + 1);
        MatchThrifty(prev, items[1..], ts, n);
        var (rest, left, _) := MatchItems(prev, items[1..], ts, n);
        ThriftyFirst(Named(Tag(ts, next), Slot(false, v)), rest, items, prev, prev, left, ts);
      }
    }
  }

  lemma ThriftyFirst(e: Named<Slot>, rest: seq<Named<Slot>>, items: seq<Json>, prev: seq<Named<Slot>>,
                     others: seq<Named<Slot>>, left: seq<Named<Slot>>, ts: Timestamp)
    requires items != [] && |rest| == |items| - 1 && Thrifty(e, items[0], prev, left, ts)
    requires forall f :: f in others ==> f in prev
    requires forall i :: 0 <= i < |rest| ==> Thrifty(rest[i], items[1..][i], others, left, ts)
    ensures forall i :: 0 <= i < |[e] + rest| ==> Thrifty(([e] + rest)[i], items[i], prev, left, ts)
  {
    var all := [e] + rest;
    forall i | 0 <= i < |all| ensures Thrifty(all[i], items[i], prev, left, ts) {
      if i > 0 { assert Thrifty(rest[i - 1], items[1..][i - 1], others, left, ts); }
    }
  }

  /** An updated array, wherever it is: its entries are one per new item, each an old
      element as it was or a new one that was needed, and then the elements left over,
      marked removed and otherwise as they were. */
  lemma ArrayAt(prev: Crdt, j: Json, ts: Timestamp, next: nat, p: seq<bytes>)
    returns (es: seq<Named<Slot>>, left: seq<Named<Slot>>)
    requires CrdtAt(prev, p).Some? && JsonAt(j, p).Some? && JsonAt(j, p).value.JArr?
    requires var a := CrdtAt(prev, p).value; a.Container? && !a.dead && a.shape.ArrayShape?
    requires !Unchanged(CrdtAt(prev, p).value, JsonAt(j, p).value)
    ensures var a, items := CrdtAt(prev, p).value, JsonAt(j, p).value.items;
      && CrdtAt(Apply(prev, j, ts, next).0, p) == Some(Container(ts, false, Lattice.ArrayShape, es + Remove(left)))
      && |es| == |items| && (forall e :: e in left ==> e in a.entries)
      && forall i :: 0 <= i < |es| ==> Thrifty(es[i], items[i], a.entries, left, ts)
  {
    var a, items := CrdtAt(prev, p).value, JsonAt(j, p).value.items;
    var c := UpdateAt(prev, j, ts, next, p);
    var r := MatchItems(a.entries, items, ts, c);
    es, left := r.0, r.1;
    MatchThrifty(a.entries, items, ts, c);
  }

  // ------------------------------------------------------------------
  // Concurrent edits
  // ------------------------------------------------------------------

  function Objects(n: nat): (s: seq<Lattice.Shape>)
    ensures |s| == n && AllObjects(s)
  {
    seq(n, _ => Lattice.ObjectShape)
  }

  lemma ViewChild(v: Crdt, n: bytes)
    requires WellFormed(v) && v.Container? && Find(v.entries, n).Found?
    ensures var c := Find(v.entries, n).value.value;
      WellFormed(c) && View(v).Node? && n in View(v).cells && View(v).cells[n].value == View(c)
  {
    var e := Named(n, Find(v.entries, n).value);
    assert e in v.entries;
    CellOf(v.entries, e);
  }

  predicate AllObjects(shapes: seq<Lattice.Shape>) {
    forall i :: 0 <= i < |shapes| ==> shapes[i] == Lattice.ObjectShape
  }

  lemma {:induction false} ViewAt(v: Crdt, p: seq<bytes>, shapes: seq<Lattice.Shape>)
    requires WellFormed(v) && CrdtAt(v, p).Some? && |p| == |shapes| && AllObjects(shapes)
    ensures Along(View(v), p, shapes) && Provenance.At(View(v), p) == Some(View(CrdtAt(v, p).value))
    decreases |p|
  {
    if p != [] {
      ViewChild(v, p[0]);
      var c := Find(v.entries, p[0]).value.value;
      ViewAt(c, p[1..], shapes[1..]);
      StepAlong(View(v), View(c), p, shapes);
    }
  }

  lemma StepAlong(d: Lattice.Doc, c: Lattice.Doc, p: seq<bytes>, shapes: seq<Lattice.Shape>)
    requires |p| == |shapes| && p != [] && d.Node? && !d.dead && d.shape == shapes[0]
    requires p[0] in d.cells && d.cells[p[0]].value == c && Along(c, p[1..], shapes[1..])
    ensures Along(d, p, shapes) && Provenance.At(d, p) == Provenance.At(c, p[1..])
  {
  }

  /** Where a local write changed nothing, merging with any other version gives what it
      would have given without the local write. */
  lemma RemoteEditSurvives(prev: Crdt, j: Json, ts: Timestamp, next: nat, p: seq<bytes>, r: Crdt)
    requires Keyed(j) && Updatable(prev, ts) && WellFormed(r) && Along(View(r), p, Objects(|p|))
    requires CrdtAt(prev, p).Some? && JsonAt(j, p).Some? && Unchanged(CrdtAt(prev, p).value, JsonAt(j, p).value)
    ensures var v, c := Apply(prev, j, ts, next).0, View(CrdtAt(prev, p).value);
      var there := Provenance.At(View(r), p);
      && Provenance.At(View(Merge(v, r)), p) == Provenance.At(View(Merge(prev, r)), p) == Joined(Some(c), there)
      && Provenance.At(View(Merge(r, v)), p) == Provenance.At(View(Merge(r, prev)), p) == Joined(there, Some(c))
      && (there.Some? && there.value.Leaf? && Before(c.ts, there.value.ts) ==>
            Provenance.At(View(Merge(v, r)), p) == there == Provenance.At(View(Merge(r, v)), p))
  {
    var v := Apply(prev, j, ts, next).0;
    UpdateGood(prev, j, ts, next);
    UnchangedKept(prev, j, ts, next, p);
    ViewAt(prev, p, Objects(|p|));
    ViewAt(v, p, Objects(|p|));
    MergeMeansJoin(v, r);
    MergeMeansJoin(prev, r);
    MergeMeansJoin(r, v);
    MergeMeansJoin(r, prev);
    JoinAt(View(v), View(r), p, Objects(|p|));
    JoinAt(View(prev), View(r), p, Objects(|p|));
    JoinAt(View(r), View(v), p, Objects(|p|));
    JoinAt(View(r), View(prev), p, Objects(|p|));
    var c, there := View(CrdtAt(prev, p).value), Provenance.At(View(r), p);
    if there.Some? && there.value.Leaf? && Before(c.ts, there.value.ts) {
      StampOrder();
      Lattice.JoinWhole(c, there.value);
      Lattice.JoinWhole(there.value, c);
    }
  }
}
