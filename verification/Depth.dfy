/** Nesting depth through local writes and merges. */
module Depth {
  import opened ByteStrings
  import opened Stamps
  import opened NamedItems
  import opened JsonValues
  import opened Documents
  import opened Codec
  import opened Updates
  import Lattice

  /** At most `left` levels of nesting below the root. */
  predicate Flat(j: Json, left: int) {
    left >= 0 &&
    match j
    case JArr(items) => forall x :: x in items ==> Flat(x, left - 1)
    case JObj(fields) => forall f :: f in fields ==> Flat(f.item, left - 1)
    case _ => true
  }

  lemma {:induction false} BuildShallow(j: Json, ts: Timestamp, next: nat, left: int)
    requires Flat(j, left)
    ensures Shallow(FromJson(j, ts, next).0, left)
    decreases j, 1
  {
    match j
    case JArr(items) => ItemsShallow(items, ts, next, left - 1);
    case JObj(fields) => FieldsShallow(fields, ts, next, left - 1);
    case _ =>
  }

  lemma {:induction false} ItemsShallow(items: seq<Json>, ts: Timestamp, next: nat, left: int)
    requires forall x :: x in items ==> Flat(x, left)
    ensures AllShallow(FromItems(items, ts, next).0, left)
    decreases items, 0
  {
    if items != [] {
      assert items[0] in items;
      BuildShallow(items[0], ts, next + 1, left);
      ItemsShallow(items[1..], ts, FromJson(items[0], ts, next + 1).1, left);
    }
  }

  lemma {:induction false} FieldsShallow(fields: seq<Named<Json>>, ts: Timestamp, next: nat, left: int)
    requires forall f :: f in fields ==> Flat(f.item, left)
    ensures AllShallow(FromFields(fields, ts, next).0, left)
    decreases fields, 0
  {
    if fields != [] {
      assert fields[0] in fields;
      BuildShallow(fields[0].item, ts, next, left);
      FieldsShallow(fields[1..], ts, FromJson(fields[0].item, ts, next).1, left);
    }
  }

  lemma {:induction false} ApplyShallow(prev: Crdt, j: Json, ts: Timestamp, next: nat, left: int)
    requires Shallow(prev, left) && Flat(j, left)
    ensures Shallow(Apply(prev, j, ts, next).0, left)
    decreases j, 1
  {
    if !prev.dead && JsonEquals(ToJson(prev), j) {
    } else if !prev.dead && prev.Container? && prev.shape.ObjectShape? && j.JObj? {
      var es := UpdateFields(prev.entries, j.fields, ts, next).0;
      if prev.entries == [] && j.fields == [] {
        assert es + Missing(prev.entries, j.fields, ts) == [];
      } else {
        assert left >= 1 by {
          if prev.entries != [] { assert prev.entries[0] in prev.entries; }
          if j.fields != [] { assert j.fields[0] in j.fields; }
        }
        UpdateShallow(prev.entries, j.fields, ts, next, left - 1);
        MissingShallow(prev.entries, j.fields, ts, left - 1);
      }
    } else if !prev.dead && prev.Container? && prev.shape.ArrayShape? && j.JArr? {
      MatchShallow(prev.entries, j.items, ts, next, left - 1);
      RemoveShallow(MatchItems(prev.entries, j.items, ts, next).1, left - 1);
    } else {
      BuildShallow(j, ts, next, left);
    }
  }

  lemma {:induction false} UpdateShallow(prev: seq<Named<Slot>>, fields: seq<Named<Json>>, ts: Timestamp, next: nat,
                                         left: int)
    requires AllShallow(prev, left)
    requires forall f :: f in fields ==> Flat(f.item, left)
    ensures AllShallow(UpdateFields(prev, fields, ts, next).0, left)
    decreases fields, 0
  {
    if fields != [] {
      var f := fields[0];
      assert f in fields;
      var found := Find(prev, f.name);
      if found.Found? {
        ApplyShallow(found.value.value, f.item, ts, next, left);
      } else {
        BuildShallow(f.item, ts, next, left);
      }
      UpdateShallow(prev, fields[1..], ts, UpdateField(prev, f, ts, next).1, left);
    }
  }

  lemma {:induction false} MissingShallow(prev: seq<Named<Slot>>, fields: seq<Named<Json>>, ts: Timestamp, left: int)
    requires left >= 0 && AllShallow(prev, left)
    ensures AllShallow(Missing(prev, fields, ts), left)
  {
    if prev != [] {
      assert prev[0] in prev;
      MissingShallow(prev[1..], fields, ts, left);
    }
  }

  lemma {:induction false} MatchShallow(prev: seq<Named<Slot>>, items: seq<Json>, ts: Timestamp, next: nat, left: int)
    requires AllShallow(prev, left)
    requires forall x :: x in items ==> Flat(x, left)
    ensures AllShallow(MatchItems(prev, items, ts, next).0, left)
    ensures AllShallow(MatchItems(prev, items, ts, next).1, left)
    decreases items
  {
    if items != [] {
      assert items[0] in items;
      var i := FirstMatch(prev, items[0]);
      if i < |prev| {
        assert prev[i] in prev;
        MatchShallow(prev[..i] + prev[i + 1..], items[1..], ts, next, left);
      } else {
        BuildShallow(items[0], ts, next + 1, left);
        MatchShallow(prev, items[1..], ts, FromJson(items[0], ts, next + 1).1, left);
      }
    }
  }

  lemma {:induction false} RemoveShallow(es: seq<Named<Slot>>, left: int)
    requires AllShallow(es, left)
    ensures AllShallow(Remove(es), left)
  {
    if es != [] {
      assert es[0] in es;
      RemoveShallow(es[1..], left);
    }
  }

  lemma {:induction false} MergeShallow(a: Crdt, b: Crdt, left: int)
    requires WellFormed(a) && WellFormed(b)
    requires Shallow(a, left) && Shallow(b, left)
    ensures Shallow(Merge(a, b), left)
    decreases a, 1
  {
    if Mergeable(a, b) {
      var index := Index(b.entries);
      forall i | 0 <= i < |a.entries| ensures Shallow(JoinEntry(a.entries[i], index).item.value, left - 1) {
        JoinedShallow(a, b, left, i);
      }
      MergedNames(a, b);
      UnionFacts(a.entries, b.entries);
    }
  }

  lemma {:induction false} JoinedShallow(a: Crdt, b: Crdt, left: int, i: nat)
    requires WellFormed(a) && WellFormed(b) && Shallow(a, left) && Shallow(b, left)
    requires a.Container? && b.Container? && i < |a.entries|
    ensures Shallow(JoinEntry(a.entries[i], Index(b.entries)).item.value, left - 1)
    decreases a, 0
  {
    var e, index := a.entries[i], Index(b.entries);
    EntryShallow(a, e, left);
    if e.name in index {
      var f := Named(e.name, index[e.name]);
      EntryShallow(b, f, left);
      MergeShallow(e.item.value, f.item.value, left - 1);
      assert JoinEntry(e, index).item.value == Merge(e.item.value, f.item.value);
    } else {
      assert JoinEntry(e, index) == e;
    }
  }

  lemma EntryShallow(v: Crdt, e: Named<Slot>, left: int)
    requires v.Container? && WellFormed(v) && Shallow(v, left) && e in v.entries
    ensures WellFormed(e.item.value) && Shallow(e.item.value, left - 1)
  {
  }
}
