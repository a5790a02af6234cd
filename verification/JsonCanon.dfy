/** The canonical dump: two documents have the same canonical text exactly when
    they are equal up to the order of fields, at every depth.
 */
module JsonCanon {
  import opened ByteStrings
  import opened NamedItems
  import opened JsonValues
  import opened JsonText

  /** The value with the fields of every object in name order. */
  function Sorted(j: Json): Json
    decreases j, 1
  {
    match j
    case JArr(items) => JArr(SortedItems(items))
    case JObj(fields) => JObj(SortByName(SortedFields(fields)))
    case _ => j
  }

  function SortedItems(items: seq<Json>): (r: seq<Json>)
    ensures |r| == |items|
    decreases items, 0
  {
    if items == [] then [] else [Sorted(items[0])] + SortedItems(items[1..])
  }

  function SortedFields(fields: seq<Named<Json>>): (r: seq<Named<Json>>)
    ensures |r| == |fields|
    decreases fields, 0
  {
    if fields == [] then [] else [Named(fields[0].name, Sorted(fields[0].item))] + SortedFields(fields[1..])
  }

  lemma {:induction false} SortedItemAt(items: seq<Json>, i: nat)
    requires i < |items|
    ensures SortedItems(items)[i] == Sorted(items[i])
  {
    if i > 0 { SortedItemAt(items[1..], i - 1); }
  }

  lemma {:induction false} SortedFieldAt(fields: seq<Named<Json>>, i: nat)
    requires i < |fields|
    ensures SortedFields(fields)[i] == Named(fields[i].name, Sorted(fields[i].item))
  {
    if i > 0 { SortedFieldAt(fields[1..], i - 1); }
  }

  // ------------------------------------------------------------------
  // The canonical text is the text of the sorted value
  // ------------------------------------------------------------------

  lemma {:induction false} CanonicalIsSorted(j: Json)
    ensures Text(j, true) == Text(Sorted(j), false)
    decreases j, 1
  {
    match j
    case JArr(items) => CanonicalItems(items);
    case JObj(fields) =>
      CanonicalFields(fields);
      SortTexts(SortedFields(fields), false);
    case _ =>
  }

  lemma {:induction false} CanonicalItems(items: seq<Json>)
    ensures ItemsText(items, true) == ItemsText(SortedItems(items), false)
    decreases items, 0
  {
    if items != [] {
      CanonicalIsSorted(items[0]);
      CanonicalItems(items[1..]);
    }
  }

  lemma {:induction false} CanonicalFields(fields: seq<Named<Json>>)
    ensures FieldTexts(fields, true) == FieldTexts(SortedFields(fields), false)
    decreases fields, 0
  {
    if fields != [] {
      CanonicalIsSorted(fields[0].item);
      CanonicalFields(fields[1..]);
    }
  }

  // ------------------------------------------------------------------
  // Sorted values are equal exactly when the values are
  // ------------------------------------------------------------------

  lemma SortedMember(fields: seq<Named<Json>>, f: Named<Json>)
    requires f in fields
    ensures Named(f.name, Sorted(f.item)) in SortedFields(fields)
  {
    var i :| 0 <= i < |fields| && fields[i] == f;
    SortedFieldAt(fields, i);
  }

  lemma UnsortedMember(fields: seq<Named<Json>>, g: Named<Json>) returns (f: Named<Json>)
    requires g in SortedFields(fields)
    ensures f in fields && g == Named(f.name, Sorted(f.item))
  {
    var i :| 0 <= i < |SortedFields(fields)| && SortedFields(fields)[i] == g;
    SortedFieldAt(fields, i);
    f := fields[i];
  }

  lemma SortedDistinct(fields: seq<Named<Json>>)
    requires Distinct(fields)
    ensures Distinct(SortedFields(fields))
  {
    forall i, j | 0 <= i < j < |fields| ensures SortedFields(fields)[i].name != SortedFields(fields)[j].name {
      SortedFieldAt(fields, i);
      SortedFieldAt(fields, j);
    }
  }

  lemma {:induction false} NameCount(s: seq<Named<Json>>)
    requires Distinct(s)
    ensures |Names(s)| == |s|
  {
    if s != [] {
      var n := |s| - 1;
      NameCount(s[..n]);
      NamesSnoc(s, n);
      assert s[..n + 1] == s;
      assert s[n].name !in Names(s[..n]);
    }
  }

  /** As many distinct names, all found there: the same names. */
  lemma SameNames(x: seq<Named<Json>>, y: seq<Named<Json>>, g: Named<Json>) returns (e: Named<Json>)
    requires Distinct(x) && Distinct(y) && |x| == |y| && g in y
    requires forall e :: e in x ==> Find(y, e.name).Found?
    ensures e in x && e.name == g.name
  {
    NameCount(x);
    NameCount(y);
    forall n | n in Names(x) ensures n in Names(y) {
      var i :| 0 <= i < |x| && x[i].name == n;
      assert x[i] in x;
      var f := Named(n, Find(y, n).value);
      var j :| 0 <= j < |y| && y[j] == f;
    }
    assert |Names(y)| == |Names(x)| + |Names(y) - Names(x)| by {
      assert Names(y) == Names(x) + (Names(y) - Names(x));
    }
    assert Names(y) - Names(x) == {};
    assert g.name in Names(y);
    var i :| 0 <= i < |x| && x[i].name == g.name;
    e := x[i];
  }

  lemma {:induction false} EqualSorts(a: Json, b: Json)
    requires Keyed(a) && Keyed(b) && JsonEquals(a, b)
    ensures Sorted(a) == Sorted(b)
    decreases a
  {
    if a.JArr? {
      forall i | 0 <= i < |a.items| ensures SortedItems(a.items)[i] == SortedItems(b.items)[i] {
        SortedItemAt(a.items, i);
        SortedItemAt(b.items, i);
        assert a.items[i] in a.items && b.items[i] in b.items;
        EqualSorts(a.items[i], b.items[i]);
      }
      assert SortedItems(a.items) == SortedItems(b.items);
    } else if a.JObj? {
      var x, y := a.fields, b.fields;
      forall e | e in x ensures Found(y, e) && Sorted(e.item) == Sorted(Find(y, e.name).value) {
        assert Find(y, e.name).Found? && JsonEquals(e.item, Find(y, e.name).value);
        var f := Named(e.name, Find(y, e.name).value);
        assert f in y && Keyed(f.item);
        EqualSorts(e.item, f.item);
      }
      SameSorted(x, y);
    }
  }

  predicate Found(y: seq<Named<Json>>, e: Named<Json>) {
    Find(y, e.name).Found?
  }

  lemma SameSorted(x: seq<Named<Json>>, y: seq<Named<Json>>)
    requires Distinct(x) && Distinct(y) && |x| == |y|
    requires forall e :: e in x ==> Found(y, e) && Sorted(e.item) == Sorted(Find(y, e.name).value)
    ensures SortByName(SortedFields(x)) == SortByName(SortedFields(y))
  {
    var u, v := SortedFields(x), SortedFields(y);
    SortedDistinct(x);
    SortedDistinct(y);
    SortFacts(u);
    SortFacts(v);
    assert forall e :: e in x ==> Found(y, e);
    forall g ensures g in u <==> g in v {
      if g in u {
        var e := UnsortedMember(x, g);
        SortedMember(y, Named(e.name, Find(y, e.name).value));
      }
      if g in v {
        var f := UnsortedMember(y, g);
        var e := SameNames(x, y, f);
        FindMember(y, f);
        SortedMember(x, e);
      }
    }
    AscendingItemsUnique(SortByName(u), SortByName(v));
  }

  lemma {:induction false} SortsEqual(a: Json, b: Json)
    requires Keyed(a) && Keyed(b) && Sorted(a) == Sorted(b)
    ensures JsonEquals(a, b)
    decreases a
  {
    if a.JArr? {
      assert SortedItems(a.items) == SortedItems(b.items);
      forall i | 0 <= i < |a.items| ensures JsonEquals(a.items[i], b.items[i]) {
        SortedItemAt(a.items, i);
        SortedItemAt(b.items, i);
        assert a.items[i] in a.items && b.items[i] in b.items;
        SortsEqual(a.items[i], b.items[i]);
      }
    } else if a.JObj? {
      var x, y := a.fields, b.fields;
      SortedDistinct(x);
      SortedDistinct(y);
      SortFacts(SortedFields(x));
      SortFacts(SortedFields(y));
      forall e | e in x ensures Find(y, e.name).Found? && JsonEquals(e.item, Find(y, e.name).value) {
        SortedMember(x, e);
        var f := UnsortedMember(y, Named(e.name, Sorted(e.item)));
        FindMember(y, f);
        SortsEqual(e.item, f.item);
      }
    }
  }

  /** Field order is all that the canonical text forgets. */
  lemma CanonicalExactly(a: Json, b: Json)
    requires Keyed(a) && Keyed(b)
    ensures Text(a, true) == Text(b, true) <==> JsonEquals(a, b)
  {
    CanonicalIsSorted(a);
    CanonicalIsSorted(b);
    ParseText(Sorted(a));
    ParseText(Sorted(b));
    if JsonEquals(a, b) { EqualSorts(a, b); }
    if Sorted(a) == Sorted(b) { SortsEqual(a, b); }
  }

  /** The canonical text parses, to a document equal to the one printed. */
  lemma CanonicalParses(j: Json)
    ensures Parse(Text(j, true)).Ok? && Parse(Text(j, true)).value == Sorted(j)
  {
    CanonicalIsSorted(j);
    ParseText(Sorted(j));
  }
}
