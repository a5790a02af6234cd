/** The replicated document as it is held in memory: fields and elements in
    vectors.  An object's field and an array's OR-set element are both an
    entry; only an element can be `removed`.
 */
module Documents {
  import opened ByteStrings
  import opened Stamps
  import opened NamedItems
  import Lattice

  type Scalar = Lattice.Scalar
  type Shape = Lattice.Shape

  datatype Crdt =
    | Register(ts: Timestamp, dead: bool, scalar: Scalar)
    | Container(ts: Timestamp, dead: bool, shape: Shape, entries: seq<Named<Slot>>)

  datatype Slot = Slot(removed: bool, value: Crdt)

  predicate WellFormed(v: Crdt) {
    v.Container? ==>
      && Distinct(v.entries)
      && forall e :: e in v.entries ==>
           && (v.shape.ObjectShape? ==> !e.item.removed)
           && WellFormed(e.item.value)
  }

  // ------------------------------------------------------------------
  // Merge
  // ------------------------------------------------------------------

  predicate Mergeable(a: Crdt, b: Crdt) {
    !a.dead && !b.dead && a.Container? && b.Container? && a.shape == b.shape
  }

  function Newer(a: Crdt, b: Crdt): Crdt {
    if Before(a.ts, b.ts) then b else a
  }

  function Merge(a: Crdt, b: Crdt): Crdt
    decreases a, 1
  {
    if Mergeable(a, b) then
      Container(Later(a.ts, b.ts), false, a.shape, SortByName(Union(a.entries, b.entries)))
    else
      Newer(a, b)
  }

  function Union(ea: seq<Named<Slot>>, eb: seq<Named<Slot>>): seq<Named<Slot>>
    decreases ea, 1
  {
    JoinLeft(ea, Index(eb)) + Only(eb, Names(eb) - Names(ea))
  }

  /** Each left entry, merged with the indexed one of its name; a used index
      entry is erased. */
  function JoinLeft(es: seq<Named<Slot>>, index: map<bytes, Slot>): (r: seq<Named<Slot>>)
    ensures |r| == |es|
    decreases es, 0
  {
    if es == [] then [] else
    [JoinEntry(es[0], index)] + JoinLeft(es[1..], index - {es[0].name})
  }

  function JoinEntry(e: Named<Slot>, index: map<bytes, Slot>): Named<Slot>
    decreases e.item.value, 2
  {
    if e.name in index then
      Named(e.name, Slot(e.item.removed || index[e.name].removed, Merge(e.item.value, index[e.name].value)))
    else
      e
  }

  function Only(es: seq<Named<Slot>>, names: set<bytes>): seq<Named<Slot>> {
    if es == [] then [] else
    (if es[0].name in names then [es[0]] else []) + Only(es[1..], names)
  }

  /** The hash join of the two entry vectors, in the loops that compute it. */
  method MergeByIndex(a: Crdt, b: Crdt) returns (r: Crdt)
    ensures r == Merge(a, b)
    decreases a, 1
  {
    if a.dead || b.dead {
      return if Before(a.ts, b.ts) then b else a;
    }
    if a.Container? && b.Container? && a.shape == b.shape {
      var entries := UnionByIndex(a.entries, b.entries);
      return Container(if Before(a.ts, b.ts) then b.ts else a.ts, false, a.shape, SortByName(entries));
    }
    return if Before(a.ts, b.ts) then b else a;
  }

  method UnionByIndex(ea: seq<Named<Slot>>, eb: seq<Named<Slot>>) returns (r: seq<Named<Slot>>)
    ensures r == Union(ea, eb)
    decreases ea, 1
  {
    var index := BuildIndex(eb);
    var joined, unused := JoinByIndex(ea, index);
    var rest := Remaining(eb, unused);
    r := joined + rest;
  }

  method JoinByIndex(es: seq<Named<Slot>>, whole: map<bytes, Slot>)
    returns (joined: seq<Named<Slot>>, unused: set<bytes>)
    ensures joined == JoinLeft(es, whole)
    ensures unused == whole.Keys - Names(es)
    decreases es, 0
  {
    var index := whole;
    joined := [];
    for i := 0 to |es|
      invariant joined + JoinLeft(es[i..], index) == JoinLeft(es, whole)
      invariant index.Keys == whole.Keys - Names(es[..i])
    {
      JoinLeftStep(joined, es, i, index);
      NamesSnoc(es, i);
      var e := JoinOne(es[i], index);
      joined := joined + [e];
      index := index - {es[i].name};
    }
    assert es[..|es|] == es;
    unused := index.Keys;
  }

  method JoinOne(e: Named<Slot>, index: map<bytes, Slot>) returns (r: Named<Slot>)
    ensures r == JoinEntry(e, index)
    decreases e.item.value, 2
  {
    if e.name !in index { return e; }
    var merged := MergeByIndex(e.item.value, index[e.name].value);
    return Named(e.name, Slot(e.item.removed || index[e.name].removed, merged));
  }

  lemma JoinLeftStep(joined: seq<Named<Slot>>, es: seq<Named<Slot>>, i: nat, index: map<bytes, Slot>)
    requires i < |es|
    ensures joined + JoinLeft(es[i..], index) ==
      joined + [JoinEntry(es[i], index)] + JoinLeft(es[i + 1..], index - {es[i].name})
  {
    assert es[i..][0] == es[i] && es[i..][1..] == es[i + 1..];
  }

  method Remaining(es: seq<Named<Slot>>, names: set<bytes>) returns (rest: seq<Named<Slot>>)
    ensures rest == Only(es, names)
  {
    rest := [];
    for i := 0 to |es|
      invariant rest + Only(es[i..], names) == Only(es, names)
    {
      assert es[i..][0] == es[i] && es[i..][1..] == es[i + 1..];
      if es[i].name in names {
        rest := rest + [es[i]];
      }
    }
  }

  // ------------------------------------------------------------------
  // What a document means
  // ------------------------------------------------------------------

  function View(v: Crdt): Lattice.Doc
    decreases v, 1
  {
    match v
    case Register(ts, dead, scalar) => Lattice.Leaf(ts, dead, scalar)
    case Container(ts, dead, shape, entries) => Lattice.Node(ts, dead, shape, Cells(entries))
  }

  function Cells(es: seq<Named<Slot>>): (m: map<bytes, Lattice.Cell>)
    ensures m.Keys == Names(es)
    decreases es, 0
  {
    map n | n in Index(es) ::
      assert Named(n, Index(es)[n]) in es;
      Lattice.Cell(Index(es)[n].removed, View(Index(es)[n].value))
  }

  lemma CellsAre(es: seq<Named<Slot>>, m: map<bytes, Lattice.Cell>)
    requires Names(es) == m.Keys
    requires forall e :: e in es ==> e.name in m && m[e.name] == Lattice.Cell(e.item.removed, View(e.item.value))
    ensures Cells(es) == m
  {
    forall n | n in Cells(es) ensures Cells(es)[n] == m[n] {
      assert Named(n, Index(es)[n]) in es;
    }
  }

  lemma CellOf(es: seq<Named<Slot>>, e: Named<Slot>)
    requires Distinct(es) && e in es
    ensures e.name in Cells(es) && Cells(es)[e.name] == Lattice.Cell(e.item.removed, View(e.item.value))
  {
    IndexMember(es, e);
  }

  // ------------------------------------------------------------------
  // Merging respects meaning
  // ------------------------------------------------------------------

  lemma {:induction false} JoinLeftAt(es: seq<Named<Slot>>, index: map<bytes, Slot>, i: nat)
    requires Distinct(es) && i < |es|
    ensures JoinLeft(es, index)[i] == JoinEntry(es[i], index)
    decreases es
  {
    if i > 0 {
      var less := index - {es[0].name};
      JoinLeftAt(es[1..], less, i - 1);
      assert es[1..][i - 1] == es[i];
      assert es[i].name != es[0].name;
    }
  }

  lemma {:induction false} OnlyFacts(es: seq<Named<Slot>>, names: set<bytes>)
    requires Distinct(es)
    ensures Distinct(Only(es, names))
    ensures forall e :: e in Only(es, names) <==> e in es && e.name in names
  {
    if es != [] {
      var rest := Only(es[1..], names);
      OnlyFacts(es[1..], names);
      assert es == [es[0]] + es[1..];
      forall e | e in rest ensures e.name != es[0].name {
        var i :| 0 <= i < |es[1..]| && es[1..][i] == e;
      }
    }
  }

  lemma JoinLeftAll(es: seq<Named<Slot>>, index: map<bytes, Slot>)
    requires Distinct(es)
    ensures forall i :: 0 <= i < |es| ==> JoinLeft(es, index)[i] == JoinEntry(es[i], index)
  {
    forall i | 0 <= i < |es| ensures JoinLeft(es, index)[i] == JoinEntry(es[i], index) {
      JoinLeftAt(es, index, i);
    }
  }

  lemma JoinedDistinct(ea: seq<Named<Slot>>, index: map<bytes, Slot>, r: seq<Named<Slot>>)
    requires Distinct(ea) && Distinct(r) && forall e :: e in r ==> e.name !in Names(ea)
    ensures Distinct(JoinLeft(ea, index) + r)
  {
    var l := JoinLeft(ea, index);
    JoinLeftAll(ea, index);
    forall i, j | 0 <= i < |l| && 0 <= j < |r| ensures l[i].name != r[j].name {
      assert r[j] in r;
      assert l[i].name == ea[i].name;
    }
  }

  lemma UnionFacts(ea: seq<Named<Slot>>, eb: seq<Named<Slot>>)
    requires Distinct(ea) && Distinct(eb)
    ensures Distinct(Union(ea, eb))
    ensures forall e :: e in Union(ea, eb) <==>
      (exists i :: 0 <= i < |ea| && e == JoinEntry(ea[i], Index(eb))) || (e in eb && e.name !in Names(ea))
  {
    var others := Names(eb) - Names(ea);
    OnlyFacts(eb, others);
    JoinedDistinct(ea, Index(eb), Only(eb, others));
    forall e
      ensures e in Union(ea, eb) <==>
        (exists i :: 0 <= i < |ea| && e == JoinEntry(ea[i], Index(eb))) || (e in eb && e.name !in Names(ea))
    {
      JoinedMember(ea, Index(eb), e);
      NameOf(eb, e);
    }
  }

  lemma NameOf(es: seq<Named<Slot>>, e: Named<Slot>)
    ensures e in es ==> e.name in Names(es)
  {
    if e in es {
      var i :| 0 <= i < |es| && es[i] == e;
    }
  }

  lemma JoinedMember(es: seq<Named<Slot>>, index: map<bytes, Slot>, e: Named<Slot>)
    requires Distinct(es)
    ensures e in JoinLeft(es, index) <==> exists i :: 0 <= i < |es| && e == JoinEntry(es[i], index)
  {
    var l := JoinLeft(es, index);
    JoinLeftAll(es, index);
    if i :| 0 <= i < |es| && e == JoinEntry(es[i], index) {
      assert l[i] == e;
    }
  }

  lemma JoinedNames(es: seq<Named<Slot>>, index: map<bytes, Slot>)
    requires Distinct(es)
    ensures Names(JoinLeft(es, index)) == Names(es)
  {
    var l := JoinLeft(es, index);
    JoinLeftAll(es, index);
    assert forall i :: 0 <= i < |es| ==> l[i].name == es[i].name;
  }

  lemma OnlyNames(es: seq<Named<Slot>>, names: set<bytes>)
    requires Distinct(es) && names <= Names(es)
    ensures Names(Only(es, names)) == names
  {
    var r := Only(es, names);
    OnlyFacts(es, names);
    forall n | n in names ensures n in Names(r) {
      var i :| 0 <= i < |es| && es[i].name == n;
      assert es[i] in r;
      NameOf(r, es[i]);
    }
    forall n | n in Names(r) ensures n in names {
      var i :| 0 <= i < |r| && r[i].name == n;
      assert r[i] in r;
    }
  }

  lemma UnionNames(ea: seq<Named<Slot>>, eb: seq<Named<Slot>>)
    requires Distinct(ea) && Distinct(eb)
    ensures Names(Union(ea, eb)) == Names(ea) + Names(eb)
  {
    var others := Names(eb) - Names(ea);
    JoinedNames(ea, Index(eb));
    OnlyNames(eb, others);
    AppendNames(JoinLeft(ea, Index(eb)), Only(eb, others));
  }

  /** One entry of the union is the corresponding cell of the join. */
  lemma {:induction false} UnionEntry(a: Crdt, b: Crdt, e: Named<Slot>)
    requires WellFormed(a) && WellFormed(b) && Mergeable(a, b)
    requires e in Union(a.entries, b.entries)
    ensures WellFormed(e.item.value)
    ensures a.shape.ObjectShape? ==> !e.item.removed
    ensures e.name in Lattice.Join(View(a), View(b)).cells
    ensures Lattice.Join(View(a), View(b)).cells[e.name] == Lattice.Cell(e.item.removed, View(e.item.value))
    decreases a, 1
  {
    UnionFacts(a.entries, b.entries);
    if i :| 0 <= i < |a.entries| && e == JoinEntry(a.entries[i], Index(b.entries)) {
      JoinedEntry(a, b, a.entries[i]);
    } else {
      NewEntry(a, b, e);
    }
  }

  lemma NewEntry(a: Crdt, b: Crdt, e: Named<Slot>)
    requires WellFormed(a) && WellFormed(b) && Mergeable(a, b) && e in b.entries && e.name !in Names(a.entries)
    ensures WellFormed(e.item.value) && (a.shape.ObjectShape? ==> !e.item.removed)
    ensures e.name in Lattice.Join(View(a), View(b)).cells
    ensures Lattice.Join(View(a), View(b)).cells[e.name] == Lattice.Cell(e.item.removed, View(e.item.value))
  {
    CellOf(b.entries, e);
    JoinCell(View(a), View(b), e.name);
  }

  lemma JoinCell(x: Lattice.Doc, y: Lattice.Doc, n: bytes)
    requires Lattice.Mergeable(x, y) && (n in x.cells || n in y.cells)
    ensures var d := Lattice.Join(x, y);
      && d.Node? && n in d.cells
      && d.cells[n] ==
         if n in x.cells && n in y.cells then
           Lattice.Cell(x.cells[n].removed || y.cells[n].removed, Lattice.Join(x.cells[n].value, y.cells[n].value))
         else if n in x.cells then x.cells[n]
         else y.cells[n]
  {
  }

  lemma {:induction false} JoinedEntry(a: Crdt, b: Crdt, x: Named<Slot>)
    requires WellFormed(a) && WellFormed(b) && Mergeable(a, b) && x in a.entries
    ensures var e := JoinEntry(x, Index(b.entries));
      && WellFormed(e.item.value) && (a.shape.ObjectShape? ==> !e.item.removed)
      && e.name in Lattice.Join(View(a), View(b)).cells
      && Lattice.Join(View(a), View(b)).cells[e.name] == Lattice.Cell(e.item.removed, View(e.item.value))
    decreases a, 0
  {
    var n := x.name;
    CellOf(a.entries, x);
    JoinCell(View(a), View(b), n);
    if n in Index(b.entries) {
      var y := Named(n, Index(b.entries)[n]);
      assert y in b.entries;
      CellOf(b.entries, y);
      MergeMeansJoin(x.item.value, y.item.value);
    } else {
      assert JoinEntry(x, Index(b.entries)) == x;
    }
  }

  lemma MergedNames(a: Crdt, b: Crdt)
    requires Mergeable(a, b) && Distinct(a.entries) && Distinct(b.entries)
    ensures Distinct(Merge(a, b).entries)
    ensures Names(Merge(a, b).entries) == Names(a.entries) + Names(b.entries)
    ensures forall e :: e in Merge(a, b).entries <==> e in Union(a.entries, b.entries)
  {
    var u := Union(a.entries, b.entries);
    UnionFacts(a.entries, b.entries);
    UnionNames(a.entries, b.entries);
    SortFacts(u);
    assert Index(SortByName(u)).Keys == Index(u).Keys;
  }

  lemma {:induction false} MergeMeansJoin(a: Crdt, b: Crdt)
    requires WellFormed(a) && WellFormed(b)
    ensures WellFormed(Merge(a, b))
    ensures View(Merge(a, b)) == Lattice.Join(View(a), View(b))
    decreases a, 2
  {
    if Mergeable(a, b) {
      var entries := Merge(a, b).entries;
      var cells := Lattice.Join(View(a), View(b)).cells;
      MergedNames(a, b);
      forall e | e in entries
        ensures WellFormed(e.item.value) && (a.shape.ObjectShape? ==> !e.item.removed)
        ensures e.name in cells && cells[e.name] == Lattice.Cell(e.item.removed, View(e.item.value))
      {
        UnionEntry(a, b, e);
      }
      CellsAre(entries, cells);
    }
  }

  // ------------------------------------------------------------------
  // Canonical order
  // ------------------------------------------------------------------

  /** Every container sorted by name: the shape in which a document is stored. */
  function Canon(v: Crdt): (c: Crdt)
    ensures c.ts == v.ts && c.dead == v.dead && c.Register? == v.Register?
    decreases v, 1
  {
    match v
    case Register(_, _, _) => v
    case Container(ts, dead, shape, entries) => Container(ts, dead, shape, SortByName(CanonEach(entries)))
  }

  function CanonEach(es: seq<Named<Slot>>): (r: seq<Named<Slot>>)
    ensures |r| == |es|
    decreases es, 0
  {
    if es == [] then [] else
    [Named(es[0].name, Slot(es[0].item.removed, Canon(es[0].item.value)))] + CanonEach(es[1..])
  }

  predicate Canonical(v: Crdt) {
    v.Container? ==> Ascending(v.entries) && forall e :: e in v.entries ==> Canonical(e.item.value)
  }

  lemma {:induction false} CanonEachAt(es: seq<Named<Slot>>, i: nat)
    requires i < |es|
    ensures CanonEach(es)[i] == Named(es[i].name, Slot(es[i].item.removed, Canon(es[i].item.value)))
  {
    if i > 0 {
      CanonEachAt(es[1..], i - 1);
    }
  }

  lemma CanonEachFacts(es: seq<Named<Slot>>)
    ensures Names(CanonEach(es)) == Names(es)
    ensures Distinct(es) ==> Distinct(CanonEach(es))
    ensures forall e :: e in CanonEach(es) ==>
      exists f :: f in es && e == Named(f.name, Slot(f.item.removed, Canon(f.item.value)))
    ensures forall f :: f in es ==> Named(f.name, Slot(f.item.removed, Canon(f.item.value))) in CanonEach(es)
  {
    forall i | 0 <= i < |es|
      ensures CanonEach(es)[i] == Named(es[i].name, Slot(es[i].item.removed, Canon(es[i].item.value)))
    {
      CanonEachAt(es, i);
    }
    forall e | e in CanonEach(es)
      ensures exists f :: f in es && e == Named(f.name, Slot(f.item.removed, Canon(f.item.value)))
    {
      var i :| 0 <= i < |es| && CanonEach(es)[i] == e;
      assert es[i] in es;
    }
    forall f | f in es ensures Named(f.name, Slot(f.item.removed, Canon(f.item.value))) in CanonEach(es) {
      var i :| 0 <= i < |es| && es[i] == f;
      assert CanonEach(es)[i] in CanonEach(es);
    }
    forall n | n in Names(es) ensures n in Names(CanonEach(es)) {
      var i :| 0 <= i < |es| && es[i].name == n;
      assert CanonEach(es)[i].name == n;
    }
  }

  /** Sorting a document changes nothing it means. */
  lemma {:induction false} CanonMeans(v: Crdt)
    requires WellFormed(v)
    ensures WellFormed(Canon(v)) && Canonical(Canon(v))
    ensures View(Canon(v)) == View(v)
    decreases v
  {
    if v.Container? {
      var c := CanonEach(v.entries);
      CanonEachFacts(v.entries);
      SortFacts(c);
      var s := SortByName(c);
      forall e | e in s
        ensures WellFormed(e.item.value) && Canonical(e.item.value)
        ensures v.shape.ObjectShape? ==> !e.item.removed
        ensures e.name in Cells(v.entries)
        ensures Cells(v.entries)[e.name] == Lattice.Cell(e.item.removed, View(e.item.value))
      {
        var f :| f in v.entries && e == Named(f.name, Slot(f.item.removed, Canon(f.item.value)));
        CanonMeans(f.item.value);
        CellOf(v.entries, f);
      }
      assert Index(s).Keys == Index(c).Keys;
      CellsAre(s, Cells(v.entries));
    }
  }

  /** Object members carry no removal flag; names may repeat. */
  predicate Flagged(v: Crdt) {
    v.Container? ==> forall e :: e in v.entries ==>
      (v.shape.ObjectShape? ==> !e.item.removed) && Flagged(e.item.value)
  }

  /** Every container sorted by name; names may repeat. */
  predicate Settled(v: Crdt) {
    v.Container? ==> Sorted(v.entries) && forall e :: e in v.entries ==> Settled(e.item.value)
  }

  lemma {:induction false} WellFormedFlagged(v: Crdt)
    requires WellFormed(v)
    ensures Flagged(v)
    decreases v
  {
    if v.Container? {
      forall e | e in v.entries ensures Flagged(e.item.value) {
        WellFormedFlagged(e.item.value);
      }
    }
  }

  /** What sorting does to any document, with repeated names or without. */
  lemma {:induction false} CanonSettles(v: Crdt)
    requires Flagged(v)
    ensures Settled(Canon(v)) && Flagged(Canon(v))
    decreases v
  {
    if v.Container? {
      var c := CanonEach(v.entries);
      CanonEachFacts(v.entries);
      SortItems(c);
      SortSorted(c);
      forall e | e in SortByName(c)
        ensures Settled(e.item.value) && Flagged(e.item.value) && (v.shape.ObjectShape? ==> !e.item.removed)
      {
        var f :| f in v.entries && e == Named(f.name, Slot(f.item.removed, Canon(f.item.value)));
        CanonSettles(f.item.value);
      }
    }
  }

  /** Sorting neither makes nor hides a repeated name. */
  lemma {:induction false} CanonWellFormed(v: Crdt)
    requires WellFormed(Canon(v))
    ensures WellFormed(v)
    decreases v
  {
    if v.Container? {
      var c := CanonEach(v.entries);
      CanonEachFacts(v.entries);
      SortItems(c);
      DistinctExactly(SortByName(c));
      DistinctExactly(v.entries);
      forall e | e in v.entries ensures WellFormed(e.item.value) && (v.shape.ObjectShape? ==> !e.item.removed) {
        assert Named(e.name, Slot(e.item.removed, Canon(e.item.value))) in SortByName(c);
        CanonWellFormed(e.item.value);
      }
    }
  }

  /** A canonical document is determined by its meaning. */
  lemma {:induction false} CanonicalUnique(a: Crdt, b: Crdt)
    requires Canonical(a) && Canonical(b) && View(a) == View(b)
    ensures a == b
    decreases a
  {
    if a.Container? {
      assert Cells(a.entries) == Cells(b.entries);
      forall n | n in Index(a.entries) ensures n in Index(b.entries) && Index(a.entries)[n] == Index(b.entries)[n] {
        assert n in Cells(a.entries) && n in Cells(b.entries);
        var x, y := Index(a.entries)[n], Index(b.entries)[n];
        assert Named(n, x) in a.entries && Named(n, y) in b.entries;
        assert Lattice.Cell(x.removed, View(x.value)) == Lattice.Cell(y.removed, View(y.value));
        CanonicalUnique(x.value, y.value);
      }
      assert Index(a.entries).Keys == Cells(a.entries).Keys == Cells(b.entries).Keys == Index(b.entries).Keys;
      assert Index(a.entries) == Index(b.entries);
      AscendingUnique(a.entries, b.entries);
    }
  }

  /** Documents have one canonical form exactly when they agree up to the
      order of fields and elements. */
  lemma CanonExactly(a: Crdt, b: Crdt)
    requires WellFormed(a) && WellFormed(b)
    ensures Canon(a) == Canon(b) <==> View(a) == View(b)
  {
    CanonMeans(a);
    CanonMeans(b);
    if View(a) == View(b) {
      CanonicalUnique(Canon(a), Canon(b));
    }
  }

  /** Merging stored documents gives a document already in stored order. */
  lemma {:induction false} MergeCanonical(a: Crdt, b: Crdt)
    requires Canonical(a) && Canonical(b)
    ensures Canonical(Merge(a, b))
    decreases a
  {
    if Mergeable(a, b) {
      var ea, eb := a.entries, b.entries;
      AscendingDistinct(ea);
      AscendingDistinct(eb);
      UnionFacts(ea, eb);
      SortFacts(Union(ea, eb));
      forall e | e in Union(ea, eb) ensures Canonical(e.item.value) {
        if i :| 0 <= i < |ea| && e == JoinEntry(ea[i], Index(eb)) {
          assert ea[i] in ea;
          if ea[i].name in Index(eb) {
            assert Named(ea[i].name, Index(eb)[ea[i].name]) in eb;
            MergeCanonical(ea[i].item.value, Index(eb)[ea[i].name].value);
          }
        }
      }
    }
  }
}
