/** Sequences of named items, as objects, OR-set arrays and JSON objects keep
    them: lookup by name, and `std::sort` by name.
 */
module NamedItems {
  import opened Sequences
  import opened ByteStrings

  datatype Named<T> = Named(name: bytes, item: T)

  predicate Distinct<T>(s: seq<Named<T>>) {
    forall i, j :: 0 <= i < j < |s| ==> s[i].name != s[j].name
  }

  predicate Ascending<T>(s: seq<Named<T>>) {
    forall i, j :: 0 <= i < j < |s| ==> Less(s[i].name, s[j].name)
  }

  function Names<T>(s: seq<Named<T>>): set<bytes> {
    set i | 0 <= i < |s| :: s[i].name
  }

  lemma NamesSnoc<T>(s: seq<Named<T>>, i: nat)
    requires i < |s|
    ensures Names(s[..i + 1]) == Names(s[..i]) + {s[i].name}
  {
    assert s[..i + 1] == s[..i] + [s[i]];
    forall n | n in Names(s[..i]) ensures n in Names(s[..i + 1]) {
      var j :| 0 <= j < i && s[..i][j].name == n;
      assert s[..i + 1][j].name == n;
    }
    assert s[..i + 1][i].name == s[i].name;
  }

  lemma AppendNames<T>(a: seq<Named<T>>, b: seq<Named<T>>)
    ensures Names(a + b) == Names(a) + Names(b)
  {
    var c := a + b;
    forall n | n in Names(a) ensures n in Names(c) {
      var i :| 0 <= i < |a| && a[i].name == n;
      assert c[i].name == n;
    }
    forall n | n in Names(b) ensures n in Names(c) {
      var i :| 0 <= i < |b| && b[i].name == n;
      assert c[|a| + i].name == n;
    }
  }

  /** The hash index built by one pass over `s`: a later duplicate wins. */
  function Index<T>(s: seq<Named<T>>): (m: map<bytes, T>)
    ensures m.Keys == Names(s)
    ensures forall n :: n in m ==> Named(n, m[n]) in s
  {
    if s == [] then map[] else
    var last := s[|s| - 1];
    assert Names(s) == Names(s[..|s| - 1]) + {last.name};
    Index(s[..|s| - 1])[last.name := last.item]
  }

  method BuildIndex<T>(s: seq<Named<T>>) returns (m: map<bytes, T>)
    ensures m == Index(s)
  {
    m := map[];
    for i := 0 to |s|
      invariant m == Index(s[..i])
    {
      m := m[s[i].name := s[i].item];
      assert s[..i + 1][..i] == s[..i];
    }
    assert s[..|s|] == s;
  }

  lemma IndexMember<T>(s: seq<Named<T>>, e: Named<T>)
    requires Distinct(s) && e in s
    ensures e.name in Index(s) && Index(s)[e.name] == e.item
  {
    var i :| 0 <= i < |s| && s[i] == e;
    assert e.name in Names(s);
    var f := Named(e.name, Index(s)[e.name]);
    assert f in s;
    var j :| 0 <= j < |s| && s[j] == f;
  }

  /** With distinct names the index determines the items, whatever their order. */
  lemma IndexDependsOnItems<T>(s: seq<Named<T>>, t: seq<Named<T>>)
    requires Distinct(s) && Distinct(t)
    requires forall e :: e in s <==> e in t
    ensures Index(s) == Index(t)
  {
    forall n | n in Index(s) ensures n in Index(t) && Index(t)[n] == Index(s)[n] {
      IndexMember(t, Named(n, Index(s)[n]));
    }
    forall n | n in Index(t) ensures n in Index(s) {
      IndexMember(s, Named(n, Index(t)[n]));
    }
  }

  // ------------------------------------------------------------------
  // Sorting
  // ------------------------------------------------------------------

  function InsertByName<T>(e: Named<T>, s: seq<Named<T>>): seq<Named<T>> {
    if s == [] || !Less(s[0].name, e.name) then [e] + s else [s[0]] + InsertByName(e, s[1..])
  }

  function SortByName<T>(s: seq<Named<T>>): seq<Named<T>> {
    if s == [] then [] else InsertByName(s[0], SortByName(s[1..]))
  }

  lemma {:induction false} InsertMembers<T>(e: Named<T>, s: seq<Named<T>>)
    ensures multiset(InsertByName(e, s)) == multiset([e] + s)
  {
    if !(s == [] || !Less(s[0].name, e.name)) {
      InsertMembers(e, s[1..]);
      assert s == [s[0]] + s[1..];
    }
  }

  lemma {:induction false} SortMembers<T>(s: seq<Named<T>>)
    ensures multiset(SortByName(s)) == multiset(s)
  {
    if s != [] {
      SortMembers(s[1..]);
      InsertMembers(s[0], SortByName(s[1..]));
      assert s == [s[0]] + s[1..];
    }
  }

  lemma {:induction false} InsertAscending<T>(e: Named<T>, s: seq<Named<T>>)
    requires Ascending(s)
    requires forall f :: f in s ==> f.name != e.name
    ensures Ascending(InsertByName(e, s))
  {
    if s == [] {
    } else if !Less(s[0].name, e.name) {
      assert s[0] in s;
      LessTotal(s[0].name, e.name);
      forall i | 0 < i < |s| ensures Less(e.name, s[i].name) {
        LessTransitive(e.name, s[0].name, s[i].name);
      }
    } else {
      var rest := InsertByName(e, s[1..]);
      InsertAscending(e, s[1..]);
      InsertMembers(e, s[1..]);
      forall f | f in rest ensures Less(s[0].name, f.name) {
        assert f in multiset(rest);
        assert f in multiset([e] + s[1..]);
      }
    }
  }

  lemma {:induction false} SortAscending<T>(s: seq<Named<T>>)
    requires Distinct(s)
    ensures Ascending(SortByName(s))
  {
    if s != [] {
      SortAscending(s[1..]);
      var sorted := SortByName(s[1..]);
      SortMembers(s[1..]);
      forall f | f in sorted ensures f.name != s[0].name {
        assert f in multiset(sorted);
        assert f in multiset(s[1..]);
      }
      InsertAscending(s[0], sorted);
    }
  }

  lemma AscendingDistinct<T>(s: seq<Named<T>>)
    requires Ascending(s)
    ensures Distinct(s)
  {
    forall i, j | 0 <= i < j < |s| ensures s[i].name != s[j].name {
      LessIrreflexive(s[i].name);
    }
  }

  /** What sorting keeps, gathered. */
  lemma SortFacts<T>(s: seq<Named<T>>)
    requires Distinct(s)
    ensures Ascending(SortByName(s)) && Distinct(SortByName(s))
    ensures forall e :: e in SortByName(s) <==> e in s
    ensures |SortByName(s)| == |s|
    ensures Index(SortByName(s)) == Index(s)
  {
    var t := SortByName(s);
    SortAscending(s);
    AscendingDistinct(t);
    SortMembers(s);
    forall e ensures e in t <==> e in s {
      assert e in t <==> e in multiset(t);
    }
    assert |t| == |multiset(t)| == |multiset(s)| == |s|;
    IndexDependsOnItems(s, t);
  }

  lemma {:induction false} AscendingItemsUnique<T>(s: seq<Named<T>>, t: seq<Named<T>>)
    requires Ascending(s) && Ascending(t)
    requires forall e :: e in s <==> e in t
    ensures s == t
  {
    assert s == [] || s[0] in s;
    assert t == [] || t[0] in t;
    if s != [] {
      SameFirst(s, t);
      forall e ensures e in s[1..] <==> e in t[1..] {
        TailItem(s, e);
        TailItem(t, e);
      }
      AscendingItemsUnique(s[1..], t[1..]);
      assert s == [s[0]] + s[1..] && t == [t[0]] + t[1..];
    }
  }

  lemma SameFirst<T>(s: seq<Named<T>>, t: seq<Named<T>>)
    requires Ascending(s) && Ascending(t)
    requires forall e :: e in s <==> e in t
    requires s != [] && t != []
    ensures s[0] == t[0]
  {
    assert s[0] in t && t[0] in s;
    var i :| 0 <= i < |t| && t[i] == s[0];
    var j :| 0 <= j < |s| && s[j] == t[0];
    if i > 0 && j > 0 {
      LessAsymmetric(s[0].name, s[j].name);
    }
  }

  lemma TailItem<T>(s: seq<Named<T>>, e: Named<T>)
    requires Ascending(s) && s != []
    ensures e in s[1..] <==> e in s && e != s[0]
  {
    LessIrreflexive(s[0].name);
    if e in s[1..] {
      var i :| 0 <= i < |s[1..]| && s[1..][i] == e;
      assert s[i + 1] == e;
    }
    if e in s && e != s[0] {
      var i :| 0 <= i < |s| && s[i] == e;
      assert s[1..][i - 1] == e;
    }
  }

  /** No item is before its left neighbour; names may repeat. */
  predicate Sorted<T>(s: seq<Named<T>>) {
    forall i :: 0 < i < |s| ==> !Less(s[i].name, s[i - 1].name)
  }

  lemma {:induction false} SortIdentity<T>(s: seq<Named<T>>)
    requires Sorted(s)
    ensures SortByName(s) == s
  {
    if s != [] {
      var rest := s[1..];
      assert forall i :: 0 < i < |rest| ==> rest[i] == s[i + 1] && rest[i - 1] == s[i];
      SortIdentity(rest);
      HeadTail(s);
    }
  }

  lemma {:induction false} InsertSorted<T>(e: Named<T>, s: seq<Named<T>>)
    requires Sorted(s)
    ensures Sorted(InsertByName(e, s))
  {
    if s != [] && Less(s[0].name, e.name) {
      var rest := s[1..];
      assert forall i :: 0 < i < |rest| ==> rest[i] == s[i + 1] && rest[i - 1] == s[i];
      InsertSorted(e, rest);
      LessAsymmetric(s[0].name, e.name);
    }
  }

  lemma {:induction false} SortSorted<T>(s: seq<Named<T>>)
    ensures Sorted(SortByName(s))
  {
    if s != [] {
      SortSorted(s[1..]);
      InsertSorted(s[0], SortByName(s[1..]));
    }
  }

  /** Sorting keeps the items, repeated names or not. */
  lemma SortItems<T>(s: seq<Named<T>>)
    ensures forall e :: e in SortByName(s) <==> e in s
    ensures |SortByName(s)| == |s| && Names(SortByName(s)) == Names(s)
  {
    var t := SortByName(s);
    SortMembers(s);
    forall e ensures e in t <==> e in s {
      assert e in t <==> e in multiset(t);
    }
    assert |t| == |multiset(t)| == |multiset(s)| == |s|;
    SameNames(s, t);
  }

  lemma SameNames<T>(s: seq<Named<T>>, t: seq<Named<T>>)
    requires forall e :: e in s <==> e in t
    ensures Names(s) == Names(t)
  {
    forall n | n in Names(s) ensures n in Names(t) {
      var i :| 0 <= i < |s| && s[i].name == n;
      assert s[i] in t;
    }
    forall n | n in Names(t) ensures n in Names(s) {
      var i :| 0 <= i < |t| && t[i].name == n;
      assert t[i] in s;
    }
  }

  lemma DistinctSnoc<T>(front: seq<Named<T>>, last: Named<T>)
    ensures Distinct(front + [last]) <==> Distinct(front) && last.name !in Names(front)
  {
    var s := front + [last];
    assert forall i :: 0 <= i < |front| ==> s[i] == front[i];
    if last.name in Names(front) {
      var i :| 0 <= i < |front| && front[i].name == last.name;
      assert s[i].name == s[|front|].name;
    }
  }

  /** Names are distinct exactly when there are as many as items. */
  lemma {:induction false} DistinctExactly<T>(s: seq<Named<T>>)
    ensures |Names(s)| <= |s|
    ensures Distinct(s) <==> |Names(s)| == |s|
  {
    if s != [] {
      var front, last := s[..|s| - 1], s[|s| - 1];
      DistinctExactly(front);
      InitLast(s, |s| - 1);
      DistinctSnoc(front, last);
      NamesSnoc(s, |s| - 1);
      assert s[..|s|] == s;
      if last.name in Names(front) {
        assert Names(s) == Names(front);
      }
    }
  }

  /** A sorted sequence is determined by its index. */
  lemma AscendingUnique<T>(s: seq<Named<T>>, t: seq<Named<T>>)
    requires Ascending(s) && Ascending(t)
    requires Index(s) == Index(t)
    ensures s == t
  {
    AscendingDistinct(s);
    AscendingDistinct(t);
    forall e ensures e in s <==> e in t {
      if e in s { IndexMember(s, e); assert Named(e.name, Index(t)[e.name]) in t; }
      if e in t { IndexMember(t, e); assert Named(e.name, Index(s)[e.name]) in s; }
    }
    AscendingItemsUnique(s, t);
  }
}
