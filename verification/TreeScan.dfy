/** Reading the leaves in chain order.
 */
module TreeScans {
  import opened Sequences
  import opened TreeModel
  import opened TreeEntries
  import opened TreeSplits

  /** The entries on a list of leaf pages. */
  function LeafEntries(heap: Heap, ids: seq<int>): seq<Entry> {
    if ids == [] then []
    else (if ids[0] in heap && heap[ids[0]].LeafPage? then heap[ids[0]].entries else []) + LeafEntries(heap, ids[1..])
  }

  lemma {:induction false} LeafEntriesAppend(heap: Heap, a: seq<int>, b: seq<int>)
    ensures LeafEntries(heap, a + b) == LeafEntries(heap, a) + LeafEntries(heap, b)
  {
    if a == [] {
      AppendNone(b);
      AppendNone(LeafEntries(heap, b));
    } else {
      LeafEntriesAppend(heap, a[1..], b);
      AppendTail(a, b);
      var first := if a[0] in heap && heap[a[0]].LeafPage? then heap[a[0]].entries else [];
      AppendAssociates(first, LeafEntries(heap, a[1..]), LeafEntries(heap, b));
    }
  }

  /** The leaf pages hold the tree's entries, in order. */
  lemma {:induction false} RepEntries(heap: Heap, t: Tree, parent: int)
    requires Rep(heap, t, parent)
    ensures Entries(t) == LeafEntries(heap, Leaves(t))
    decreases t, 1
  {
    if t.TLeaf? {
      assert [t.id][1..] == [];
    } else {
      KidsEntries(heap, t.kids, t.id);
    }
  }

  lemma {:induction false} KidsEntries(heap: Heap, ts: seq<Tree>, parent: int)
    requires forall i :: 0 <= i < |ts| ==> Rep(heap, ts[i], parent)
    ensures AllEntries(ts) == LeafEntries(heap, AllLeaves(ts))
    decreases ts, 0
  {
    if ts != [] {
      RepEntries(heap, ts[0], parent);
      KidsEntries(heap, ts[1..], parent);
      LeafEntriesAppend(heap, Leaves(ts[0]), AllLeaves(ts[1..]));
    }
  }

  lemma {:induction false} AfterEntries(heap: Heap, p: Path, hole: int)
    requires PathRep(heap, p, hole)
    ensures EntriesAfter(p) == LeafEntries(heap, LeavesAfter(p))
    decreases p
  {
    if p.Step? {
      KidsEntries(heap, p.after, p.id);
      AfterEntries(heap, p.up, p.id);
      LeafEntriesAppend(heap, AllLeaves(p.after), LeavesAfter(p.up));
    }
  }

  lemma {:induction false} FromAppend(a: seq<Entry>, b: seq<Entry>, k: int)
    ensures From(a + b, k) == From(a, k) + From(b, k)
  {
    if a == [] {
      AppendNone(b);
      AppendNone(From(b, k));
    } else {
      FromAppend(a[1..], b, k);
      AppendTail(a, b);
      AppendAssociates(if a[0].key >= k then [a[0]] else [], From(a[1..], k), From(b, k));
    }
  }

  lemma FromSnoc(es: seq<Entry>, i: nat, k: int)
    requires i < |es|
    ensures From(es[..i + 1], k) == From(es[..i], k) + if es[i].key >= k then [es[i]] else []
  {
    assert es[..i + 1] == es[..i] + [es[i]];
    FromAppend(es[..i], [es[i]], k);
    assert [es[i]][1..] == [];
  }

  lemma {:induction false} FromNone(es: seq<Entry>, k: int)
    requires Below(es, k)
    ensures From(es, k) == []
  {
    if es != [] { FromNone(es[1..], k); }
  }

  /** What a scan from this leaf must deliver is on it and the leaves chained
      after it. */
  lemma ScanStart(heap: Heap, p: Path, t: Tree, lo: int, hi: int, k: int)
    requires Located(heap, p, t, 0, lo, hi) && t.TLeaf? && lo <= k <= hi
    ensures From(Entries(Plug(p, t)), k) == From(LeafEntries(heap, [t.id] + LeavesAfter(p)), k)
    ensures Leaves(Plug(p, t)) == LeavesBefore(p) + ([t.id] + LeavesAfter(p))
  {
    assert LeafEntries(heap, [t.id] + LeavesAfter(p)) == t.entries + EntriesAfter(p) by {
      AfterEntries(heap, p, t.id);
      LeafEntriesAppend(heap, [t.id], LeavesAfter(p));
      RepEntries(heap, t, ParentOf(p));
    }
    PathBounds(p, lo, hi);
    PlugEntries(p, t);
    PathEntriesSplit(p, t.entries);
    AppendAssociates(EntriesBefore(p), t.entries, EntriesAfter(p));
    FromAppend(EntriesBefore(p), t.entries + EntriesAfter(p), k);
    FromNone(EntriesBefore(p), k);
    PlugLeaves(p, t);
    PathLeavesSplit(p, [t.id]);
    AppendAssociates(LeavesBefore(p), [t.id], LeavesAfter(p));
  }

  lemma ChainTail(heap: Heap, a: seq<int>, b: seq<int>)
    requires Chained(heap, a + b, NO_PAGE)
    ensures Chained(heap, b, NO_PAGE)
  {
    forall i | 0 <= i < |b| ensures LinkAt(heap, b, NO_PAGE, i) {
      assert LinkAt(heap, a + b, NO_PAGE, |a| + i);
      assert (a + b)[|a| + i] == b[i];
    }
  }

  /** One leaf's part of a scan. */
  method ScanLeaf(es: seq<Entry>, k: int, limit: nat, results: seq<Entry>) returns (results': seq<Entry>, full: bool)
    requires limit != 0 ==> |results| < limit
    ensures full ==> |results'| == limit != 0 && results' <= results + From(es, k)
    ensures !full ==> results' == results + From(es, k) && (limit != 0 ==> |results'| < limit)
  {
    results' := results;
    for i := 0 to |es|
      invariant results' == results + From(es[..i], k)
      invariant limit != 0 ==> |results'| < limit
    {
      FromSnoc(es, i, k);
      if es[i].key >= k {
        results' := results' + [es[i]];
        if limit != 0 && |results'| >= limit {
          assert es == es[..i + 1] + es[i + 1..];
          FromAppend(es[..i + 1], es[i + 1..], k);
          return results', true;
        }
      }
    }
    assert es[..|es|] == es;
    full := false;
  }

  /** Follows the chain from a leaf. */
  method ScanChain(heap: Heap, start: int, k: int, limit: nat, ghost leaves: seq<int>) returns (results: seq<Entry>)
    requires Chained(heap, leaves, NO_PAGE) && NO_PAGE !in heap
    requires start == if leaves == [] then NO_PAGE else leaves[0]
    ensures results == UpTo(From(LeafEntries(heap, leaves), k), limit)
  {
    var leaf := start;
    results := [];
    ghost var i := 0;
    ghost var all := From(LeafEntries(heap, leaves), k);
    while leaf != NO_PAGE
      invariant 0 <= i <= |leaves|
      invariant leaf == if i < |leaves| then leaves[i] else NO_PAGE
      invariant all == results + From(LeafEntries(heap, leaves[i..]), k)
      invariant limit != 0 ==> |results| < limit
      decreases |leaves| - i
    {
      assert LinkAt(heap, leaves, NO_PAGE, i);
      assert leaves[i..][1..] == leaves[i + 1..];
      var full;
      ghost var before := results;
      FromAppend(heap[leaf].entries, LeafEntries(heap, leaves[i + 1..]), k);
      results, full := ScanLeaf(heap[leaf].entries, k, limit, results);
      if full { return; }
      leaf := heap[leaf].next;
      i := i + 1;
    }
    assert i < |leaves| ==> LinkAt(heap, leaves, NO_PAGE, i);
    assert leaves[|leaves|..] == [];
  }
}
