/** Sorted entry sequences: the plain ordered map a B+Tree must behave as, and
    why it is enough to look in one leaf.
 */
module TreeEntries {
  import opened Wrappers
  import opened Sequences
  import opened TreeModel

  function Lookup(es: seq<Entry>, k: int): Option<Rid> {
    if es == [] then None else if es[0].key == k then Some(es[0].rid) else Lookup(es[1..], k)
  }

  /** Insert in order, or overwrite. */
  function Upsert(es: seq<Entry>, k: int, r: Rid): seq<Entry> {
    if es == [] || k < es[0].key then [Entry(k, r)] + es
    else if es[0].key == k then [Entry(k, r)] + es[1..]
    else [es[0]] + Upsert(es[1..], k, r)
  }

  function Without(es: seq<Entry>, k: int): seq<Entry> {
    if es == [] then [] else if es[0].key == k then es[1..] else [es[0]] + Without(es[1..], k)
  }

  function From(es: seq<Entry>, start: int): seq<Entry> {
    if es == [] then [] else (if es[0].key >= start then [es[0]] else []) + From(es[1..], start)
  }

  /** The first `limit` entries, or all of them when `limit` is zero. */
  function UpTo(es: seq<Entry>, limit: nat): seq<Entry> {
    if limit == 0 || |es| <= limit then es else es[..limit]
  }

  function ToMap(es: seq<Entry>): map<int, Rid> {
    if es == [] then map[] else ToMap(es[1..])[es[0].key := es[0].rid]
  }

  // ------------------------------------------------------------------
  // They are the operations of a map
  // ------------------------------------------------------------------

  lemma {:induction false} ToMapKeys(es: seq<Entry>, k: int)
    ensures k in ToMap(es) <==> exists i :: 0 <= i < |es| && es[i].key == k
  {
    if es != [] {
      ToMapKeys(es[1..], k);
      if i :| 0 <= i < |es[1..]| && es[1..][i].key == k {
        assert es[i + 1].key == k;
      }
      if i :| 0 <= i < |es| && es[i].key == k {
        assert i == 0 || es[1..][i - 1].key == k;
      }
    }
  }

  lemma {:induction false} LookupIsMap(es: seq<Entry>, k: int)
    ensures Lookup(es, k) == if k in ToMap(es) then Some(ToMap(es)[k]) else None
  {
    if es != [] {
      LookupIsMap(es[1..], k);
    }
  }

  lemma {:induction false} UpsertIsMap(es: seq<Entry>, k: int, r: Rid)
    ensures ToMap(Upsert(es, k, r)) == ToMap(es)[k := r]
  {
    if es != [] && es[0].key <= k {
      if es[0].key < k {
        UpsertIsMap(es[1..], k, r);
      }
    } else {
      assert ([Entry(k, r)] + es)[1..] == es;
    }
  }

  lemma {:induction false} WithoutIsMap(es: seq<Entry>, k: int)
    requires AscendingEntries(es)
    ensures ToMap(Without(es, k)) == ToMap(es) - {k}
  {
    if es != [] {
      if es[0].key == k {
        ToMapKeys(es[1..], k);
        assert forall i :: 0 <= i < |es[1..]| ==> es[1..][i].key == es[i + 1].key;
      } else {
        WithoutIsMap(es[1..], k);
      }
    }
  }

  // ------------------------------------------------------------------
  // One leaf decides
  // ------------------------------------------------------------------

  predicate Below(es: seq<Entry>, k: int) {
    forall i :: 0 <= i < |es| ==> es[i].key < k
  }

  predicate AtLeast(es: seq<Entry>, k: int) {
    forall i :: 0 <= i < |es| ==> k <= es[i].key
  }

  lemma {:induction false} SkipFront(a: seq<Entry>, es: seq<Entry>, k: int, r: Rid)
    requires Below(a, k)
    ensures Lookup(a + es, k) == Lookup(es, k)
    ensures Upsert(a + es, k, r) == a + Upsert(es, k, r)
    ensures Without(a + es, k) == a + Without(es, k)
    ensures From(a + es, k) == From(es, k)
  {
    if a == [] {
      AppendNone(es);
      AppendNone(Upsert(es, k, r));
      AppendNone(Without(es, k));
    } else {
      SkipFront(a[1..], es, k, r);
      AppendTail(a, es);
      HeadAppend(a, Upsert(es, k, r));
      HeadAppend(a, Without(es, k));
      AppendNone(From(es, k));
    }
  }

  lemma {:induction false} SkipBack(m: seq<Entry>, b: seq<Entry>, k: int, r: Rid)
    requires AtLeast(b, k + 1)
    ensures Lookup(m + b, k) == Lookup(m, k)
    ensures Upsert(m + b, k, r) == Upsert(m, k, r) + b
    ensures Without(m + b, k) == Without(m, k) + b
    ensures From(m + b, k) == From(m, k) + b
  {
    if m == [] {
      AppendNone(b);
      AppendNone([Entry(k, r)]);
      NothingBack(b, k, r);
    } else {
      var e, t := m[0], m[1..];
      AppendTail(m, b);
      SkipBack(t, b, k, r);
      AppendAssociates([Entry(k, r)], m, b);
      AppendAssociates([Entry(k, r)], t, b);
      AppendAssociates([e], Upsert(t, k, r), b);
      AppendAssociates([e], Without(t, k), b);
      AppendAssociates(if e.key >= k then [e] else [], From(t, k), b);
    }
  }

  lemma {:induction false} NothingBack(b: seq<Entry>, k: int, r: Rid)
    requires AtLeast(b, k + 1)
    ensures Lookup(b, k) == None && Upsert(b, k, r) == [Entry(k, r)] + b && Without(b, k) == b && From(b, k) == b
  {
    if b != [] {
      NothingBack(b[1..], k, r);
      assert b == [b[0]] + b[1..];
    }
  }

  /** Keys before the leaf are smaller and keys after it larger, so every
      operation on the whole is the operation on the leaf. */
  lemma OneLeaf(a: seq<Entry>, m: seq<Entry>, b: seq<Entry>, k: int, r: Rid)
    requires Below(a, k) && AtLeast(b, k + 1)
    ensures Lookup(a + m + b, k) == Lookup(m, k)
    ensures Upsert(a + m + b, k, r) == a + Upsert(m, k, r) + b
    ensures Without(a + m + b, k) == a + Without(m, k) + b
    ensures From(a + m + b, k) == From(m, k) + b
  {
    AppendAssociates(a, m, b);
    SkipFront(a, m + b, k, r);
    SkipBack(m, b, k, r);
    AppendAssociates(a, Upsert(m, k, r), b);
    AppendAssociates(a, Without(m, k), b);
  }

  // ------------------------------------------------------------------
  // Positions
  // ------------------------------------------------------------------

  lemma {:induction false} LookupAt(es: seq<Entry>, k: int, i: nat)
    requires AscendingEntries(es) && i < |es| && es[i].key == k
    ensures Lookup(es, k) == Some(es[i].rid)
    ensures forall r :: Upsert(es, k, r) == es[i := Entry(k, r)]
    ensures Without(es, k) == es[..i] + es[i + 1..]
  {
    if i > 0 {
      assert forall j :: 0 <= j < |es[1..]| ==> es[1..][j] == es[j + 1];
      LookupAt(es[1..], k, i - 1);
      forall r ensures Upsert(es, k, r) == es[i := Entry(k, r)] {
        assert Upsert(es, k, r) == [es[0]] + es[1..][i - 1 := Entry(k, r)];
      }
      assert es[..i] == [es[0]] + es[1..][..i - 1];
    }
  }

  lemma {:induction false} NotFound(es: seq<Entry>, k: int)
    requires forall i :: 0 <= i < |es| ==> es[i].key != k
    ensures Lookup(es, k) == None && Without(es, k) == es
  {
    if es != [] {
      NotFound(es[1..], k);
    }
  }

  lemma {:induction false} UpsertAt(es: seq<Entry>, k: int, r: Rid, i: nat)
    requires i <= |es| && Below(es[..i], k) && AtLeast(es[i..], k + 1)
    ensures Lookup(es, k) == None
    ensures Upsert(es, k, r) == es[..i] + [Entry(k, r)] + es[i..]
    ensures Without(es, k) == es
  {
    assert es == es[..i] + [] + es[i..];
    OneLeaf(es[..i], [], es[i..], k, r);
  }

  lemma {:induction false} UpsertFacts(es: seq<Entry>, k: int, r: Rid, lo: int, hi: int)
    requires AscendingEntries(es) && lo <= k < hi
    requires forall i :: 0 <= i < |es| ==> lo <= es[i].key < hi
    ensures AscendingEntries(Upsert(es, k, r))
    ensures forall i :: 0 <= i < |Upsert(es, k, r)| ==> lo <= Upsert(es, k, r)[i].key < hi
    ensures |es| <= |Upsert(es, k, r)| <= |es| + 1
  {
    if es != [] && es[0].key < k {
      UpsertFacts(es[1..], k, r, es[0].key + 1, hi);
    }
  }

  lemma {:induction false} WithoutFacts(es: seq<Entry>, k: int, lo: int, hi: int)
    requires AscendingEntries(es)
    requires forall i :: 0 <= i < |es| ==> lo <= es[i].key < hi
    ensures AscendingEntries(Without(es, k))
    ensures forall i :: 0 <= i < |Without(es, k)| ==> lo <= Without(es, k)[i].key < hi
    ensures |Without(es, k)| <= |es|
  {
    if es != [] && es[0].key != k {
      WithoutFacts(es[1..], k, es[0].key + 1, hi);
    }
  }

  // ------------------------------------------------------------------
  // Bounds of a subtree and of a path
  // ------------------------------------------------------------------

  lemma {:induction false} OrderedBounds(t: Tree, lo: int, hi: int)
    requires Ordered(t, lo, hi)
    ensures AscendingEntries(Entries(t)) && AtLeast(Entries(t), lo) && Below(Entries(t), hi)
    decreases t, 1
  {
    if t.TNode? {
      OrderedKids(t.keys, t.kids, lo, hi, 0);
    }
  }

  lemma {:induction false} OrderedKids(keys: seq<int>, kids: seq<Tree>, lo: int, hi: int, i: nat)
    requires KeysWithin(keys, lo, hi) && |kids| == |keys| + 1 && i <= |keys|
    requires forall j :: 0 <= j < |kids| ==> Ordered(kids[j], Lower(lo, keys, j), Upper(keys, hi, j))
    ensures var es := AllEntries(kids[i..]);
      AscendingEntries(es) && AtLeast(es, Lower(lo, keys, i)) && Below(es, hi)
    decreases kids, 0, |keys| - i
  {
    var first, rest := Entries(kids[i]), AllEntries(kids[i + 1..]);
    assert kids[i..][0] == kids[i] && kids[i..][1..] == kids[i + 1..];
    OrderedBounds(kids[i], Lower(lo, keys, i), Upper(keys, hi, i));
    if i < |keys| {
      OrderedKids(keys, kids, lo, hi, i + 1);
    }
  }

  lemma {:induction false} TreesBelow(ts: seq<Tree>, k: int)
    requires forall i :: 0 <= i < |ts| ==> Below(Entries(ts[i]), k)
    ensures Below(AllEntries(ts), k)
  {
    if ts != [] {
      TreesBelow(ts[1..], k);
    }
  }

  lemma {:induction false} TreesAtLeast(ts: seq<Tree>, k: int)
    requires forall i :: 0 <= i < |ts| ==> AtLeast(Entries(ts[i]), k)
    ensures AtLeast(AllEntries(ts), k)
  {
    if ts != [] {
      TreesAtLeast(ts[1..], k);
    }
  }

  lemma {:induction false} PathBounds(p: Path, lo: int, hi: int)
    requires PathOrdered(p, lo, hi)
    ensures Below(EntriesBefore(p), lo) && AtLeast(EntriesAfter(p), hi)
    decreases p
  {
    if p.Step? {
      PathBounds(p.up, p.low, p.high);
      var j := |p.before|;
      forall i | 0 <= i < j ensures Below(Entries(p.before[i]), lo) {
        OrderedBounds(p.before[i], Lower(p.low, p.keys, i), Upper(p.keys, p.high, i));
      }
      TreesBelow(p.before, lo);
      forall i | 0 <= i < |p.after| ensures AtLeast(Entries(p.after[i]), hi) {
        OrderedBounds(p.after[i], Lower(p.low, p.keys, j + 1 + i), Upper(p.keys, p.high, j + 1 + i));
      }
      TreesAtLeast(p.after, hi);
    }
  }
}
