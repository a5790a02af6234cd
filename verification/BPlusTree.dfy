/** The B+Tree over its page heap.  The page store never runs out here and
    every fetch succeeds; the buffer pool is modelled on its own.
 */
module BPlusTrees {
  import opened Wrappers
  import opened ByteStrings
  import opened KeySlots
  import opened TreeModel
  import opened TreeEntries
  import opened TreeSplits
  import opened TreeScans
  import opened TreeDensity

  const MAX_DESCENT := 64

  // ------------------------------------------------------------------
  // The descent
  // ------------------------------------------------------------------

  /** The position of the first key greater than `k`. */
  function FirstGreater(keys: seq<int>, k: int): (i: nat)
    ensures i <= |keys|
    ensures forall j :: 0 <= j < i ==> keys[j] <= k
    ensures i < |keys| ==> k < keys[i]
  {
    if keys == [] || k < keys[0] then 0 else 1 + FirstGreater(keys[1..], k)
  }

  method ScanKeys(keys: seq<int>, k: int) returns (i: nat)
    ensures i == FirstGreater(keys, k)
  {
    i := 0;
    while i < |keys| && keys[i] <= k
      invariant i <= |keys|
      invariant FirstGreater(keys, k) == i + FirstGreater(keys[i..], k)
    {
      assert keys[i..][1..] == keys[i + 1..];
      i := i + 1;
    }
  }

  /** The leaf reached from page `cur`, or no page: after too many hops, at a
      missing page, or at a node that is its own child. */
  function Walk(heap: Heap, cur: int, k: int, hops: nat): int
    decreases hops
  {
    if hops == 0 || cur == NO_PAGE || cur !in heap then NO_PAGE
    else match heap[cur]
      case LeafPage(_, _, _) => cur
      case NodePage(_, keys, children) =>
        var i := FirstGreater(keys, k);
        if i >= |children| || children[i] == cur then NO_PAGE else Walk(heap, children[i], k, hops - 1)
  }

  /** The leaf of the tree itself that the separators lead to. */
  function LeafFor(t: Tree, k: int): Tree
    decreases t
  {
    if t.TLeaf? then t else
    var i := FirstGreater(t.keys, k);
    if i < |t.kids| then LeafFor(t.kids[i], k) else t
  }

  /** On the pages of a well-formed tree no early exit is taken. */
  lemma {:induction false} WalkFinds(heap: Heap, next: int, t: Tree, parent: int, h: nat, k: int, hops: nat)
    requires Rep(heap, t, parent) && Shape(t, h) && Unique(Pages(t)) && InRange(heap, next) && h < hops
    ensures Walk(heap, t.id, k, hops) == LeafFor(t, k).id && LeafFor(t, k).id != NO_PAGE
    decreases t
  {
    if t.TNode? {
      var i := FirstGreater(t.keys, k);
      var kid := t.kids[i];
      assert Ids(t.kids)[i] == kid.id;
      DisjointPages(multiset{t.id}, AllPages(t.kids));
      KidUnique(t.kids, i);
      KidRootIn(t.kids, i);
      assert t.id in multiset{t.id};
      WalkFinds(heap, next, kid, t.id, h - 1, k, hops - 1);
    }
  }

  /** That leaf, with the path to it and the bounds that contain the key. */
  lemma {:induction false} Locate(heap: Heap, p: Path, t: Tree, h: nat, lo: int, hi: int, k: int)
    returns (p': Path, lo': int, hi': int)
    requires Located(heap, p, t, h, lo, hi) && lo <= k < hi
    ensures LeafFor(t, k).TLeaf? && Located(heap, p', LeafFor(t, k), 0, lo', hi') && lo' <= k < hi'
    ensures Plug(p', LeafFor(t, k)) == Plug(p, t) && Length(p') == Length(p) + h
    decreases t
  {
    if t.TLeaf? {
      p', lo', hi' := p, lo, hi;
    } else {
      var i := FirstGreater(t.keys, k);
      assert i < |t.kids| by { assert Shape(t, h); }
      Descend(heap, p, t, h, lo, hi, i);
      var q := Step(p, t.id, t.keys, t.kids[..i], t.kids[i + 1..], lo, hi);
      p', lo', hi' := Locate(heap, q, t.kids[i], h - 1, Lower(lo, t.keys, i), Upper(t.keys, hi, i), k);
    }
  }

  function Pow2(n: nat): nat {
    if n == 0 then 1 else 2 * Pow2(n - 1)
  }

  lemma {:induction false} ManyPages(t: Tree, h: nat)
    requires Shape(t, h)
    ensures |Pages(t)| >= Pow2(h)
    decreases t
  {
    if t.TNode? {
      ManyPages(t.kids[0], h - 1);
      ManyPages(t.kids[1], h - 1);
      assert AllPages(t.kids) == Pages(t.kids[0]) + (Pages(t.kids[1]) + AllPages(t.kids[1..][1..]));
    }
  }

  function Range(n: nat): (r: set<int>)
    ensures |r| == n && forall x :: x in r <==> 0 <= x < n
  {
    if n == 0 then {} else Range(n - 1) + {n - 1}
  }

  lemma FewIds(m: multiset<int>, n: nat)
    requires Unique(m) && forall x :: x in m ==> 0 <= x < n
    ensures |m| <= n
  {
    var all := multiset(Range(n));
    forall x ensures m[x] <= all[x] {
      if m[x] > 0 {
        assert x in m;
        assert x in Range(n);
      }
    }
    assert m <= all;
    assert |all| == |m| + |all - m| by { assert all == m + (all - m); }
    assert |all| == |Range(n)|;
  }

  lemma {:induction false} Pow2Bound(h: nat)
    requires Pow2(h) <= PAGE_LIMIT
    ensures h < 32
    decreases h
  {
    if h >= 32 {
      Pow2Grows(32, h);
      Pow2Of32();
    }
  }

  lemma {:induction false} Pow2Grows(a: nat, b: nat)
    requires a <= b
    ensures Pow2(a) <= Pow2(b)
    decreases b - a
  {
    if a < b { Pow2Grows(a + 1, b); }
  }

  lemma Pow2Of32()
    ensures Pow2(32) == 0x1_0000_0000
  {
    assert Pow2(4) == 16;
    assert Pow2(8) == 256;
    assert Pow2(12) == 4096;
    assert Pow2(16) == 65536;
    assert Pow2(20) == 1048576;
    assert Pow2(24) == 16777216;
    assert Pow2(28) == 268435456;
  }

  /** Every internal node has two children, so a tree whose page ids are 32-bit
      integers is far shallower than the descent bound. */
  lemma HeightBound(heap: Heap, root: int, next: int, t: Tree, h: nat)
    requires Holds(heap, root, next, t, h)
    ensures h < 32
  {
    ManyPages(t, h);
    RepInHeap(heap, t, NO_PAGE);
    FewIds(Pages(t), next);
    Pow2Bound(h);
  }

  // ------------------------------------------------------------------
  // Entries within a page
  // ------------------------------------------------------------------

  /** Moves the tail up one slot, from the end, and writes the gap. */
  method ShiftIn<T>(s: seq<T>, idx: nat, x: T) returns (r: seq<T>)
    requires idx <= |s|
    ensures r == s[..idx] + [x] + s[idx..]
  {
    r := s + [x];
    var i := |s|;
    while i > idx
      invariant idx <= i <= |s| && |r| == |s| + 1
      invariant forall j :: 0 <= j < i ==> r[j] == s[j]
      invariant forall j :: i < j <= |s| ==> r[j] == s[j - 1]
    {
      r := r[i := r[i - 1]];
      i := i - 1;
    }
    r := r[idx := x];
  }

  /** Moves the tail down one slot over the gap, and drops the last. */
  method ShiftOut<T>(s: seq<T>, idx: nat) returns (r: seq<T>)
    requires idx < |s|
    ensures r == s[..idx] + s[idx + 1..]
  {
    r := s;
    var i := idx;
    while i < |s| - 1
      invariant idx <= i < |s| && |r| == |s|
      invariant forall j :: 0 <= j < idx ==> r[j] == s[j]
      invariant forall j :: idx <= j < i ==> r[j] == s[j + 1]
      invariant forall j :: i <= j < |s| ==> r[j] == s[j]
    {
      r := r[i := r[i + 1]];
      i := i + 1;
    }
    r := r[..|s| - 1];
  }

  /** `exact` says whether the key sought can equal a stored one at all. */
  method FindKey(es: seq<Entry>, k: int, exact: bool) returns (found: bool, idx: nat)
    ensures found ==> exact && idx < |es| && es[idx].key == k
    ensures !found ==> !exact || forall i :: 0 <= i < |es| ==> es[i].key != k
  {
    for i := 0 to |es|
      invariant exact ==> forall j :: 0 <= j < i ==> es[j].key != k
    {
      if exact && es[i].key == k { return true, i; }
    }
    return false, 0;
  }

  method FindPlace(es: seq<Entry>, k: int, exact: bool) returns (found: bool, idx: nat)
    requires AscendingEntries(es) && (exact || forall i :: 0 <= i < |es| ==> es[i].key != k)
    ensures idx <= |es|
    ensures found ==> idx < |es| && es[idx].key == k
    ensures !found ==> Below(es[..idx], k) && AtLeast(es[idx..], k + 1)
  {
    idx := 0;
    while idx < |es|
      invariant idx <= |es|
      invariant Below(es[..idx], k)
    {
      if exact && es[idx].key == k { return true, idx; }
      if k < es[idx].key { return false, idx; }
      idx := idx + 1;
    }
    found := false;
  }

  // ------------------------------------------------------------------
  // The tree
  // ------------------------------------------------------------------

  class BPlusTree {
    var heap: Heap
    var root: int
    var next: int
    ghost var tree: Tree
    ghost var height: nat

    ghost predicate Valid()
      reads this
    {
      Holds(heap, root, next, tree, height)
    }

    /** Every entry in key order. */
    ghost function Contents(): seq<Entry>
      reads this
    {
      Entries(tree)
    }

    constructor ()
      ensures Valid() && Contents() == [] && DenseBelow(tree)
    {
      root, next := 0, 1;
      heap := map[0 := LeafPage(NO_PAGE, NO_PAGE, [])];
      tree, height := TLeaf(0, []), 0;
    }

    method FindLeaf(k: int) returns (leaf: int)
      ensures leaf == Walk(heap, root, k, MAX_DESCENT)
    {
      var cur := root;
      var hop := 0;
      while hop < MAX_DESCENT
        invariant 0 <= hop <= MAX_DESCENT
        invariant Walk(heap, root, k, MAX_DESCENT) == Walk(heap, cur, k, MAX_DESCENT - hop)
      {
        if cur == NO_PAGE || cur !in heap { return NO_PAGE; }
        var page := heap[cur];
        if page.LeafPage? { return cur; }
        var i := ScanKeys(page.keys, k);
        if i >= |page.children| { return NO_PAGE; }
        var child := page.children[i];
        if child == cur { return NO_PAGE; }
        cur := child;
        hop := hop + 1;
      }
      return NO_PAGE;
    }

    /** The leaf for `k` and the path to it. */
    method LeafAt(k: int) returns (leaf: int, ghost p: Path, ghost t: Tree, ghost lo: int, ghost hi: int)
      requires Valid() && 0 <= k < KEY_LIMIT
      ensures leaf == t.id && leaf != NO_PAGE && t.TLeaf?
      ensures Located(heap, p, t, 0, lo, hi) && lo <= k < hi
      ensures Plug(p, t) == tree && Length(p) == height && height < 32
    {
      leaf := FindLeaf(k);
      HeightBound(heap, root, next, tree, height);
      WalkFinds(heap, next, tree, NO_PAGE, height, k, MAX_DESCENT);
      LocatedRoot(heap, root, next, tree, height);
      t := LeafFor(tree, k);
      p, lo, hi := Locate(heap, Top, tree, height, 0, KEY_LIMIT, k);
    }

    /** A key with a zero byte equals no stored key. */
    method Search(key: bytes) returns (rid: Option<Rid>)
      requires Valid()
      ensures rid == if NulFree(key) then Lookup(Contents(), Place(key)) else None
    {
      var k := Place(key);
      var leaf, p, t, lo, hi := LeafAt(k);
      var es := heap[leaf].entries;
      LeafDecides(p, t, lo, hi, k, Rid(0, 0));
      var found, i := FindKey(es, k, NulFree(key));
      if !found {
        if NulFree(key) { NotFound(es, k); }
        return None;
      }
      LookupAt(es, k, i);
      return Some(es[i].rid);
    }

    /** The first entries from `start` on, in key order; a zero limit means all. */
    method Scan(start: bytes, limit: nat) returns (results: seq<Entry>)
      requires Valid()
      ensures results == UpTo(From(Contents(), First(start)), limit)
    {
      var leaf, p, t, lo, hi := LeafAt(Place(start));
      var k := First(start);
      ScanStart(heap, p, t, lo, hi, k);
      ChainTail(heap, LeavesBefore(p), [t.id] + LeavesAfter(p));
      results := ScanChain(heap, leaf, k, limit, [t.id] + LeavesAfter(p));
    }

    method Remove(key: bytes) returns (removed: bool)
      requires Valid()
      modifies this
      ensures Valid()
      ensures removed == (NulFree(key) && Lookup(old(Contents()), Place(key)).Some?)
      ensures Contents() == if NulFree(key) then Without(old(Contents()), Place(key)) else old(Contents())
    {
      var k := Place(key);
      var leaf, p, t, lo, hi := LeafAt(k);
      var es := heap[leaf].entries;
      LeafDecides(p, t, lo, hi, k, Rid(0, 0));
      var found, i := FindKey(es, k, NulFree(key));
      if !found {
        if NulFree(key) {
          NotFound(es, k);
          PlugEntries(p, t);
        }
        return false;
      }
      LookupAt(es, k, i);
      WithoutFacts(es, k, lo, hi);
      var rest := ShiftOut(es, i);
      ReplaceEntries(leaf, rest, p, t, lo, hi);
      return true;
    }

    /** Rewrites one leaf's entries in place. */
    method ReplaceEntries(leaf: int, es: seq<Entry>, ghost p: Path, ghost t: Tree, ghost lo: int, ghost hi: int)
      requires Valid() && leaf == t.id && t.TLeaf? && Located(heap, p, t, 0, lo, hi)
      requires Plug(p, t) == tree && Length(p) == height && |es| <= MAX_KEYS && Ordered(TLeaf(leaf, es), lo, hi)
      modifies this`heap, this`tree
      ensures Valid() && Contents() == PathEntries(p, es) && tree == Plug(p, TLeaf(leaf, es))
    {
      LeafReplaced(heap, heap[leaf := heap[leaf].(entries := es)], root, next, p, t, lo, hi, es);
      heap := heap[leaf := heap[leaf].(entries := es)];
      tree := Plug(p, TLeaf(leaf, es));
    }

    /** The slot holds the key up to its first zero byte, which must not be there
        already when the key has one. */
    method Insert(key: bytes, rid: Rid) returns (ok: bool)
      requires Valid() && next + MAX_DESCENT <= PAGE_LIMIT
      requires NulFree(key) || Lookup(Contents(), Place(key)).None?
      modifies this
      ensures Valid()
      ensures ok == (0 < |key| < SLOT)
      ensures Contents() == if ok then Upsert(old(Contents()), Place(key), rid) else old(Contents())
      ensures DenseBelow(old(tree)) ==> DenseBelow(tree)
    {
      if key == [] || |key| >= SLOT { return false; }
      var k := Place(key);
      var leaf, p, t, lo, hi := LeafAt(k);
      LeafDecides(p, t, lo, hi, k, rid);
      LookupNone(t.entries, k);
      InsertIntoLeaf(leaf, k, rid, NulFree(key), p, t, lo, hi);
      return true;
    }

    method InsertIntoLeaf(leaf: int, k: int, rid: Rid, exact: bool, ghost p: Path, ghost t: Tree, ghost lo: int,
                          ghost hi: int)
      requires Valid() && leaf == t.id && t.TLeaf? && Located(heap, p, t, 0, lo, hi) && lo <= k < hi
      requires exact || forall i :: 0 <= i < |t.entries| ==> t.entries[i].key != k
      requires Plug(p, t) == tree && Length(p) == height && next + height + 2 <= PAGE_LIMIT
      modifies this
      ensures Valid()
      ensures Contents() == PathEntries(p, Upsert(t.entries, k, rid))
      ensures DenseBelow(old(tree)) ==> DenseBelow(tree)
    {
      var es := heap[leaf].entries;
      PlugDense(p, t);
      UpsertGrows(es, k, rid);
      PlugDense(p, TLeaf(leaf, Upsert(es, k, rid)));
      UpsertFacts(es, k, rid, lo, hi);
      var found, idx := FindPlace(es, k, exact);
      if found {
        LookupAt(es, k, idx);
        ReplaceEntries(leaf, es[idx := Entry(k, rid)], p, t, lo, hi);
        return;
      }
      UpsertAt(es, k, rid, idx);
      var all := ShiftIn(es, idx, Entry(k, rid));
      if |es| < MAX_KEYS {
        ReplaceEntries(leaf, all, p, t, lo, hi);
      } else {
        SplitLeaf(leaf, all, p, t, lo, hi);
      }
    }

    /** Spreads an overfull leaf's entries over itself and a new right sibling. */
    method SplitLeaf(leaf: int, all: seq<Entry>, ghost p: Path, ghost t: Tree, ghost lo: int, ghost hi: int)
      requires Valid() && leaf == t.id && t.TLeaf? && Located(heap, p, t, 0, lo, hi)
      requires Plug(p, t) == tree && Length(p) == height && next + height + 2 <= PAGE_LIMIT
      requires |all| == MAX_KEYS + 1 && Ordered(TLeaf(leaf, all), lo, hi)
      modifies this
      ensures Valid() && Contents() == PathEntries(p, all) && (DensePath(p) ==> DenseBelow(tree))
    {
      var page := heap[leaf];
      var mid := |all| / 2;
      LeafSplit(heap, root, next, p, t, lo, hi, all, mid);
      var right := next;
      next := next + 1;
      heap := heap[right := LeafPage(page.parent, page.next, all[mid..])];
      heap := heap[leaf := LeafPage(page.parent, right, all[..mid])];
      InsertIntoParent(leaf, all[mid].key, right, p, TLeaf(leaf, all[..mid]), TLeaf(right, all[mid..]), 0, lo, hi);
    }

    /** Links the new right sibling, splitting upward as far as needed. */
    method InsertIntoParent(left: int, sep: int, right: int,
                            ghost p: Path, ghost l: Tree, ghost r: Tree, ghost h: nat, ghost lo: int, ghost hi: int)
      requires Pending(heap, root, next, p, l, r, h, lo, sep, hi) && left == l.id && right == r.id
      requires next + Length(p) + 1 <= PAGE_LIMIT
      modifies this
      ensures Valid()
      ensures Contents() == PathEntries(p, Entries(l) + Entries(r))
      ensures DensePath(p) && Dense(l) && Dense(r) ==> DenseBelow(tree)
      decreases p
    {
      var parent := heap[left].parent;
      if parent == NO_PAGE {
        NewRoot(left, sep, right, p, l, r, h, lo, hi);
        if Dense(l) && Dense(r) { PairDense(l, r); }
        return;
      }
      ParentKnown(heap, root, next, p, l, r, h, lo, sep, hi);
      if |heap[parent].keys| < MAX_KEYS {
        LinkIntoParent(parent, sep, right, p, l, r, h, lo, hi);
        if DensePath(p) && Dense(l) && Dense(r) {
          JoinedDense(p, l, r, sep);
          PlugDense(p.up, Joined(p, l, r, sep));
        }
        return;
      }
      ghost var t, mid, id := Joined(p, l, r, sep), (MAX_KEYS + 1) / 2, next;
      var promoted, newRight := SplitParent(parent, sep, right, p, l, r, h, lo, hi);
      JoinedLeaves(p, l, r, sep);
      if DensePath(p) && Dense(l) && Dense(r) {
        JoinedDense(p, l, r, sep);
        HalvesDense(t, mid, id);
      }
      InsertIntoParent(parent, promoted, newRight, p.up, LeftHalf(t, mid), RightHalf(t, mid, id), h + 1, p.low, p.high);
    }

    method NewRoot(left: int, sep: int, right: int,
                   ghost p: Path, ghost l: Tree, ghost r: Tree, ghost h: nat, ghost lo: int, ghost hi: int)
      requires Pending(heap, root, next, p, l, r, h, lo, sep, hi) && left == l.id && right == r.id
      requires ParentOf(p) == NO_PAGE && next < PAGE_LIMIT
      modifies this
      ensures Valid() && tree.TNode? && tree.kids == [l, r]
      ensures Contents() == PathEntries(p, Entries(l) + Entries(r))
    {
      assert p.Top?;
      RootGrown(heap, next, l, r, h, sep);
      var id := next;
      next := next + 1;
      heap := heap[id := NodePage(NO_PAGE, [sep], [left, right])];
      heap := heap[left := heap[left].(parent := id)];
      heap := heap[right := heap[right].(parent := id)];
      root := id;
      tree, height := TNode(id, [sep], [l, r]), h + 1;
    }

    method LinkIntoParent(parent: int, sep: int, right: int,
                          ghost p: Path, ghost l: Tree, ghost r: Tree, ghost h: nat, ghost lo: int, ghost hi: int)
      requires Pending(heap, root, next, p, l, r, h, lo, sep, hi) && right == r.id
      requires p.Step? && parent == p.id && |p.keys| < MAX_KEYS
      modifies this
      ensures Valid() && |p.before| <= |p.keys| && tree == Plug(p.up, Joined(p, l, r, sep))
      ensures Contents() == PathEntries(p, Entries(l) + Entries(r))
    {
      ParentKnown(heap, root, next, p, l, r, h, lo, sep, hi);
      RoomFilled(heap, root, next, p, l, r, h, lo, sep, hi);
      heap := WriteSlots(heap, parent, sep, right, |p.before|);
      tree, height := Plug(p.up, Joined(p, l, r, sep)), h + Length(p);
      assert Linked(heap, root, next, tree, height, p, l, r);
    }

    method SplitParent(parent: int, sep: int, right: int,
                       ghost p: Path, ghost l: Tree, ghost r: Tree, ghost h: nat, ghost lo: int, ghost hi: int)
      returns (promoted: int, newRight: int)
      requires Pending(heap, root, next, p, l, r, h, lo, sep, hi) && right == r.id
      requires p.Step? && parent == p.id && |p.keys| == MAX_KEYS && |p.before| <= |p.keys| && next < PAGE_LIMIT
      modifies this
      ensures next == old(next) + 1 && root == old(root) && newRight == old(next)
      ensures var t := Joined(p, l, r, sep);
        var mid := (MAX_KEYS + 1) / 2;
        && |t.keys| == MAX_KEYS + 1 && |t.kids| == MAX_KEYS + 2 && promoted == t.keys[mid]
        && Pending(heap, root, next, p.up, LeftHalf(t, mid), RightHalf(t, mid, newRight), h + 1,
                   p.low, promoted, p.high)
        && Entries(LeftHalf(t, mid)) + Entries(RightHalf(t, mid, newRight)) == Entries(t)
    {
      ParentKnown(heap, root, next, p, l, r, h, lo, sep, hi);
      ghost var before, t := heap, Joined(p, l, r, sep);
      var page := heap[parent];
      SlotIds(p, l, r, page.children);
      var idx := ScanKeys(page.keys, sep);
      var keys := page.keys[..idx] + [sep] + page.keys[idx..];
      var children := page.children[..idx + 1] + [right] + page.children[idx + 1..];
      var mid := |keys| / 2;
      promoted := keys[mid];
      newRight := next;
      next := next + 1;
      ParentSplitOrder(p, l, r, h, lo, sep, hi, mid, newRight);
      ChildrenKnown(heap, newRight, p, l, r, children);
      heap := SplitNode(heap, parent, page.parent, keys, children, mid, newRight, t);
      ParentSplit(before, heap, root, newRight, p, l, r, h, lo, sep, hi, mid);
    }
  }

  function SlotsWritten(heap: Heap, id: int, at: nat, sep: int, right: int): Heap
    requires id in heap && heap[id].NodePage? && at <= |heap[id].keys| && at < |heap[id].children|
  {
    var page := heap[id];
    heap[id := NodePage(page.parent, page.keys[..at] + [sep] + page.keys[at..],
                        page.children[..at + 1] + [right] + page.children[at + 1..])]
  }

  /** Shifts the separator and the new child into a node with room. */
  method WriteSlots(heap: Heap, id: int, sep: int, right: int, ghost at: nat) returns (heap': Heap)
    requires id in heap && heap[id].NodePage? && FirstGreater(heap[id].keys, sep) == at
    requires at < |heap[id].children| && right in heap && right != id && heap[right].parent == id
    ensures heap' == SlotsWritten(heap, id, at, sep, right)
  {
    var page := heap[id];
    var idx := ScanKeys(page.keys, sep);
    var keys := ShiftIn(page.keys, idx, sep);
    var children := ShiftIn(page.children, idx + 1, right);
    heap' := heap[id := NodePage(page.parent, keys, children)];
    heap' := heap'[right := heap'[right].(parent := id)];
  }

  lemma RoomFilled(heap: Heap, root: int, next: int, p: Path, l: Tree, r: Tree, h: nat, lo: int, sep: int, hi: int)
    requires p.Step? && Pending(heap, root, next, p, l, r, h, lo, sep, hi) && |p.keys| < MAX_KEYS
    requires p.id in heap && |p.before| + |p.after| == |p.keys|
    requires heap[p.id] == NodePage(ParentOf(p.up), p.keys, Ids(p.before) + [l.id] + Ids(p.after))
    ensures Linked(SlotsWritten(heap, p.id, |p.before|, sep, r.id), root, next, Plug(p.up, Joined(p, l, r, sep)),
                   h + Length(p), p, l, r)
  {
    SlotIds(p, l, r, heap[p.id].children);
    RoomInParent(heap, root, next, p, l, r, h, lo, sep, hi);
    assert SlotsWritten(heap, p.id, |p.before|, sep, r.id) == heap[p.id := JoinedPage(p, l.id, r.id, sep)];
  }

  /** Writes both halves of an overfull node, the right one on a new page. */
  method SplitNode(heap: Heap, id: int, parent: int, keys: seq<int>, children: seq<int>, mid: nat, newRight: int,
                   ghost t: Tree)
    returns (heap': Heap)
    requires t.TNode? && t.id == id && t.keys == keys && Ids(t.kids) == children && mid < |keys| && mid < |children|
    requires id in heap && newRight !in heap
    requires forall i :: 0 <= i < |children| ==> children[i] in heap && children[i] != id
    ensures SplitPages(heap, heap', t, mid, newRight, parent)
  {
    var heap1 := heap[newRight := NodePage(parent, keys[mid + 1..], children[mid + 1..])];
    var heap2 := MoveChildren(heap1, children[mid + 1..], newRight);
    heap' := heap2[id := NodePage(parent, keys[..mid], children[..mid + 1])];
    assert Ids(t.kids[mid + 1..]) == children[mid + 1..];
    assert Ids(t.kids[..mid + 1]) == children[..mid + 1];
    assert newRight !in children[mid + 1..] && id !in children[mid + 1..];
    assert newRight in heap1;
  }

  /** Gives each listed page a new parent, one at a time. */
  method MoveChildren(heap: Heap, ids: seq<int>, parent: int) returns (heap': Heap)
    requires forall i :: 0 <= i < |ids| ==> ids[i] in heap
    ensures heap'.Keys == heap.Keys
    ensures forall x :: x in heap ==> heap'[x] == if x in ids then heap[x].(parent := parent) else heap[x]
  {
    heap' := heap;
    for i := 0 to |ids|
      invariant heap'.Keys == heap.Keys
      invariant forall x :: x in heap ==> heap'[x] == if x in ids[..i] then heap[x].(parent := parent) else heap[x]
    {
      assert ids[..i + 1] == ids[..i] + [ids[i]];
      heap' := heap'[ids[i] := heap'[ids[i]].(parent := parent)];
    }
    assert ids[..|ids|] == ids;
  }

  lemma ChildrenKnown(heap: Heap, next: int, p: Path, l: Tree, r: Tree, children: seq<int>)
    requires p.Step? && PendingPages(heap, p, l, r) && InRange(heap, next) && children == Ids(KidsWith(p, l, r))
    ensures forall i :: 0 <= i < |children| ==> children[i] in heap && children[i] != p.id
  {
    JoinedKidsRep(heap, p, l, r);
    JoinedContents(p, l, r);
    var kids := KidsWith(p, l, r);
    PathParts(p);
    assert p.id !in AllPages(kids) by {
      assert (PathPages(p) + Pages(l) + Pages(r))[p.id] <= 1;
    }
    forall i | 0 <= i < |children| ensures children[i] in heap && children[i] != p.id {
      KidRootIn(kids, i);
    }
  }

  lemma LeafDecides(p: Path, t: Tree, lo: int, hi: int, k: int, r: Rid)
    requires t.TLeaf? && PathOrdered(p, lo, hi) && lo <= k < hi
    ensures Lookup(Entries(Plug(p, t)), k) == Lookup(t.entries, k)
    ensures Upsert(Entries(Plug(p, t)), k, r) == PathEntries(p, Upsert(t.entries, k, r))
    ensures Without(Entries(Plug(p, t)), k) == PathEntries(p, Without(t.entries, k))
    ensures From(Entries(Plug(p, t)), k) == From(t.entries, k) + EntriesAfter(p)
  {
    PlugEntries(p, t);
    PathEntriesSplit(p, t.entries);
    PathEntriesSplit(p, Upsert(t.entries, k, r));
    PathEntriesSplit(p, Without(t.entries, k));
    PathBounds(p, lo, hi);
    OneLeaf(EntriesBefore(p), t.entries, EntriesAfter(p), k, r);
  }

  /** The first place at or after `start`. */
  function First(start: bytes): nat {
    Place(start) + if NulFree(start) then 0 else 1
  }

  lemma {:induction false} LookupNone(es: seq<Entry>, k: int)
    ensures Lookup(es, k).None? ==> forall i :: 0 <= i < |es| ==> es[i].key != k
  {
    if es != [] { LookupNone(es[1..], k); }
  }

  lemma SeparatorIndex(p: Path, lo: int, sep: int, hi: int)
    requires p.Step? && PathOrdered(p, lo, hi) && lo < sep < hi
    ensures FirstGreater(p.keys, sep) == |p.before|
  {
    var j := |p.before|;
    assert j > 0 ==> p.keys[j - 1] == lo;
    assert j < |p.keys| ==> p.keys[j] == hi;
    assert forall i :: 0 <= i < j ==> p.keys[i] <= p.keys[j - 1];
  }

  lemma SlotIds(p: Path, l: Tree, r: Tree, ids: seq<int>)
    requires p.Step? && ids == Ids(p.before) + [l.id] + Ids(p.after)
    ensures ids[..|p.before| + 1] + [r.id] + ids[|p.before| + 1..] == Ids(p.before) + [l.id, r.id] + Ids(p.after)
    ensures Ids(KidsWith(p, l, r)) == Ids(p.before) + [l.id, r.id] + Ids(p.after)
  {
    assert ids[..|p.before| + 1] == Ids(p.before) + [l.id];
    assert ids[|p.before| + 1..] == Ids(p.after);
  }

  /** The parent's page lists the left half where the separator goes. */
  lemma ParentKnown(heap: Heap, root: int, next: int, p: Path, l: Tree, r: Tree, h: nat, lo: int, sep: int, hi: int)
    requires Pending(heap, root, next, p, l, r, h, lo, sep, hi) && ParentOf(p) != NO_PAGE
    ensures p.Step? && p.id in heap && |p.before| + |p.after| == |p.keys|
    ensures heap[p.id] == NodePage(ParentOf(p.up), p.keys, Ids(p.before) + [l.id] + Ids(p.after))
    ensures FirstGreater(p.keys, sep) == |p.before|
    ensures r.id in heap && heap[r.id].parent == p.id && r.id != p.id
  {
    SeparatorIndex(p, lo, sep, hi);
    PathParts(p);
    RootPage(r);
    assert (PathPages(p) + Pages(l) + Pages(r))[p.id] <= 1;
  }

  // ------------------------------------------------------------------
  // A key stored twice
  // ------------------------------------------------------------------

  /** A descent does not look at the entries of leaves. */
  lemma {:induction false} WalkSame(heap: Heap, leaf: int, es: seq<Entry>, cur: int, k: int, hops: nat)
    requires leaf in heap && heap[leaf].LeafPage?
    ensures Walk(heap[leaf := heap[leaf].(entries := es)], cur, k, hops) == Walk(heap, cur, k, hops)
    decreases hops
  {
    if hops != 0 && cur != NO_PAGE && cur in heap && heap[cur].NodePage? {
      var i := FirstGreater(heap[cur].keys, k);
      if i < |heap[cur].children| { WalkSame(heap, leaf, es, heap[cur].children[i], k, hops - 1); }
    }
  }

  /** On the pages of any tree the leaf a descent reaches is ascending. */
  lemma LeafAscends(heap: Heap, root: int, next: int, t: Tree, h: nat, k: int)
    requires Holds(heap, root, next, t, h) && 0 <= k < KEY_LIMIT
    ensures var leaf := Walk(heap, root, k, MAX_DESCENT);
      leaf in heap && heap[leaf].LeafPage? && AscendingEntries(heap[leaf].entries)
  {
    HeightBound(heap, root, next, t, h);
    WalkFinds(heap, next, t, NO_PAGE, h, k, MAX_DESCENT);
    LocatedRoot(heap, root, next, t, h);
    var p, lo, hi := Locate(heap, Top, t, h, 0, KEY_LIMIT, k);
  }

  function KeysOf(es: seq<Entry>): (keys: seq<int>)
    ensures |keys| == |es| && forall i :: 0 <= i < |es| ==> keys[i] == es[i].key
  {
    seq(|es|, i requires 0 <= i < |es| => es[i].key)
  }

  lemma {:induction false} LookupSome(es: seq<Entry>, k: int) returns (i: nat)
    requires Lookup(es, k).Some?
    ensures i < |es| && es[i].key == k
  {
    if es[0].key == k {
      i := 0;
    } else {
      i := LookupSome(es[1..], k);
      i := i + 1;
    }
  }

  lemma LeafHasPlace(heap: Heap, root: int, next: int, t: Tree, h: nat, k: int)
    requires Holds(heap, root, next, t, h) && 0 <= k < KEY_LIMIT && Lookup(Entries(t), k).Some?
    ensures var leaf := Walk(heap, root, k, MAX_DESCENT);
      leaf in heap && heap[leaf].LeafPage? && Lookup(heap[leaf].entries, k).Some?
  {
    HeightBound(heap, root, next, t, h);
    WalkFinds(heap, next, t, NO_PAGE, h, k, MAX_DESCENT);
    LocatedRoot(heap, root, next, t, h);
    var p, lo, hi := Locate(heap, Top, t, h, 0, KEY_LIMIT, k);
    LeafDecides(p, LeafFor(t, k), lo, hi, k, Rid(0, 0));
  }

  lemma PlaceIndex(es: seq<Entry>, k: int)
    requires AscendingEntries(es) && Lookup(es, k).Some?
    ensures var idx := FirstGreater(KeysOf(es), k); 0 < idx <= |es| && es[idx - 1].key == k
  {
    var i := LookupSome(es, k);
    var idx := FirstGreater(KeysOf(es), k);
    assert idx < |es| ==> k < KeysOf(es)[idx];
    assert i < idx;
    assert KeysOf(es)[idx - 1] <= k;
  }

  /** The leaf the code descends to holds the place, just before the index at which
      the code puts the key. */
  lemma PlaceTaken(heap: Heap, root: int, next: int, t: Tree, h: nat, k: int)
    requires Holds(heap, root, next, t, h) && 0 <= k < KEY_LIMIT && Lookup(Entries(t), k).Some?
    ensures var leaf := Walk(heap, root, k, MAX_DESCENT);
      && leaf in heap && heap[leaf].LeafPage?
      && var es := heap[leaf].entries;
         var idx := FirstGreater(KeysOf(es), k);
         0 < idx <= |es| && es[idx - 1].key == k
  {
    LeafAscends(heap, root, next, t, h, k);
    LeafHasPlace(heap, root, next, t, h, k);
    PlaceIndex(heap[Walk(heap, root, k, MAX_DESCENT)].entries, k);
  }

  /** The leaf's entries with the key put in where the code puts it. */
  function PutIn(es: seq<Entry>, k: int, rid: Rid): seq<Entry> {
    var idx := FirstGreater(KeysOf(es), k);
    es[..idx] + [Entry(k, rid)] + es[idx..]
  }

  lemma TwiceIn(es: seq<Entry>, k: int, rid: Rid)
    requires var idx := FirstGreater(KeysOf(es), k); 0 < idx && es[idx - 1].key == k
    ensures !AscendingEntries(PutIn(es, k, rid))
  {
    var idx := FirstGreater(KeysOf(es), k);
    var es' := PutIn(es, k, rid);
    assert es'[idx - 1].key == k && es'[idx].key == k;
  }

  /** A key with a zero byte whose stored form is in the tree equals no stored key, so
      the code puts it in behind that form: in a leaf with room the place is then
      there twice, and the pages are no tree any more. */
  lemma InsertedTwice(heap: Heap, root: int, next: int, t: Tree, h: nat, key: bytes, rid: Rid)
    requires Holds(heap, root, next, t, h) && !NulFree(key) && Lookup(Entries(t), Place(key)).Some?
    ensures var leaf := Walk(heap, root, Place(key), MAX_DESCENT);
      && leaf in heap && heap[leaf].LeafPage?
      && var heap' := heap[leaf := heap[leaf].(entries := PutIn(heap[leaf].entries, Place(key), rid))];
         forall t', h' :: !Holds(heap', root, next, t', h')
  {
    var k := Place(key);
    PlaceTaken(heap, root, next, t, h, k);
    var leaf := Walk(heap, root, k, MAX_DESCENT);
    var es' := PutIn(heap[leaf].entries, k, rid);
    TwiceIn(heap[leaf].entries, k, rid);
    var heap' := heap[leaf := heap[leaf].(entries := es')];
    WalkSame(heap, leaf, es', root, k, MAX_DESCENT);
    forall t', h' ensures !Holds(heap', root, next, t', h') {
      if Holds(heap', root, next, t', h') { LeafAscends(heap', root, next, t', h', k); }
    }
  }

  /** The two halves of a split leaf, the left one chained to the right one. */
  predicate SplitBetween(heap: Heap, leaf: int, right: int, es: seq<Entry>) {
    && leaf in heap && heap[leaf].LeafPage? && heap[leaf].next == right && right != NO_PAGE
    && right in heap && heap[right].LeafPage?
    && heap[leaf].entries == es[..|es| / 2] && heap[right].entries == es[|es| / 2..]
  }

  /** A full leaf is split with the key put in: however the halves are then linked
      upward, no tree has the left half among its leaves. */
  lemma SplitTwice(heap: Heap, root: int, next: int, t: Tree, h: nat, key: bytes, rid: Rid, heap': Heap, root': int,
                   next': int, t': Tree, h': nat, right: int)
    requires Holds(heap, root, next, t, h) && !NulFree(key) && Lookup(Entries(t), Place(key)).Some?
    requires var leaf := Walk(heap, root, Place(key), MAX_DESCENT);
      && leaf in heap && heap[leaf].LeafPage? && leaf in Leaves(t')
      && SplitBetween(heap', leaf, right, PutIn(heap[leaf].entries, Place(key), rid))
    ensures !Holds(heap', root', next', t', h')
  {
    var k := Place(key);
    PlaceTaken(heap, root, next, t, h, k);
    var leaf := Walk(heap, root, k, MAX_DESCENT);
    TwiceIn(heap[leaf].entries, k, rid);
    if Holds(heap', root', next', t', h') {
      HalvesAscend(heap', root', next', t', h', leaf, right, PutIn(heap[leaf].entries, k, rid));
    }
  }

  lemma HalvesAscend(heap: Heap, root: int, next: int, t: Tree, h: nat, leaf: int, right: int, es: seq<Entry>)
    requires Holds(heap, root, next, t, h) && leaf in Leaves(t) && SplitBetween(heap, leaf, right, es)
    ensures AscendingEntries(es)
  {
    var ids := Leaves(t);
    var i :| 0 <= i < |ids| && ids[i] == leaf;
    assert LinkAt(heap, ids, NO_PAGE, i);
    var a, b := ids[..i], ids[i + 2..];
    assert ids == a + ([leaf] + ([right] + b));
    RepEntries(heap, t, NO_PAGE);
    OrderedBounds(t, 0, KEY_LIMIT);
    NeighbourEntries(heap, a, leaf, right, b);
    MiddleAscends(LeafEntries(heap, a), heap[leaf].entries, heap[right].entries, LeafEntries(heap, b));
    Halves(es);
  }

  lemma Halves(es: seq<Entry>)
    ensures es == es[..|es| / 2] + es[|es| / 2..]
  {
  }

  lemma NeighbourEntries(heap: Heap, a: seq<int>, leaf: int, right: int, b: seq<int>)
    requires leaf in heap && heap[leaf].LeafPage? && right in heap && heap[right].LeafPage?
    ensures LeafEntries(heap, a + ([leaf] + ([right] + b))) ==
      LeafEntries(heap, a) + (heap[leaf].entries + (heap[right].entries + LeafEntries(heap, b)))
  {
    LeafEntriesAppend(heap, a, [leaf] + ([right] + b));
    LeafEntriesAppend(heap, [leaf], [right] + b);
    LeafEntriesAppend(heap, [right], b);
    OneLeafEntries(heap, leaf);
    OneLeafEntries(heap, right);
  }

  lemma OneLeafEntries(heap: Heap, id: int)
    requires id in heap && heap[id].LeafPage?
    ensures LeafEntries(heap, [id]) == heap[id].entries
  {
    assert [id][1..] == [];
  }

  lemma MiddleAscends(a: seq<Entry>, b: seq<Entry>, c: seq<Entry>, d: seq<Entry>)
    requires AscendingEntries(a + (b + (c + d)))
    ensures AscendingEntries(b + c)
  {
    var all, m := a + (b + (c + d)), b + c;
    forall i, j | 0 <= i < j < |m| ensures m[i].key < m[j].key {
      assert m[i] == all[|a| + i] && m[j] == all[|a| + j];
    }
  }
}
