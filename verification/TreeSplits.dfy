/** Splitting: what each way of linking a new right sibling does to the tree.
 */
module TreeSplits {
  import opened ByteStrings
  import opened TreeModel
  import opened TreeEntries

  const PAGE_LIMIT := 0x8000_0000  // page ids are non-negative 32-bit integers

  /** The pages under `root` are a well-formed tree of that height, with exact
      parent pointers and the leaves chained in order. */
  ghost predicate Holds(heap: Heap, root: int, next: int, t: Tree, h: nat) {
    && root == t.id
    && Rep(heap, t, NO_PAGE)
    && Shape(t, h)
    && Ordered(t, 0, KEY_LIMIT)
    && Unique(Pages(t))
    && Chained(heap, Leaves(t), NO_PAGE)
    && InRange(heap, next)
  }

  predicate InRange(heap: Heap, next: int) {
    0 <= next <= PAGE_LIMIT && forall id :: id in heap ==> 0 <= id < next
  }

  /** `t` sits in the gap of `p`. */
  ghost predicate Located(heap: Heap, p: Path, t: Tree, h: nat, lo: int, hi: int) {
    && PathRep(heap, p, t.id) && Rep(heap, t, ParentOf(p))
    && PathShape(p, h) && Shape(t, h)
    && PathOrdered(p, lo, hi) && Ordered(t, lo, hi)
    && Unique(PathPages(p) + Pages(t))
  }

  lemma LocatedRoot(heap: Heap, root: int, next: int, t: Tree, h: nat)
    requires Holds(heap, root, next, t, h)
    ensures Located(heap, Top, t, h, 0, KEY_LIMIT)
  {
    assert PathPages(Top) + Pages(t) == Pages(t);
  }

  /** One step of the descent. */
  lemma DescendRep(heap: Heap, p: Path, t: Tree, lo: int, hi: int, i: nat)
    requires PathRep(heap, p, t.id) && Rep(heap, t, ParentOf(p)) && t.TNode? && i < |t.kids|
    ensures var p' := Step(p, t.id, t.keys, t.kids[..i], t.kids[i + 1..], lo, hi);
      PathRep(heap, p', t.kids[i].id) && Rep(heap, t.kids[i], t.id)
  {
    assert Ids(t.kids) == Ids(t.kids[..i]) + [t.kids[i].id] + Ids(t.kids[i + 1..]);
  }

  lemma DescendOrdered(p: Path, t: Tree, lo: int, hi: int, i: nat)
    requires PathOrdered(p, lo, hi) && Ordered(t, lo, hi) && t.TNode? && i < |t.kids|
    ensures var p' := Step(p, t.id, t.keys, t.kids[..i], t.kids[i + 1..], lo, hi);
      && PathOrdered(p', Lower(lo, t.keys, i), Upper(t.keys, hi, i))
      && Ordered(t.kids[i], Lower(lo, t.keys, i), Upper(t.keys, hi, i))
  {
    var after := t.kids[i + 1..];
    assert forall k :: 0 <= k < |after| ==> after[k] == t.kids[i + 1 + k];
  }

  lemma DescendPages(p: Path, t: Tree, lo: int, hi: int, i: nat)
    requires t.TNode? && i < |t.kids|
    ensures var p' := Step(p, t.id, t.keys, t.kids[..i], t.kids[i + 1..], lo, hi);
      PathPages(p') + Pages(t.kids[i]) == PathPages(p) + Pages(t)
  {
    var before, after := t.kids[..i], t.kids[i + 1..];
    assert AllPages(t.kids) == AllPages(before) + Pages(t.kids[i]) + AllPages(after) by {
      assert t.kids == before + [t.kids[i]] + after;
      KidsContents(before, t.kids[i], after);
    }
    SumRearranged(PathPages(p), multiset{t.id}, AllPages(before), Pages(t.kids[i]), AllPages(after));
  }

  lemma DescendShape(p: Path, t: Tree, h: nat, lo: int, hi: int, i: nat)
    requires PathShape(p, h) && Shape(t, h) && t.TNode? && i < |t.kids|
    ensures h > 0
    ensures PathShape(Step(p, t.id, t.keys, t.kids[..i], t.kids[i + 1..], lo, hi), h - 1) && Shape(t.kids[i], h - 1)
  {
    var after := t.kids[i + 1..];
    assert forall k :: 0 <= k < |after| ==> after[k] == t.kids[i + 1 + k];
  }

  lemma DescendPlug(p: Path, t: Tree, lo: int, hi: int, i: nat)
    requires t.TNode? && i < |t.kids|
    ensures Plug(Step(p, t.id, t.keys, t.kids[..i], t.kids[i + 1..], lo, hi), t.kids[i]) == Plug(p, t)
  {
    assert t.kids == t.kids[..i] + [t.kids[i]] + t.kids[i + 1..];
  }

  lemma Descend(heap: Heap, p: Path, t: Tree, h: nat, lo: int, hi: int, i: nat)
    requires Located(heap, p, t, h, lo, hi) && t.TNode? && i < |t.kids|
    ensures h > 0
    ensures var p' := Step(p, t.id, t.keys, t.kids[..i], t.kids[i + 1..], lo, hi);
      && Located(heap, p', t.kids[i], h - 1, Lower(lo, t.keys, i), Upper(t.keys, hi, i))
      && Plug(p', t.kids[i]) == Plug(p, t)
  {
    DescendRep(heap, p, t, lo, hi, i);
    DescendOrdered(p, t, lo, hi, i);
    DescendPages(p, t, lo, hi, i);
    DescendShape(p, t, h, lo, hi, i);
    DescendPlug(p, t, lo, hi, i);
  }

  // ------------------------------------------------------------------
  // Replacing one leaf's entries
  // ------------------------------------------------------------------

  lemma {:induction false} PlugRoot(p: Path, t: Tree, t': Tree)
    requires t.id == t'.id
    ensures Plug(p, t).id == Plug(p, t').id
    decreases p
  {
    if p.Step? {
      PlugRoot(p.up, TNode(p.id, p.keys, p.before + [t] + p.after), TNode(p.id, p.keys, p.before + [t'] + p.after));
    }
  }

  lemma ChainedFrame(heap: Heap, heap': Heap, leaves: seq<int>, end: int)
    requires Chained(heap, leaves, end)
    requires forall x :: x in heap && heap[x].LeafPage? ==>
      x in heap' && heap'[x].LeafPage? && heap'[x].next == heap[x].next
    ensures Chained(heap', leaves, end)
  {
    forall i | 0 <= i < |leaves| ensures LinkAt(heap', leaves, end, i) {
      assert LinkAt(heap, leaves, end, i);
      var x := leaves[i];
      assert x in heap && heap[x].LeafPage?;
    }
  }

  /** Rebuilding the whole tree from a path and a replacement of its gap. */
  lemma Replug(heap: Heap, root: int, next: int, p: Path, t: Tree, h: nat, lo: int, hi: int, leaves: seq<int>)
    requires Located(heap, p, t, h, lo, hi) && root == Plug(p, t).id
    requires Chained(heap, leaves, NO_PAGE) && leaves == PathLeaves(p, Leaves(t))
    requires InRange(heap, next)
    ensures Holds(heap, root, next, Plug(p, t), h + Length(p))
    ensures Entries(Plug(p, t)) == PathEntries(p, Entries(t))
  {
    PlugRep(heap, p, t);
    PlugShape(p, t, h);
    PlugOrdered(p, t, lo, hi);
    PlugPages(p, t);
    PlugLeaves(p, t);
    PlugEntries(p, t);
  }

  lemma NotOnPath(p: Path, t: Tree)
    requires Unique(PathPages(p) + Pages(t))
    ensures forall id :: id in Pages(t) ==> id !in PathPages(p)
  {
    forall id | id in Pages(t) ensures id !in PathPages(p) {
      assert (PathPages(p) + Pages(t))[id] <= 1;
    }
  }

  lemma LeafLocated(heap: Heap, p: Path, t: Tree, lo: int, hi: int, page: Page)
    requires Located(heap, p, t, 0, lo, hi) && t.TLeaf?
    requires page.LeafPage? && page.parent == ParentOf(p) && |page.entries| <= MAX_KEYS
    requires Ordered(TLeaf(t.id, page.entries), lo, hi)
    ensures Located(heap[t.id := page], p, TLeaf(t.id, page.entries), 0, lo, hi)
  {
    NotOnPath(p, t);
    PathFrame(heap, heap[t.id := page], p, t.id);
    assert Pages(TLeaf(t.id, page.entries)) == Pages(t);
  }

  lemma LeafReplaced(heap: Heap, heap': Heap, root: int, next: int, p: Path, t: Tree, lo: int, hi: int, es: seq<Entry>)
    requires Located(heap, p, t, 0, lo, hi) && t.TLeaf?
    requires Holds(heap, root, next, Plug(p, t), Length(p))
    requires |es| <= MAX_KEYS && Ordered(TLeaf(t.id, es), lo, hi)
    requires heap' == heap[t.id := heap[t.id].(entries := es)]
    ensures Holds(heap', root, next, Plug(p, TLeaf(t.id, es)), Length(p))
    ensures Entries(Plug(p, TLeaf(t.id, es))) == PathEntries(p, es)
  {
    var leaves := Leaves(Plug(p, t));
    LeafLocated(heap, p, t, lo, hi, heap'[t.id]);
    PlugRoot(p, t, TLeaf(t.id, es));
    assert leaves == PathLeaves(p, [t.id]) by { PlugLeaves(p, t); }
    ChainedFrame(heap, heap', leaves, NO_PAGE);
    Replug(heap', root, next, p, TLeaf(t.id, es), 0, lo, hi, leaves);
  }

  // ------------------------------------------------------------------
  // A node that has split, its right half not yet linked
  // ------------------------------------------------------------------

  ghost predicate Pending(heap: Heap, root: int, next: int, p: Path, l: Tree, r: Tree, h: nat,
                          lo: int, sep: int, hi: int) {
    && root == Plug(p, l).id
    && PendingPages(heap, p, l, r)
    && PendingOrder(p, l, r, h, lo, sep, hi)
    && Chained(heap, PathLeaves(p, Leaves(l) + Leaves(r)), NO_PAGE)
    && InRange(heap, next)
  }

  ghost predicate PendingPages(heap: Heap, p: Path, l: Tree, r: Tree) {
    && PathRep(heap, p, l.id) && Rep(heap, l, ParentOf(p)) && Rep(heap, r, ParentOf(p))
    && Unique(PathPages(p) + Pages(l) + Pages(r))
  }

  ghost predicate PendingOrder(p: Path, l: Tree, r: Tree, h: nat, lo: int, sep: int, hi: int) {
    && PathShape(p, h) && Shape(l, h) && Shape(r, h)
    && PathOrdered(p, lo, hi) && Ordered(l, lo, sep) && Ordered(r, sep, hi) && lo < sep < hi
  }

  /** What linking must achieve. */
  ghost predicate Linked(heap: Heap, root: int, next: int, tree: Tree, h: nat, p: Path, l: Tree, r: Tree) {
    && Holds(heap, root, next, tree, h)
    && Entries(tree) == PathEntries(p, Entries(l) + Entries(r))
  }

  lemma PairContents(l: Tree, r: Tree)
    ensures AllEntries([l, r]) == Entries(l) + Entries(r)
    ensures AllLeaves([l, r]) == Leaves(l) + Leaves(r)
    ensures AllPages([l, r]) == Pages(l) + Pages(r)
  {
    assert [l, r] == [l] + [r];
    AllOne(l);
    AllOne(r);
    EntriesAppend([l], [r]);
    LeavesAppend([l], [r]);
    PagesAppend([l], [r]);
  }

  lemma {:induction false} RepInHeap(heap: Heap, t: Tree, parent: int)
    requires Rep(heap, t, parent)
    ensures forall id :: id in Pages(t) ==> id in heap
    decreases t, 1
  {
    if t.TNode? {
      forall i | 0 <= i < |t.kids| ensures forall id :: id in Pages(t.kids[i]) ==> id in heap {
        RepInHeap(heap, t.kids[i], t.id);
      }
      AllInHeap(heap, t.kids);
    }
  }

  lemma {:induction false} AllInHeap(heap: Heap, ts: seq<Tree>)
    requires forall i :: 0 <= i < |ts| ==> forall id :: id in Pages(ts[i]) ==> id in heap
    ensures forall id :: id in AllPages(ts) ==> id in heap
  {
    if ts != [] {
      AllInHeap(heap, ts[1..]);
    }
  }

  // ------------------------------------------------------------------
  // A new root above both halves
  // ------------------------------------------------------------------

  lemma DisjointPages(a: multiset<int>, b: multiset<int>)
    requires Unique(a + b)
    ensures Unique(a) && Unique(b) && forall id :: id in a ==> id !in b
  {
    forall id ensures a[id] <= 1 && b[id] <= 1 && (id in a ==> id !in b) {
      assert (a + b)[id] <= 1;
    }
  }

  lemma FreshPage(heap: Heap, next: int, t: Tree, parent: int)
    requires InRange(heap, next) && Rep(heap, t, parent)
    ensures next !in Pages(t)
  {
    RepInHeap(heap, t, parent);
  }

  lemma PairOrdered(id: int, l: Tree, r: Tree, lo: int, sep: int, hi: int)
    requires Ordered(l, lo, sep) && Ordered(r, sep, hi) && lo < sep < hi
    ensures Ordered(TNode(id, [sep], [l, r]), lo, hi)
  {
  }

  function RootPages(heap: Heap, next: int, l: int, r: int, sep: int): Heap
    requires l in heap && r in heap && l != r && next !in heap
  {
    var h1 := heap[next := NodePage(NO_PAGE, [sep], [l, r])];
    var h2 := h1[l := h1[l].(parent := next)];
    h2[r := h2[r].(parent := next)]
  }

  lemma RootRep(heap: Heap, next: int, l: Tree, r: Tree, sep: int)
    requires Rep(heap, l, NO_PAGE) && Rep(heap, r, NO_PAGE) && InRange(heap, next)
    requires Unique(Pages(l) + Pages(r))
    ensures l.id != r.id && l.id in heap && r.id in heap
    ensures Rep(RootPages(heap, next, l.id, r.id, sep), TNode(next, [sep], [l, r]), NO_PAGE)
  {
    DisjointPages(Pages(l), Pages(r));
    RootPage(l);
    RootPage(r);
    FreshPage(heap, next, l, NO_PAGE);
    FreshPage(heap, next, r, NO_PAGE);
    var h1 := heap[next := NodePage(NO_PAGE, [sep], [l.id, r.id])];
    RepFrame(heap, h1, l, NO_PAGE);
    RepFrame(heap, h1, r, NO_PAGE);
    Reparent(h1, l, NO_PAGE, next);
    var h2 := h1[l.id := h1[l.id].(parent := next)];
    RepFrame(h1, h2, r, NO_PAGE);
    Reparent(h2, r, NO_PAGE, next);
    var h3 := h2[r.id := h2[r.id].(parent := next)];
    RepFrame(h2, h3, l, next);
    assert h3 == RootPages(heap, next, l.id, r.id, sep);
    assert Ids([l, r]) == [l.id, r.id];
  }

  lemma RootChained(heap: Heap, next: int, l: int, r: int, sep: int, leaves: seq<int>)
    requires l in heap && r in heap && l != r && next !in heap
    requires Chained(heap, leaves, NO_PAGE)
    ensures Chained(RootPages(heap, next, l, r, sep), leaves, NO_PAGE)
  {
    var heap' := RootPages(heap, next, l, r, sep);
    forall id | id in heap && heap[id].LeafPage?
      ensures id in heap' && heap'[id].LeafPage? && heap'[id].next == heap[id].next
    {
    }
    ChainedFrame(heap, heap', leaves, NO_PAGE);
  }

  lemma RootContents(next: int, l: Tree, r: Tree, sep: int)
    ensures var t := TNode(next, [sep], [l, r]);
      && Entries(t) == Entries(l) + Entries(r)
      && Leaves(t) == Leaves(l) + Leaves(r)
      && Pages(t) == multiset{next} + (Pages(l) + Pages(r))
  {
    PairContents(l, r);
  }

  lemma RootGrown(heap: Heap, next: int, l: Tree, r: Tree, h: nat, sep: int)
    requires Pending(heap, l.id, next, Top, l, r, h, 0, sep, KEY_LIMIT) && next < PAGE_LIMIT
    ensures l.id != r.id && l.id in heap && r.id in heap && next !in heap
    ensures Linked(RootPages(heap, next, l.id, r.id, sep), next, next + 1, TNode(next, [sep], [l, r]), h + 1, Top, l, r)
  {
    var t := TNode(next, [sep], [l, r]);
    assert Unique(Pages(l) + Pages(r)) by {
      assert PathPages(Top) + Pages(l) + Pages(r) == Pages(l) + Pages(r);
    }
    RootRep(heap, next, l, r, sep);
    PairOrdered(next, l, r, 0, sep, KEY_LIMIT);
    RootContents(next, l, r, sep);
    RootChained(heap, next, l.id, r.id, sep, Leaves(t));
    RootUnique(heap, next, l, r);
    assert Shape(t, h + 1);
  }

  lemma RootUnique(heap: Heap, next: int, l: Tree, r: Tree)
    requires Rep(heap, l, NO_PAGE) && Rep(heap, r, NO_PAGE) && InRange(heap, next) && Unique(Pages(l) + Pages(r))
    ensures Unique(multiset{next} + (Pages(l) + Pages(r)))
  {
    FreshPage(heap, next, l, NO_PAGE);
    FreshPage(heap, next, r, NO_PAGE);
  }

  // ------------------------------------------------------------------
  // Room in the parent
  // ------------------------------------------------------------------

  function KeysWith(p: Path, sep: int): seq<int>
    requires p.Step? && |p.before| <= |p.keys|
  {
    p.keys[..|p.before|] + [sep] + p.keys[|p.before|..]
  }

  function KidsWith(p: Path, l: Tree, r: Tree): seq<Tree>
    requires p.Step?
  {
    p.before + [l, r] + p.after
  }

  function Joined(p: Path, l: Tree, r: Tree, sep: int): Tree
    requires p.Step? && |p.before| <= |p.keys|
  {
    TNode(p.id, KeysWith(p, sep), KidsWith(p, l, r))
  }

  lemma JoinedKeys(p: Path, lo: int, sep: int, hi: int)
    requires p.Step? && |p.before| + |p.after| == |p.keys| && KeysWithin(p.keys, p.low, p.high)
    requires lo == Lower(p.low, p.keys, |p.before|) && hi == Upper(p.keys, p.high, |p.before|) && lo < sep < hi
    ensures var j, keys := |p.before|, KeysWith(p, sep);
      && KeysWithin(keys, p.low, p.high)
      && |keys| == |p.keys| + 1
      && (forall i :: 0 <= i < |keys| ==> keys[i] == if i < j then p.keys[i] else if i == j then sep else p.keys[i - 1])
  {
  }

  lemma JoinedOrdered(p: Path, l: Tree, r: Tree, lo: int, sep: int, hi: int)
    requires p.Step? && PathOrdered(p, lo, hi)
    requires Ordered(l, lo, sep) && Ordered(r, sep, hi) && lo < sep < hi
    ensures |p.before| <= |p.keys|
    ensures Ordered(Joined(p, l, r, sep), p.low, p.high)
  {
    var j := |p.before|;
    var keys, kids := KeysWith(p, sep), KidsWith(p, l, r);
    JoinedKeys(p, lo, sep, hi);
    forall i | 0 <= i < |kids| ensures Ordered(kids[i], Lower(p.low, keys, i), Upper(keys, p.high, i)) {
      if i < j {
        assert kids[i] == p.before[i];
      } else if i > j + 1 {
        assert kids[i] == p.after[i - j - 2];
      }
    }
  }

  lemma JoinedContents(p: Path, l: Tree, r: Tree)
    requires p.Step?
    ensures AllEntries(KidsWith(p, l, r)) == AllEntries(p.before) + (Entries(l) + Entries(r)) + AllEntries(p.after)
    ensures AllLeaves(KidsWith(p, l, r)) == AllLeaves(p.before) + (Leaves(l) + Leaves(r)) + AllLeaves(p.after)
    ensures AllPages(KidsWith(p, l, r)) == AllPages(p.before) + (Pages(l) + Pages(r)) + AllPages(p.after)
  {
    PairContents(l, r);
    EntriesAppend(p.before + [l, r], p.after);
    EntriesAppend(p.before, [l, r]);
    LeavesAppend(p.before + [l, r], p.after);
    LeavesAppend(p.before, [l, r]);
    PagesAppend(p.before + [l, r], p.after);
    PagesAppend(p.before, [l, r]);
  }

  lemma JoinedPages(p: Path, l: Tree, r: Tree, sep: int)
    requires p.Step? && |p.before| <= |p.keys|
    ensures PathPages(p.up) + Pages(Joined(p, l, r, sep)) == PathPages(p) + Pages(l) + Pages(r)
  {
    JoinedContents(p, l, r);
    SumRearranged(PathPages(p.up), multiset{p.id}, AllPages(p.before), Pages(l) + Pages(r), AllPages(p.after));
    SumAssociates(PathPages(p), Pages(l), Pages(r));
  }

  lemma JoinedLeaves(p: Path, l: Tree, r: Tree, sep: int)
    requires p.Step? && |p.before| <= |p.keys|
    ensures PathLeaves(p.up, Leaves(Joined(p, l, r, sep))) == PathLeaves(p, Leaves(l) + Leaves(r))
    ensures PathEntries(p.up, Entries(Joined(p, l, r, sep))) == PathEntries(p, Entries(l) + Entries(r))
  {
    JoinedContents(p, l, r);
  }

  /** All the children of the joined node are held under the old parent. */
  lemma JoinedKidsRep(heap: Heap, p: Path, l: Tree, r: Tree)
    requires p.Step? && PathRep(heap, p, l.id) && Rep(heap, l, p.id) && Rep(heap, r, p.id)
    ensures forall i :: 0 <= i < |KidsWith(p, l, r)| ==> Rep(heap, KidsWith(p, l, r)[i], p.id)
  {
    var kids := KidsWith(p, l, r);
    forall i | 0 <= i < |kids| ensures Rep(heap, kids[i], p.id) {
      if i < |p.before| {
        assert kids[i] == p.before[i];
      } else if i > |p.before| + 1 {
        assert kids[i] == p.after[i - |p.before| - 2];
      }
    }
  }

  lemma JoinedShape(p: Path, l: Tree, r: Tree, h: nat, sep: int)
    requires p.Step? && PathShape(p, h) && Shape(l, h) && Shape(r, h)
    ensures |p.before| <= |p.keys| && |KidsWith(p, l, r)| == |KeysWith(p, sep)| + 1 == |p.keys| + 2
    ensures forall i :: 0 <= i < |KidsWith(p, l, r)| ==> Shape(KidsWith(p, l, r)[i], h)
  {
    var kids := KidsWith(p, l, r);
    forall i | 0 <= i < |kids| ensures Shape(kids[i], h) {
      if i < |p.before| {
        assert kids[i] == p.before[i];
      } else if i > |p.before| + 1 {
        assert kids[i] == p.after[i - |p.before| - 2];
      }
    }
  }

  function JoinedPage(p: Path, l: int, r: int, sep: int): Page
    requires p.Step? && |p.before| <= |p.keys|
  {
    NodePage(ParentOf(p.up), KeysWith(p, sep), Ids(p.before) + [l, r] + Ids(p.after))
  }

  lemma JoinedNode(heap: Heap, p: Path, l: Tree, r: Tree, sep: int)
    requires p.Step? && |p.before| <= |p.keys|
    requires PathRep(heap, p, l.id) && Rep(heap, l, p.id) && Rep(heap, r, p.id)
    requires p.id !in AllPages(KidsWith(p, l, r))
    ensures Rep(heap[p.id := JoinedPage(p, l.id, r.id, sep)], Joined(p, l, r, sep), ParentOf(p.up))
  {
    var kids := KidsWith(p, l, r);
    assert Ids(kids) == Ids(p.before) + [l.id, r.id] + Ids(p.after);
    JoinedKidsRep(heap, p, l, r);
    KidsFrame(heap, heap[p.id := JoinedPage(p, l.id, r.id, sep)], kids, p.id);
  }

  lemma JoinedRep(heap: Heap, p: Path, l: Tree, r: Tree, sep: int)
    requires p.Step? && |p.before| <= |p.keys|
    requires PathRep(heap, p, l.id) && Rep(heap, l, p.id) && Rep(heap, r, p.id)
    requires Unique(PathPages(p.up) + Pages(Joined(p, l, r, sep)))
    ensures var heap' := heap[p.id := JoinedPage(p, l.id, r.id, sep)];
      PathRep(heap', p.up, p.id) && Rep(heap', Joined(p, l, r, sep), ParentOf(p.up))
  {
    var heap' := heap[p.id := JoinedPage(p, l.id, r.id, sep)];
    NodeApart(p.up, Joined(p, l, r, sep));
    JoinedNode(heap, p, l, r, sep);
    PathFrame(heap, heap', p.up, p.id);
  }

  /** A node's own page is neither on the path above nor among its subtrees. */
  lemma NodeApart(p: Path, t: Tree)
    requires t.TNode? && Unique(PathPages(p) + Pages(t))
    ensures t.id !in PathPages(p) && t.id !in AllPages(t.kids) && Unique(AllPages(t.kids))
  {
    DisjointPages(PathPages(p), Pages(t));
    DisjointPages(multiset{t.id}, AllPages(t.kids));
    RootPage(t);
    assert t.id in multiset{t.id};
  }

  lemma RoomInParent(heap: Heap, root: int, next: int, p: Path, l: Tree, r: Tree, h: nat, lo: int, sep: int, hi: int)
    requires p.Step? && Pending(heap, root, next, p, l, r, h, lo, sep, hi) && |p.keys| < MAX_KEYS
    ensures |p.before| <= |p.keys|
    ensures var heap' := heap[p.id := JoinedPage(p, l.id, r.id, sep)];
      Linked(heap', root, next, Plug(p.up, Joined(p, l, r, sep)), h + Length(p), p, l, r)
  {
    JoinedLocated(heap, p, l, r, h, lo, sep, hi);
    Relink(heap, heap[p.id := JoinedPage(p, l.id, r.id, sep)], root, next, p, l, r, h, sep);
  }

  lemma Relink(heap: Heap, heap': Heap, root: int, next: int, p: Path, l: Tree, r: Tree, h: nat, sep: int)
    requires p.Step? && |p.before| <= |p.keys| && root == Plug(p, l).id
    requires Located(heap', p.up, Joined(p, l, r, sep), h + 1, p.low, p.high)
    requires p.id in heap && heap[p.id].NodePage? && InRange(heap, next)
    requires heap' == heap[p.id := JoinedPage(p, l.id, r.id, sep)]
    requires Chained(heap, PathLeaves(p, Leaves(l) + Leaves(r)), NO_PAGE)
    ensures Linked(heap', root, next, Plug(p.up, Joined(p, l, r, sep)), h + Length(p), p, l, r)
  {
    var t, leaves := Joined(p, l, r, sep), PathLeaves(p, Leaves(l) + Leaves(r));
    JoinedRoot(p, l, r, sep);
    JoinedLeaves(p, l, r, sep);
    NodeNotChained(heap, p.id, heap'[p.id], leaves);
    Replug(heap', root, next, p.up, t, h + 1, p.low, p.high, leaves);
    assert h + 1 + Length(p.up) == h + Length(p);
  }

  lemma JoinedLocated(heap: Heap, p: Path, l: Tree, r: Tree, h: nat, lo: int, sep: int, hi: int)
    requires p.Step? && |p.keys| < MAX_KEYS
    requires PathRep(heap, p, l.id) && Rep(heap, l, p.id) && Rep(heap, r, p.id)
    requires PathShape(p, h) && Shape(l, h) && Shape(r, h)
    requires PathOrdered(p, lo, hi) && Ordered(l, lo, sep) && Ordered(r, sep, hi) && lo < sep < hi
    requires Unique(PathPages(p) + Pages(l) + Pages(r))
    ensures |p.before| <= |p.keys|
    ensures Located(heap[p.id := JoinedPage(p, l.id, r.id, sep)], p.up, Joined(p, l, r, sep), h + 1, p.low, p.high)
  {
    JoinedOrdered(p, l, r, lo, sep, hi);
    JoinedShape(p, l, r, h, sep);
    JoinedPages(p, l, r, sep);
    JoinedRep(heap, p, l, r, sep);
  }

  lemma JoinedRoot(p: Path, l: Tree, r: Tree, sep: int)
    requires p.Step? && |p.before| <= |p.keys|
    ensures Plug(p.up, Joined(p, l, r, sep)).id == Plug(p, l).id
  {
    PlugRoot(p.up, TNode(p.id, p.keys, p.before + [l] + p.after), Joined(p, l, r, sep));
  }

  /** Rewriting an internal page does not touch the leaf chain. */
  lemma NodeNotChained(heap: Heap, id: int, page: Page, leaves: seq<int>)
    requires Chained(heap, leaves, NO_PAGE) && (id in heap ==> heap[id].NodePage?)
    ensures Chained(heap[id := page], leaves, NO_PAGE)
  {
    ChainedFrame(heap, heap[id := page], leaves, NO_PAGE);
  }

  // ------------------------------------------------------------------
  // The parent splits too
  // ------------------------------------------------------------------

  lemma {:induction false} KidRootIn(ts: seq<Tree>, i: nat)
    requires i < |ts|
    ensures ts[i].id in AllPages(ts)
  {
    KidPages(ts, i);
    RootPage(ts[i]);
  }

  lemma {:induction false} KidsApart(ts: seq<Tree>, i: nat, j: nat)
    requires i < |ts| && j < |ts| && i != j && Unique(AllPages(ts))
    ensures ts[j].id !in Pages(ts[i])
    decreases ts
  {
    var rest := ts[1..];
    DisjointPages(Pages(ts[0]), AllPages(rest));
    if i == 0 {
      KidRootIn(rest, j - 1);
    } else if j == 0 {
      RootPage(ts[0]);
      KidPages(rest, i - 1);
      SubsetPage(Pages(rest[i - 1]), AllPages(rest), ts[0].id);
    } else {
      KidsApart(rest, i - 1, j - 1);
    }
  }

  lemma SubsetPage(a: multiset<int>, b: multiset<int>, id: int)
    requires a <= b && id !in b
    ensures id !in a
  {
  }

  lemma KidUnique(ts: seq<Tree>, i: nat)
    requires i < |ts| && Unique(AllPages(ts))
    ensures Unique(Pages(ts[i]))
  {
    KidPages(ts, i);
    forall x ensures Pages(ts[i])[x] <= 1 {
      assert Pages(ts[i])[x] <= AllPages(ts)[x];
    }
  }

  function LeftHalf(t: Tree, mid: nat): Tree
    requires t.TNode? && mid <= |t.keys| && mid < |t.kids|
  {
    TNode(t.id, t.keys[..mid], t.kids[..mid + 1])
  }

  function RightHalf(t: Tree, mid: nat, id: int): Tree
    requires t.TNode? && mid < |t.keys| && mid < |t.kids|
  {
    TNode(id, t.keys[mid + 1..], t.kids[mid + 1..])
  }

  lemma HalvesOrdered(t: Tree, mid: nat, id: int, lo: int, hi: int)
    requires t.TNode? && Ordered(t, lo, hi) && mid < |t.keys|
    ensures Ordered(LeftHalf(t, mid), lo, t.keys[mid]) && Ordered(RightHalf(t, mid, id), t.keys[mid], hi)
    ensures lo < t.keys[mid] < hi
  {
    var sep := t.keys[mid];
    var l, r := LeftHalf(t, mid), RightHalf(t, mid, id);
    forall i | 0 <= i < |l.kids| ensures Ordered(l.kids[i], Lower(lo, l.keys, i), Upper(l.keys, sep, i)) {
      assert l.kids[i] == t.kids[i];
    }
    forall i | 0 <= i < |r.kids| ensures Ordered(r.kids[i], Lower(sep, r.keys, i), Upper(r.keys, hi, i)) {
      assert r.kids[i] == t.kids[mid + 1 + i];
    }
  }

  lemma HalvesShape(t: Tree, mid: nat, id: int, h: nat)
    requires t.TNode? && |t.kids| == |t.keys| + 1 && 1 <= mid <= MAX_KEYS && 1 <= |t.keys| - mid - 1 <= MAX_KEYS
    requires forall i :: 0 <= i < |t.kids| ==> Shape(t.kids[i], h)
    ensures Shape(LeftHalf(t, mid), h + 1) && Shape(RightHalf(t, mid, id), h + 1)
  {
    var r := RightHalf(t, mid, id);
    assert forall i :: 0 <= i < |r.kids| ==> r.kids[i] == t.kids[mid + 1 + i];
  }

  lemma HalvesContents(t: Tree, mid: nat, id: int)
    requires t.TNode? && mid < |t.keys| && mid < |t.kids|
    ensures Leaves(LeftHalf(t, mid)) + Leaves(RightHalf(t, mid, id)) == Leaves(t)
    ensures Entries(LeftHalf(t, mid)) + Entries(RightHalf(t, mid, id)) == Entries(t)
    ensures AllPages(t.kids[..mid + 1]) + AllPages(t.kids[mid + 1..]) == AllPages(t.kids)
  {
    var a, b := t.kids[..mid + 1], t.kids[mid + 1..];
    assert t.kids == a + b;
    LeavesAppend(a, b);
    EntriesAppend(a, b);
    PagesAppend(a, b);
  }

  /** The heap after splitting node `t`: the right half on page `id`, its
      children moved under it, the left half rewritten in place. */
  ghost predicate SplitPages(heap: Heap, heap': Heap, t: Tree, mid: nat, id: int, parent: int)
    requires t.TNode? && mid < |t.keys| && mid < |t.kids|
  {
    var l, r := LeftHalf(t, mid), RightHalf(t, mid, id);
    && heap'.Keys == heap.Keys + {t.id, id}
    && heap'[t.id] == NodePage(parent, l.keys, Ids(l.kids))
    && heap'[id] == NodePage(parent, r.keys, Ids(r.kids))
    && forall x :: x in heap && x != t.id && x != id ==>
         heap'[x] == if x in Ids(r.kids) then heap[x].(parent := id) else heap[x]
  }

  lemma SplitLeftRep(heap: Heap, heap': Heap, t: Tree, mid: nat, id: int, parent: int)
    requires t.TNode? && mid < |t.keys| && mid < |t.kids| && SplitPages(heap, heap', t, mid, id, parent)
    requires forall i :: 0 <= i < |t.kids| ==> Rep(heap, t.kids[i], t.id)
    requires Unique(AllPages(t.kids)) && t.id !in AllPages(t.kids) && id !in AllPages(t.kids) && id != t.id
    ensures Rep(heap', LeftHalf(t, mid), parent)
  {
    var a, b := t.kids[..mid + 1], t.kids[mid + 1..];
    HalvesContents(t, mid, id);
    DisjointPages(AllPages(a), AllPages(b));
    forall x | x in AllPages(a) && x in heap ensures x in heap' && heap'[x] == heap[x] {
      if x in Ids(b) {
        var j :| 0 <= j < |b| && b[j].id == x;
        KidRootIn(b, j);
      }
    }
    KidsFrame(heap, heap', a, t.id);
  }

  lemma SplitRightRep(heap: Heap, heap': Heap, t: Tree, mid: nat, id: int, parent: int)
    requires t.TNode? && mid < |t.keys| && mid < |t.kids| && SplitPages(heap, heap', t, mid, id, parent)
    requires forall i :: 0 <= i < |t.kids| ==> Rep(heap, t.kids[i], t.id)
    requires Unique(AllPages(t.kids)) && t.id !in AllPages(t.kids) && id !in AllPages(t.kids) && id != t.id
    ensures Rep(heap', RightHalf(t, mid, id), parent)
  {
    var b := t.kids[mid + 1..];
    HalvesContents(t, mid, id);
    DisjointPages(AllPages(t.kids[..mid + 1]), AllPages(b));
    forall i | 0 <= i < |b| ensures Rep(heap', b[i], id) {
      assert b[i] == t.kids[mid + 1 + i];
      SplitRightKid(heap, heap', t, mid, id, parent, b, i);
    }
  }

  lemma SplitRightKid(heap: Heap, heap': Heap, t: Tree, mid: nat, id: int, parent: int, b: seq<Tree>, i: nat)
    requires t.TNode? && mid < |t.keys| && mid < |t.kids| && SplitPages(heap, heap', t, mid, id, parent)
    requires b == t.kids[mid + 1..] && i < |b| && Rep(heap, b[i], t.id) && Unique(AllPages(b))
    requires t.id !in AllPages(b) && id !in AllPages(b)
    ensures Rep(heap', b[i], id)
  {
    var kid := b[i];
    KidUnique(b, i);
    Reparent(heap, kid, t.id, id);
    var moved := heap[kid.id := heap[kid.id].(parent := id)];
    KidPages(b, i);
    forall x | x in Pages(kid) && x in moved ensures x in heap' && heap'[x] == moved[x] {
      assert x in AllPages(b);
      if x in Ids(b) && x != kid.id {
        var j :| 0 <= j < |b| && b[j].id == x;
        KidsApart(b, i, j);
      }
    }
    RepFrame(moved, heap', kid, id);
  }

  lemma {:induction false} PathInHeap(heap: Heap, p: Path, hole: int)
    requires PathRep(heap, p, hole)
    ensures forall id :: id in PathPages(p) ==> id in heap
    decreases p
  {
    if p.Step? {
      PathInHeap(heap, p.up, p.id);
      KidsInHeap(heap, p.before, p.id);
      KidsInHeap(heap, p.after, p.id);
    }
  }

  lemma KidsInHeap(heap: Heap, ts: seq<Tree>, parent: int)
    requires forall i :: 0 <= i < |ts| ==> Rep(heap, ts[i], parent)
    ensures forall id :: id in AllPages(ts) ==> id in heap
  {
    forall i | 0 <= i < |ts| ensures forall id :: id in Pages(ts[i]) ==> id in heap {
      RepInHeap(heap, ts[i], parent);
    }
    AllInHeap(heap, ts);
  }

  lemma SplitPath(heap: Heap, heap': Heap, p: Path, t: Tree, mid: nat, id: int)
    requires t.TNode? && mid < |t.keys| && mid < |t.kids| && SplitPages(heap, heap', t, mid, id, ParentOf(p))
    requires PathRep(heap, p, t.id) && Unique(PathPages(p) + Pages(t)) && id !in heap
    ensures PathRep(heap', p, t.id)
  {
    PathInHeap(heap, p, t.id);
    NotOnPath(p, t);
    RootPage(t);
    var b := t.kids[mid + 1..];
    forall x | x in PathPages(p) && x in heap ensures x in heap' && heap'[x] == heap[x] {
      if x in Ids(b) {
        var j :| 0 <= j < |b| && b[j].id == x;
        KidRootIn(t.kids, mid + 1 + j);
      }
    }
    PathFrame(heap, heap', p, t.id);
  }

  lemma SplitUnique(heap: Heap, p: Path, t: Tree, mid: nat, id: int)
    requires t.TNode? && mid < |t.keys| && mid < |t.kids| && id !in heap
    requires PathRep(heap, p, t.id) && t.id in heap
    requires forall i :: 0 <= i < |t.kids| ==> Rep(heap, t.kids[i], t.id)
    requires Unique(PathPages(p) + Pages(t))
    ensures Unique(PathPages(p) + Pages(LeftHalf(t, mid)) + Pages(RightHalf(t, mid, id)))
  {
    HalvesContents(t, mid, id);
    PathInHeap(heap, p, t.id);
    KidsInHeap(heap, t.kids, t.id);
    var a, b := AllPages(t.kids[..mid + 1]), AllPages(t.kids[mid + 1..]);
    SumWithFresh(PathPages(p), multiset{t.id}, a, b, id);
    assert Pages(t) == multiset{t.id} + (a + b);
    forall x ensures (PathPages(p) + (multiset{t.id} + (a + b)) + multiset{id})[x] <= 1 {
      assert (PathPages(p) + Pages(t))[x] <= 1;
    }
  }

  lemma SumWithFresh(u: multiset<int>, i: multiset<int>, a: multiset<int>, b: multiset<int>, id: int)
    ensures u + (i + a) + (multiset{id} + b) == u + (i + (a + b)) + multiset{id}
  {
  }

  lemma SplitChained(heap: Heap, heap': Heap, t: Tree, mid: nat, id: int, parent: int, leaves: seq<int>)
    requires t.TNode? && mid < |t.keys| && mid < |t.kids| && SplitPages(heap, heap', t, mid, id, parent)
    requires t.id in heap && heap[t.id].NodePage? && id !in heap
    requires Chained(heap, leaves, NO_PAGE)
    ensures Chained(heap', leaves, NO_PAGE)
  {
    ChainedFrame(heap, heap', leaves, NO_PAGE);
  }

  lemma ParentSplitOrder(p: Path, l: Tree, r: Tree, h: nat, lo: int, sep: int, hi: int, mid: nat, id: int)
    requires p.Step? && PendingOrder(p, l, r, h, lo, sep, hi)
    requires |p.keys| == MAX_KEYS && |p.before| <= |p.keys| && mid == (MAX_KEYS + 1) / 2
    ensures var t := Joined(p, l, r, sep);
      && |t.keys| == MAX_KEYS + 1 && |t.kids| == MAX_KEYS + 2
      && PendingOrder(p.up, LeftHalf(t, mid), RightHalf(t, mid, id), h + 1, p.low, t.keys[mid], p.high)
  {
    var t := Joined(p, l, r, sep);
    JoinedOrdered(p, l, r, lo, sep, hi);
    JoinedShape(p, l, r, h, sep);
    HalvesOrdered(t, mid, id, p.low, p.high);
    HalvesShape(t, mid, id, h);
  }

  lemma ParentSplitRep(heap: Heap, heap': Heap, next: int, p: Path, l: Tree, r: Tree, sep: int, mid: nat)
    requires p.Step? && PendingPages(heap, p, l, r) && InRange(heap, next) && |p.before| <= |p.keys|
    requires var t := Joined(p, l, r, sep);
      mid < |t.keys| && mid < |t.kids| && SplitPages(heap, heap', t, mid, next, ParentOf(p.up))
    ensures var t := Joined(p, l, r, sep); PendingPages(heap', p.up, LeftHalf(t, mid), RightHalf(t, mid, next))
  {
    var t := Joined(p, l, r, sep);
    JoinedPages(p, l, r, sep);
    JoinedKidsRep(heap, p, l, r);
    NodeApart(p.up, t);
    KidsInHeap(heap, t.kids, p.id);
    SplitLeftRep(heap, heap', t, mid, next, ParentOf(p.up));
    SplitRightRep(heap, heap', t, mid, next, ParentOf(p.up));
    SplitPath(heap, heap', p.up, t, mid, next);
    SplitUnique(heap, p.up, t, mid, next);
  }

  lemma ParentSplitChain(heap: Heap, heap': Heap, next: int, p: Path, l: Tree, r: Tree, sep: int, mid: nat)
    requires p.Step? && |p.before| <= |p.keys|
    requires p.id in heap && heap[p.id].NodePage? && next !in heap
    requires Chained(heap, PathLeaves(p, Leaves(l) + Leaves(r)), NO_PAGE)
    requires var t := Joined(p, l, r, sep);
      mid < |t.keys| && mid < |t.kids| && SplitPages(heap, heap', t, mid, next, ParentOf(p.up))
    ensures var t := Joined(p, l, r, sep);
      && Chained(heap', PathLeaves(p.up, Leaves(LeftHalf(t, mid)) + Leaves(RightHalf(t, mid, next))), NO_PAGE)
      && Entries(LeftHalf(t, mid)) + Entries(RightHalf(t, mid, next)) == Entries(t)
      && Plug(p.up, LeftHalf(t, mid)).id == Plug(p, l).id
  {
    var t := Joined(p, l, r, sep);
    HalvesContents(t, mid, next);
    JoinedLeaves(p, l, r, sep);
    SplitChained(heap, heap', t, mid, next, ParentOf(p.up), PathLeaves(p, Leaves(l) + Leaves(r)));
    JoinedRoot(p, l, r, sep);
    PlugRoot(p.up, t, LeftHalf(t, mid));
  }

  lemma ParentSplit(heap: Heap, heap': Heap, root: int, next: int, p: Path, l: Tree, r: Tree, h: nat,
                    lo: int, sep: int, hi: int, mid: nat)
    requires p.Step? && Pending(heap, root, next, p, l, r, h, lo, sep, hi)
    requires |p.keys| == MAX_KEYS && next < PAGE_LIMIT && |p.before| <= |p.keys| && mid == (MAX_KEYS + 1) / 2
    requires var t := Joined(p, l, r, sep);
      mid < |t.keys| && mid < |t.kids| && SplitPages(heap, heap', t, mid, next, ParentOf(p.up))
    ensures var t := Joined(p, l, r, sep);
      && Pending(heap', root, next + 1, p.up, LeftHalf(t, mid), RightHalf(t, mid, next), h + 1,
                 p.low, t.keys[mid], p.high)
      && Entries(LeftHalf(t, mid)) + Entries(RightHalf(t, mid, next)) == Entries(t)
  {
    ParentSplitOrder(p, l, r, h, lo, sep, hi, mid, next);
    ParentSplitRep(heap, heap', next, p, l, r, sep, mid);
    ParentSplitChain(heap, heap', next, p, l, r, sep, mid);
  }

  // ------------------------------------------------------------------
  // A leaf splits
  // ------------------------------------------------------------------

  lemma ChainSplit(heap: Heap, heap': Heap, a: seq<int>, x: int, y: int, b: seq<int>)
    requires Chained(heap, a + [x] + b, NO_PAGE)
    requires x !in a && x !in b && y !in heap
    requires heap'.Keys == heap.Keys + {x, y} && heap'[x].LeafPage? && heap'[y].LeafPage?
    requires heap'[x].next == y && x in heap && heap[x].LeafPage? && heap'[y].next == heap[x].next
    requires forall id :: id in heap && id != x ==> heap'[id] == heap[id]
    ensures Chained(heap', a + [x, y] + b, NO_PAGE)
  {
    var before, after := a + [x] + b, a + [x, y] + b;
    var n := |a|;
    forall i | 0 <= i < |after| ensures LinkAt(heap', after, NO_PAGE, i) {
      var k := if i <= n then i else i - 1;
      assert LinkAt(heap, before, NO_PAGE, k);
      if i < n {
        assert after[i] == before[i] == a[i];
        assert before[i + 1] == after[i + 1];
      } else if i == n + 1 {
        assert i + 1 < |after| ==> after[i + 1] == before[n + 1];
      } else if i > n + 1 {
        assert after[i] == before[i - 1] == b[i - n - 2];
        assert i + 1 < |after| ==> after[i + 1] == before[i];
      }
    }
  }

  lemma LeafSplitChain(heap: Heap, heap': Heap, p: Path, t: Tree, next: int)
    requires t.TLeaf? && Unique(PathPages(p) + Pages(t)) && t.id in heap && heap[t.id].LeafPage? && next !in heap
    requires Chained(heap, Leaves(Plug(p, t)), NO_PAGE)
    requires heap'.Keys == heap.Keys + {t.id, next} && heap'[t.id].LeafPage? && heap'[next].LeafPage?
    requires heap'[t.id].next == next && heap'[next].next == heap[t.id].next
    requires forall id :: id in heap && id != t.id ==> heap'[id] == heap[id]
    ensures Chained(heap', PathLeaves(p, [t.id] + [next]), NO_PAGE)
  {
    PlugLeaves(p, t);
    PathLeavesSplit(p, [t.id]);
    PathLeavesSplit(p, [t.id] + [next]);
    NotOnPath(p, t);
    RootPage(t);
    if t.id in LeavesBefore(p) || t.id in LeavesAfter(p) { PathLeafPages(p, t.id); }
    ChainSplit(heap, heap', LeavesBefore(p), t.id, next, LeavesAfter(p));
    assert [t.id] + [next] == [t.id, next];
  }

  lemma LeafSplitRep(heap: Heap, heap': Heap, p: Path, t: Tree, next: int)
    requires t.TLeaf? && PathRep(heap, p, t.id) && Unique(PathPages(p) + Pages(t)) && InRange(heap, next)
    requires forall id :: id in heap && id != t.id ==> id in heap' && heap'[id] == heap[id]
    requires t.id in heap
    ensures PathRep(heap', p, t.id) && Unique(PathPages(p) + multiset{t.id} + multiset{next})
  {
    NotOnPath(p, t);
    RootPage(t);
    PathInHeap(heap, p, t.id);
    PathFrame(heap, heap', p, t.id);
    forall x ensures (PathPages(p) + multiset{t.id} + multiset{next})[x] <= 1 {
      assert (PathPages(p) + Pages(t))[x] <= 1;
    }
  }

  lemma LeafSplit(heap: Heap, root: int, next: int, p: Path, t: Tree, lo: int, hi: int, es: seq<Entry>, mid: nat)
    requires Located(heap, p, t, 0, lo, hi) && t.TLeaf?
    requires Holds(heap, root, next, Plug(p, t), Length(p)) && next < PAGE_LIMIT
    requires Ordered(TLeaf(t.id, es), lo, hi) && 0 < mid < |es| && mid <= MAX_KEYS && |es| - mid <= MAX_KEYS
    ensures t.id in heap && heap[t.id].LeafPage?
    ensures var l, r := TLeaf(t.id, es[..mid]), TLeaf(next, es[mid..]);
      var heap' := heap[next := LeafPage(ParentOf(p), heap[t.id].next, es[mid..])]
                       [t.id := LeafPage(ParentOf(p), next, es[..mid])];
      && Pending(heap', root, next + 1, p, l, r, 0, lo, es[mid].key, hi)
      && Entries(l) + Entries(r) == es
  {
    var heap1 := heap[next := LeafPage(ParentOf(p), heap[t.id].next, es[mid..])];
    var heap' := heap1[t.id := LeafPage(ParentOf(p), next, es[..mid])];
    LeafHalvesOrdered(t.id, next, es, mid, lo, hi);
    LeafSplitRep(heap, heap', p, t, next);
    LeafSplitChain(heap, heap', p, t, next);
    PlugRoot(p, t, TLeaf(t.id, es[..mid]));
  }

  lemma LeafHalvesOrdered(id: int, id': int, es: seq<Entry>, mid: nat, lo: int, hi: int)
    requires Ordered(TLeaf(id, es), lo, hi) && 0 < mid < |es|
    ensures Ordered(TLeaf(id, es[..mid]), lo, es[mid].key) && Ordered(TLeaf(id', es[mid..]), es[mid].key, hi)
    ensures lo < es[mid].key < hi && es[..mid] + es[mid..] == es
  {
    assert es[0].key < es[mid].key;
  }
}
