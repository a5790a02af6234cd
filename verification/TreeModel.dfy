/** The B+Tree as a value, and how pages represent it: trees, the path from
    the root to a subtree, and what a page heap must hold for both.

    A key stands for its place in the order of the stored strings; see
    `KeySlots` for why the strings embed in the numbers.
 */
module TreeModel {
  import opened Sequences
  import opened ByteStrings

  const MAX_KEYS := 50
  const NO_PAGE := -1
  const KEY_LIMIT := Pow256(64)

  datatype Rid = Rid(page: int, slot: int)
  datatype Entry = Entry(key: int, rid: Rid)

  datatype Page =
    | LeafPage(parent: int, next: int, entries: seq<Entry>)
    | NodePage(parent: int, keys: seq<int>, children: seq<int>)

  type Heap = map<int, Page>

  datatype Tree =
    | TLeaf(id: int, entries: seq<Entry>)
    | TNode(id: int, keys: seq<int>, kids: seq<Tree>)

  // ------------------------------------------------------------------
  // Contents, leaves and pages, in order
  // ------------------------------------------------------------------

  function Entries(t: Tree): seq<Entry>
    decreases t, 1
  {
    match t
    case TLeaf(_, es) => es
    case TNode(_, _, kids) => AllEntries(kids)
  }

  function AllEntries(ts: seq<Tree>): seq<Entry>
    decreases ts, 0
  {
    if ts == [] then [] else Entries(ts[0]) + AllEntries(ts[1..])
  }

  function Leaves(t: Tree): seq<int>
    decreases t, 1
  {
    match t
    case TLeaf(id, _) => [id]
    case TNode(_, _, kids) => AllLeaves(kids)
  }

  function AllLeaves(ts: seq<Tree>): seq<int>
    decreases ts, 0
  {
    if ts == [] then [] else Leaves(ts[0]) + AllLeaves(ts[1..])
  }

  function Pages(t: Tree): multiset<int>
    decreases t, 1
  {
    match t
    case TLeaf(id, _) => multiset{id}
    case TNode(id, _, kids) => multiset{id} + AllPages(kids)
  }

  function AllPages(ts: seq<Tree>): multiset<int>
    decreases ts, 0
  {
    if ts == [] then multiset{} else Pages(ts[0]) + AllPages(ts[1..])
  }

  function Ids(ts: seq<Tree>): (ids: seq<int>)
    ensures |ids| == |ts|
    ensures forall i :: 0 <= i < |ts| ==> ids[i] == ts[i].id
  {
    seq(|ts|, i requires 0 <= i < |ts| => ts[i].id)
  }

  lemma {:induction false} EntriesAppend(a: seq<Tree>, b: seq<Tree>)
    ensures AllEntries(a + b) == AllEntries(a) + AllEntries(b)
  {
    if a == [] {
      AppendNone(b);
      AppendNone(AllEntries(b));
    } else {
      EntriesAppend(a[1..], b);
      AppendTail(a, b);
      AppendAssociates(Entries(a[0]), AllEntries(a[1..]), AllEntries(b));
    }
  }

  lemma {:induction false} LeavesAppend(a: seq<Tree>, b: seq<Tree>)
    ensures AllLeaves(a + b) == AllLeaves(a) + AllLeaves(b)
  {
    if a == [] {
      AppendNone(b);
      AppendNone(AllLeaves(b));
    } else {
      LeavesAppend(a[1..], b);
      AppendTail(a, b);
      AppendAssociates(Leaves(a[0]), AllLeaves(a[1..]), AllLeaves(b));
    }
  }

  lemma {:induction false} PagesAppend(a: seq<Tree>, b: seq<Tree>)
    ensures AllPages(a + b) == AllPages(a) + AllPages(b)
  {
    if a == [] {
      AppendNone(b);
      SumNone(AllPages(b));
    } else {
      PagesAppend(a[1..], b);
      AppendTail(a, b);
      SumAssociates(Pages(a[0]), AllPages(a[1..]), AllPages(b));
    }
  }

  lemma SumNone(x: multiset<int>)
    ensures multiset{} + x == x
  {
  }

  lemma SumAssociates(x: multiset<int>, y: multiset<int>, z: multiset<int>)
    ensures x + (y + z) == x + y + z
  {
  }

  lemma AllOne(t: Tree)
    ensures AllEntries([t]) == Entries(t) && AllLeaves([t]) == Leaves(t) && AllPages([t]) == Pages(t)
  {
    assert [t][1..] == [];
  }

  lemma {:induction false} KidPages(ts: seq<Tree>, i: nat)
    requires i < |ts|
    ensures Pages(ts[i]) <= AllPages(ts)
  {
    if i > 0 {
      KidPages(ts[1..], i - 1);
    }
  }

  lemma RootPage(t: Tree)
    ensures t.id in Pages(t)
  {
  }

  ghost predicate Unique(m: multiset<int>) {
    forall x :: m[x] <= 1
  }

  // ------------------------------------------------------------------
  // Well-formedness
  // ------------------------------------------------------------------

  predicate AscendingKeys(keys: seq<int>) {
    forall i, j :: 0 <= i < j < |keys| ==> keys[i] < keys[j]
  }

  predicate AscendingEntries(es: seq<Entry>) {
    forall i, j :: 0 <= i < j < |es| ==> es[i].key < es[j].key
  }

  /** Height `h` everywhere, nodes neither overfull nor without a key. */
  predicate Shape(t: Tree, h: nat) {
    match t
    case TLeaf(_, es) => h == 0 && |es| <= MAX_KEYS
    case TNode(_, keys, kids) =>
      && h > 0 && 1 <= |keys| <= MAX_KEYS && |kids| == |keys| + 1
      && forall i :: 0 <= i < |kids| ==> Shape(kids[i], h - 1)
  }

  function Lower(lo: int, keys: seq<int>, i: nat): int
    requires i <= |keys|
  {
    if i == 0 then lo else keys[i - 1]
  }

  function Upper(keys: seq<int>, hi: int, i: nat): int
    requires i <= |keys|
  {
    if i == |keys| then hi else keys[i]
  }

  predicate KeysWithin(keys: seq<int>, lo: int, hi: int) {
    AscendingKeys(keys) && forall i :: 0 <= i < |keys| ==> lo < keys[i] < hi
  }

  /** Every key below is in [lo, hi), and separators bound the subtrees. */
  predicate Ordered(t: Tree, lo: int, hi: int) {
    match t
    case TLeaf(_, es) => AscendingEntries(es) && forall i :: 0 <= i < |es| ==> lo <= es[i].key < hi
    case TNode(_, keys, kids) =>
      && KeysWithin(keys, lo, hi) && |kids| == |keys| + 1
      && forall i :: 0 <= i < |kids| ==> Ordered(kids[i], Lower(lo, keys, i), Upper(keys, hi, i))
  }

  /** The pages hold the tree, each with the right parent. */
  predicate Rep(heap: Heap, t: Tree, parent: int) {
    t.id in heap &&
    match t
    case TLeaf(id, es) => heap[id].LeafPage? && heap[id].parent == parent && heap[id].entries == es
    case TNode(id, keys, kids) =>
      && heap[id] == NodePage(parent, keys, Ids(kids))
      && forall i :: 0 <= i < |kids| ==> Rep(heap, kids[i], id)
  }

  /** Each leaf points to the next, the last to `end`. */
  predicate Chained(heap: Heap, leaves: seq<int>, end: int) {
    forall i :: 0 <= i < |leaves| ==> LinkAt(heap, leaves, end, i)
  }

  predicate LinkAt(heap: Heap, leaves: seq<int>, end: int, i: nat)
    requires i < |leaves|
  {
    && leaves[i] in heap && heap[leaves[i]].LeafPage?
    && heap[leaves[i]].next == if i + 1 < |leaves| then leaves[i + 1] else end
  }

  lemma {:induction false} RepFrame(heap: Heap, heap': Heap, t: Tree, parent: int)
    requires Rep(heap, t, parent)
    requires SameOn(heap, heap', Pages(t))
    ensures Rep(heap', t, parent)
    decreases t
  {
    RootPage(t);
    if t.TNode? {
      forall i | 0 <= i < |t.kids| ensures Rep(heap', t.kids[i], t.id) {
        KidPages(t.kids, i);
        RepFrame(heap, heap', t.kids[i], t.id);
      }
    }
  }

  /** A subtree moves under another parent by changing one page. */
  lemma Reparent(heap: Heap, t: Tree, parent: int, parent': int)
    requires Rep(heap, t, parent) && Unique(Pages(t))
    ensures Rep(heap[t.id := heap[t.id].(parent := parent')], t, parent')
  {
    var heap' := heap[t.id := heap[t.id].(parent := parent')];
    if t.TNode? {
      forall i | 0 <= i < |t.kids| ensures Rep(heap', t.kids[i], t.id) {
        NotInKid(t, i);
        RepFrame(heap, heap', t.kids[i], t.id);
      }
    }
  }

  /** A node's own page is not among a child's. */
  lemma NotInKid(t: Tree, i: nat)
    requires t.TNode? && i < |t.kids| && Unique(Pages(t))
    ensures t.id !in Pages(t.kids[i])
  {
    KidPages(t.kids, i);
    assert Pages(t)[t.id] == 1 + AllPages(t.kids)[t.id];
    assert Pages(t.kids[i])[t.id] <= AllPages(t.kids)[t.id];
  }

  // ------------------------------------------------------------------
  // Paths
  // ------------------------------------------------------------------

  /** A tree with one subtree missing, seen from the gap upward; `low` and
      `high` bound the node around the gap. */
  datatype Path = Top | Step(up: Path, id: int, keys: seq<int>, before: seq<Tree>, after: seq<Tree>, low: int,
                             high: int)

  function Plug(p: Path, t: Tree): Tree
    decreases p
  {
    match p
    case Top => t
    case Step(up, id, keys, before, after, _, _) => Plug(up, TNode(id, keys, before + [t] + after))
  }

  function ParentOf(p: Path): int {
    match p
    case Top => NO_PAGE
    case Step(_, id, _, _, _, _, _) => id
  }

  function EntriesBefore(p: Path): seq<Entry> {
    match p
    case Top => []
    case Step(up, _, _, before, _, _, _) => EntriesBefore(up) + AllEntries(before)
  }

  function EntriesAfter(p: Path): seq<Entry> {
    match p
    case Top => []
    case Step(up, _, _, _, after, _, _) => AllEntries(after) + EntriesAfter(up)
  }

  function LeavesBefore(p: Path): seq<int> {
    match p
    case Top => []
    case Step(up, _, _, before, _, _, _) => LeavesBefore(up) + AllLeaves(before)
  }

  function LeavesAfter(p: Path): seq<int> {
    match p
    case Top => []
    case Step(up, _, _, _, after, _, _) => AllLeaves(after) + LeavesAfter(up)
  }

  /** The leaves of the whole tree, given those in the gap. */
  function PathLeaves(p: Path, mid: seq<int>): seq<int> {
    match p
    case Top => mid
    case Step(up, _, _, before, after, _, _) => PathLeaves(up, AllLeaves(before) + mid + AllLeaves(after))
  }

  /** The entries of the whole tree, given those in the gap. */
  function PathEntries(p: Path, mid: seq<Entry>): seq<Entry> {
    match p
    case Top => mid
    case Step(up, _, _, before, after, _, _) => PathEntries(up, AllEntries(before) + mid + AllEntries(after))
  }

  function PathPages(p: Path): multiset<int> {
    match p
    case Top => multiset{}
    case Step(up, id, _, before, after, _, _) => multiset{id} + AllPages(before) + AllPages(after) + PathPages(up)
  }

  /** A gap for a subtree of height `h`. */
  predicate PathShape(p: Path, h: nat)
    decreases p
  {
    match p
    case Top => true
    case Step(up, _, keys, before, after, _, _) =>
      && 1 <= |keys| <= MAX_KEYS && |before| + |after| == |keys|
      && (forall i :: 0 <= i < |before| ==> Shape(before[i], h))
      && (forall i :: 0 <= i < |after| ==> Shape(after[i], h))
      && PathShape(up, h + 1)
  }

  function Length(p: Path): nat {
    match p
    case Top => 0
    case Step(up, _, _, _, _, _, _) => 1 + Length(up)
  }

  /** A gap for keys in [lo, hi). */
  predicate PathOrdered(p: Path, lo: int, hi: int)
    decreases p
  {
    match p
    case Top => lo == 0 && hi == KEY_LIMIT
    case Step(up, _, keys, before, after, low, high) =>
      && |before| + |after| == |keys|
      && StepOrdered(keys, before, after, lo, hi, low, high)
      && PathOrdered(up, low, high)
  }

  /** ... in a node whose own keys are in (low, high). */
  predicate StepOrdered(keys: seq<int>, before: seq<Tree>, after: seq<Tree>, lo: int, hi: int, low: int, high: int)
    requires |before| + |after| == |keys|
  {
    var j := |before|;
    && KeysWithin(keys, low, high)
    && lo == Lower(low, keys, j) && hi == Upper(keys, high, j)
    && (forall i :: 0 <= i < j ==> Ordered(before[i], Lower(low, keys, i), Upper(keys, high, i)))
    && (forall i :: 0 <= i < |after| ==> Ordered(after[i], Lower(low, keys, j + 1 + i), Upper(keys, high, j + 1 + i)))
  }

  predicate PathRep(heap: Heap, p: Path, hole: int)
    decreases p
  {
    match p
    case Top => true
    case Step(up, id, keys, before, after, _, _) =>
      && id in heap && heap[id] == NodePage(ParentOf(up), keys, Ids(before) + [hole] + Ids(after))
      && (forall i :: 0 <= i < |before| ==> Rep(heap, before[i], id))
      && (forall i :: 0 <= i < |after| ==> Rep(heap, after[i], id))
      && PathRep(heap, up, id)
  }

  // ------------------------------------------------------------------
  // Plugging a subtree into a path
  // ------------------------------------------------------------------

  lemma SeqRearranged<T>(u: seq<T>, b: seq<T>, t: seq<T>, a: seq<T>, v: seq<T>)
    ensures u + (b + t + a) + v == (u + b) + t + (a + v)
  {
  }

  lemma {:induction false} PlugEntries(p: Path, t: Tree)
    ensures Entries(Plug(p, t)) == PathEntries(p, Entries(t))
    decreases p
  {
    if p.Step? {
      PlugEntries(p.up, TNode(p.id, p.keys, p.before + [t] + p.after));
      KidsContents(p.before, t, p.after);
    }
  }

  lemma {:induction false} PathEntriesSplit(p: Path, mid: seq<Entry>)
    ensures PathEntries(p, mid) == EntriesBefore(p) + mid + EntriesAfter(p)
    decreases p
  {
    if p.Step? {
      PathEntriesSplit(p.up, AllEntries(p.before) + mid + AllEntries(p.after));
      SeqRearranged(EntriesBefore(p.up), AllEntries(p.before), mid, AllEntries(p.after), EntriesAfter(p.up));
    }
  }

  lemma {:induction false} PlugLeaves(p: Path, t: Tree)
    ensures Leaves(Plug(p, t)) == PathLeaves(p, Leaves(t))
    decreases p
  {
    if p.Step? {
      PlugLeaves(p.up, TNode(p.id, p.keys, p.before + [t] + p.after));
      KidsContents(p.before, t, p.after);
    }
  }

  lemma {:induction false} PathLeavesSplit(p: Path, mid: seq<int>)
    ensures PathLeaves(p, mid) == LeavesBefore(p) + mid + LeavesAfter(p)
    decreases p
  {
    if p.Step? {
      PathLeavesSplit(p.up, AllLeaves(p.before) + mid + AllLeaves(p.after));
      SeqRearranged(LeavesBefore(p.up), AllLeaves(p.before), mid, AllLeaves(p.after), LeavesAfter(p.up));
    }
  }

  lemma {:induction false} LeafPages(t: Tree, x: int)
    requires x in Leaves(t)
    ensures x in Pages(t)
    decreases t, 1
  {
    if t.TNode? {
      AllLeafPages(t.kids, x);
    }
  }

  lemma {:induction false} AllLeafPages(ts: seq<Tree>, x: int)
    requires x in AllLeaves(ts)
    ensures x in AllPages(ts)
    decreases ts, 0
  {
    if ts != [] {
      if x in Leaves(ts[0]) { LeafPages(ts[0], x); } else { AllLeafPages(ts[1..], x); }
    }
  }

  lemma {:induction false} PathLeafPages(p: Path, x: int)
    requires x in LeavesBefore(p) || x in LeavesAfter(p)
    ensures x in PathPages(p)
    decreases p
  {
    if p.Step? {
      PathParts(p);
      if x in AllLeaves(p.before) { AllLeafPages(p.before, x); }
      else if x in AllLeaves(p.after) { AllLeafPages(p.after, x); }
      else { PathLeafPages(p.up, x); }
    }
  }

  lemma {:induction false} PlugPages(p: Path, t: Tree)
    ensures Pages(Plug(p, t)) == PathPages(p) + Pages(t)
    decreases p
  {
    if p.Step? {
      var node := TNode(p.id, p.keys, p.before + [t] + p.after);
      PlugPages(p.up, node);
      KidsContents(p.before, t, p.after);
      SumRearranged(PathPages(p.up), multiset{p.id}, AllPages(p.before), Pages(t), AllPages(p.after));
    }
  }

  lemma SumRearranged(u: multiset<int>, i: multiset<int>, b: multiset<int>, t: multiset<int>, a: multiset<int>)
    ensures u + (i + (b + t + a)) == i + b + a + u + t
  {
  }

  lemma KidsContents(before: seq<Tree>, t: Tree, after: seq<Tree>)
    ensures AllEntries(before + [t] + after) == AllEntries(before) + Entries(t) + AllEntries(after)
    ensures AllLeaves(before + [t] + after) == AllLeaves(before) + Leaves(t) + AllLeaves(after)
    ensures AllPages(before + [t] + after) == AllPages(before) + Pages(t) + AllPages(after)
  {
    AllOne(t);
    EntriesAppend(before + [t], after);
    EntriesAppend(before, [t]);
    LeavesAppend(before + [t], after);
    LeavesAppend(before, [t]);
    PagesAppend(before + [t], after);
    PagesAppend(before, [t]);
  }

  lemma {:induction false} PlugShape(p: Path, t: Tree, h: nat)
    requires PathShape(p, h) && Shape(t, h)
    ensures Shape(Plug(p, t), h + Length(p))
    decreases p
  {
    if p.Step? {
      PlugShape(p.up, TNode(p.id, p.keys, p.before + [t] + p.after), h + 1);
    }
  }

  lemma {:induction false} PlugOrdered(p: Path, t: Tree, lo: int, hi: int)
    requires PathOrdered(p, lo, hi) && Ordered(t, lo, hi)
    ensures Ordered(Plug(p, t), 0, KEY_LIMIT)
    decreases p
  {
    if p.Step? {
      NodeOrdered(p.id, p.keys, p.before, t, p.after, lo, hi, p.low, p.high);
      PlugOrdered(p.up, TNode(p.id, p.keys, p.before + [t] + p.after), p.low, p.high);
    }
  }

  lemma NodeOrdered(id: int, keys: seq<int>, before: seq<Tree>, t: Tree, after: seq<Tree>, lo: int, hi: int, low: int,
                    high: int)
    requires |before| + |after| == |keys|
    requires StepOrdered(keys, before, after, lo, hi, low, high) && Ordered(t, lo, hi)
    ensures Ordered(TNode(id, keys, before + [t] + after), low, high)
  {
    var kids := before + [t] + after;
    forall i | 0 <= i < |kids| ensures Ordered(kids[i], Lower(low, keys, i), Upper(keys, high, i)) {
      if i > |before| {
        assert kids[i] == after[i - |before| - 1];
      }
    }
  }

  lemma {:induction false} PlugRep(heap: Heap, p: Path, t: Tree)
    requires PathRep(heap, p, t.id) && Rep(heap, t, ParentOf(p))
    ensures Rep(heap, Plug(p, t), NO_PAGE)
    decreases p
  {
    if p.Step? {
      var node := TNode(p.id, p.keys, p.before + [t] + p.after);
      assert Ids(node.kids) == Ids(p.before) + [t.id] + Ids(p.after);
      forall i | 0 <= i < |node.kids| ensures Rep(heap, node.kids[i], p.id) {
        if i > |p.before| {
          assert node.kids[i] == p.after[i - |p.before| - 1];
        }
      }
      PlugRep(heap, p.up, node);
    }
  }

  lemma PathParts(p: Path)
    requires p.Step?
    ensures p.id in PathPages(p) && PathPages(p.up) <= PathPages(p)
    ensures AllPages(p.before) <= PathPages(p) && AllPages(p.after) <= PathPages(p)
  {
  }

  ghost predicate SameOn(heap: Heap, heap': Heap, ids: multiset<int>) {
    forall id :: id in ids && id in heap ==> id in heap' && heap'[id] == heap[id]
  }

  lemma {:induction false} PathFrame(heap: Heap, heap': Heap, p: Path, hole: int)
    requires PathRep(heap, p, hole) && SameOn(heap, heap', PathPages(p))
    ensures PathRep(heap', p, hole)
    decreases p
  {
    if p.Step? {
      PathParts(p);
      KidsFrame(heap, heap', p.before, p.id);
      KidsFrame(heap, heap', p.after, p.id);
      PathFrame(heap, heap', p.up, p.id);
    }
  }

  lemma KidsFrame(heap: Heap, heap': Heap, ts: seq<Tree>, parent: int)
    requires SameOn(heap, heap', AllPages(ts))
    requires forall i :: 0 <= i < |ts| ==> Rep(heap, ts[i], parent)
    ensures forall i :: 0 <= i < |ts| ==> Rep(heap', ts[i], parent)
  {
    forall i | 0 <= i < |ts| ensures Rep(heap', ts[i], parent) {
      KidPages(ts, i);
      RepFrame(heap, heap', ts[i], parent);
    }
  }
}
