/** How full the nodes of a B+Tree are: splits go through the middle, so a tree that
    only grew has every node but the root at least half full.
 */
module TreeDensity {
  import opened Sequences
  import opened TreeModel
  import opened TreeEntries
  import opened TreeSplits

  const HALF := 25

  /** Every node here and below is at least half full. */
  predicate Dense(t: Tree) {
    match t
    case TLeaf(_, es) => |es| >= HALF
    case TNode(_, keys, kids) => |keys| >= HALF && forall i :: 0 <= i < |kids| ==> Dense(kids[i])
  }

  predicate AllDense(ts: seq<Tree>) {
    forall i :: 0 <= i < |ts| ==> Dense(ts[i])
  }

  /** Every node but the root is. */
  predicate DenseBelow(t: Tree) {
    t.TNode? ==> AllDense(t.kids)
  }

  /** The same of a tree with a subtree missing. */
  predicate DensePath(p: Path) {
    match p
    case Top => true
    case Step(up, _, keys, before, after, _, _) =>
      AllDense(before) && AllDense(after) && (up.Step? ==> |keys| >= HALF) && DensePath(up)
  }

  /** The subtree in the gap is as full as its place demands. */
  predicate DenseIn(p: Path, t: Tree) {
    if p.Top? then DenseBelow(t) else Dense(t)
  }

  lemma KidsDense(before: seq<Tree>, t: Tree, after: seq<Tree>)
    ensures AllDense(before + [t] + after) <==> AllDense(before) && Dense(t) && AllDense(after)
  {
    var all := before + [t] + after;
    if AllDense(all) {
      assert forall i :: 0 <= i < |before| ==> all[i] == before[i];
      assert all[|before|] == t;
      assert forall i :: 0 <= i < |after| ==> all[|before| + 1 + i] == after[i];
    }
  }

  lemma {:induction false} PlugDense(p: Path, t: Tree)
    ensures DenseBelow(Plug(p, t)) <==> DensePath(p) && DenseIn(p, t)
    decreases p
  {
    if p.Step? {
      var node := TNode(p.id, p.keys, p.before + [t] + p.after);
      PlugDense(p.up, node);
      KidsDense(p.before, t, p.after);
    }
  }

  lemma PairDense(l: Tree, r: Tree)
    requires Dense(l) && Dense(r)
    ensures AllDense([l, r])
  {
  }

  lemma JoinedDense(p: Path, l: Tree, r: Tree, sep: int)
    requires p.Step? && |p.before| <= |p.keys| && DensePath(p) && Dense(l) && Dense(r)
    ensures DensePath(p.up) && DenseIn(p.up, Joined(p, l, r, sep)) && AllDense(KidsWith(p, l, r))
  {
    var kids := KidsWith(p, l, r);
    forall i | 0 <= i < |kids| ensures Dense(kids[i]) {
      if i < |p.before| {
        assert kids[i] == p.before[i];
      } else if i >= |p.before| + 2 {
        assert kids[i] == p.after[i - |p.before| - 2];
      }
    }
  }

  lemma HalvesDense(t: Tree, mid: nat, id: int)
    requires t.TNode? && |t.keys| == MAX_KEYS + 1 && |t.kids| == MAX_KEYS + 2 && mid == HALF && AllDense(t.kids)
    ensures Dense(LeftHalf(t, mid)) && Dense(RightHalf(t, mid, id))
  {
  }

  lemma {:induction false} UpsertGrows(es: seq<Entry>, k: int, r: Rid)
    ensures |Upsert(es, k, r)| >= |es|
  {
    if es != [] && es[0].key < k { UpsertGrows(es[1..], k, r); }
  }
}
