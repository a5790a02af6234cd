/** What merging does to one place in a document: members added by any write are
    there, removals by any write stick, and of several values the latest wins.
    Stated along a path of live containers, for any way of merging, and for every
    run of the mesh.
 */
module Elements {
  import opened Wrappers
  import opened ByteStrings
  import opened Stamps
  import opened Lattice
  import opened Plans
  import opened Provenance
  import opened Codec
  import opened Mesh
  import opened Convergence

  /** Down to the end of the path every container that is there is live and of the
      given shape.  The end itself may be anything. */
  predicate Along(d: Doc, p: seq<bytes>, shapes: seq<Shape>)
    requires |p| == |shapes|
    decreases |p|
  {
    p != [] ==>
      && d.Node? && !d.dead && d.shape == shapes[0]
      && (p[0] in d.cells ==> Along(d.cells[p[0]].value, p[1..], shapes[1..]))
  }

  function Joined(a: Option<Doc>, b: Option<Doc>): Option<Doc> {
    if a.None? then b else if b.None? then a else Some(Join(a.value, b.value))
  }

  /** Along such a path merging is merging what is at its end. */
  lemma {:induction false} JoinAt(a: Doc, b: Doc, p: seq<bytes>, shapes: seq<Shape>)
    requires |p| == |shapes| && Along(a, p, shapes) && Along(b, p, shapes)
    ensures Along(Join(a, b), p, shapes) && At(Join(a, b), p) == Joined(At(a, p), At(b, p))
    decreases |p|
  {
    if p != [] {
      JoinMembers(a.ts, b.ts, a.shape, a.cells, b.cells);
      if p[0] in a.cells && p[0] in b.cells {
        JoinAt(a.cells[p[0]].value, b.cells[p[0]].value, p[1..], shapes[1..]);
      }
    }
  }

  ghost predicate AllAlong(s: set<Doc>, p: seq<bytes>, shapes: seq<Shape>)
    requires |p| == |shapes|
  {
    forall d :: d in s ==> Along(d, p, shapes)
  }

  // ------------------------------------------------------------------
  // Members of a container
  // ------------------------------------------------------------------

  /** What is at the end of the path, if anything, is a live container of that shape. */
  predicate Holder(d: Doc, p: seq<bytes>, shape: Shape) {
    At(d, p).Some? ==> At(d, p).value.Node? && !At(d, p).value.dead && At(d, p).value.shape == shape
  }

  predicate HasMember(d: Doc, p: seq<bytes>, n: bytes) {
    At(d, p).Some? && At(d, p).value.Node? && n in At(d, p).value.cells
  }

  predicate HasRemoved(d: Doc, p: seq<bytes>, n: bytes) {
    HasMember(d, p, n) && At(d, p).value.cells[n].removed
  }

  ghost predicate AnyHas(s: set<Doc>, p: seq<bytes>, n: bytes) {
    exists d :: d in s && HasMember(d, p, n)
  }

  ghost predicate AnyRemoved(s: set<Doc>, p: seq<bytes>, n: bytes) {
    exists d :: d in s && HasRemoved(d, p, n)
  }

  lemma MembersMeet(a: Doc, b: Doc, p: seq<bytes>, shapes: seq<Shape>, shape: Shape, n: bytes)
    requires |p| == |shapes| && Along(a, p, shapes) && Along(b, p, shapes) && Holder(a, p, shape) && Holder(b, p, shape)
    ensures Along(Join(a, b), p, shapes) && Holder(Join(a, b), p, shape)
    ensures HasMember(Join(a, b), p, n) <==> HasMember(a, p, n) || HasMember(b, p, n)
    ensures HasRemoved(Join(a, b), p, n) <==> HasRemoved(a, p, n) || HasRemoved(b, p, n)
  {
    JoinAt(a, b, p, shapes);
    if At(a, p).Some? && At(b, p).Some? {
      var x, y := At(a, p).value, At(b, p).value;
      JoinMembers(x.ts, y.ts, shape, x.cells, y.cells);
    }
  }

  /** However the writes were merged, a member is there exactly if some write has it,
      and removed exactly if some write removed it. */
  lemma {:induction false} MembersExactly(plan: Plan, p: seq<bytes>, shapes: seq<Shape>, shape: Shape, n: bytes)
    requires |p| == |shapes| && AllAlong(Inputs(plan), p, shapes)
    requires forall d :: d in Inputs(plan) ==> Holder(d, p, shape)
    ensures Along(Result(plan), p, shapes) && Holder(Result(plan), p, shape)
    ensures HasMember(Result(plan), p, n) <==> AnyHas(Inputs(plan), p, n)
    ensures HasRemoved(Result(plan), p, n) <==> AnyRemoved(Inputs(plan), p, n)
    decreases plan
  {
    match plan
    case One(d) =>
      assert d in Inputs(plan);
    case Two(l, r) =>
      MembersExactly(l, p, shapes, shape, n);
      MembersExactly(r, p, shapes, shape, n);
      MembersMeet(Result(l), Result(r), p, shapes, shape, n);
      AnyOfTwo(Inputs(l), Inputs(r), p, n);
  }

  lemma AnyOfTwo(s: set<Doc>, t: set<Doc>, p: seq<bytes>, n: bytes)
    ensures AnyHas(s + t, p, n) <==> AnyHas(s, p, n) || AnyHas(t, p, n)
    ensures AnyRemoved(s + t, p, n) <==> AnyRemoved(s, p, n) || AnyRemoved(t, p, n)
  {
    if AnyHas(s, p, n) {
      var d :| d in s && HasMember(d, p, n);
      assert d in s + t;
    }
    if AnyHas(t, p, n) {
      var d :| d in t && HasMember(d, p, n);
      assert d in s + t;
    }
    if AnyRemoved(s, p, n) {
      var d :| d in s && HasRemoved(d, p, n);
      assert d in s + t;
    }
    if AnyRemoved(t, p, n) {
      var d :| d in t && HasRemoved(d, p, n);
      assert d in s + t;
    }
  }

  // ------------------------------------------------------------------
  // One value
  // ------------------------------------------------------------------

  predicate Single(d: Doc, p: seq<bytes>) {
    At(d, p).Some? ==> At(d, p).value.Leaf?
  }

  /** Nothing in the set has a later value at the end of the path. */
  ghost predicate Latest(s: set<Doc>, p: seq<bytes>, v: Doc) {
    && (exists d :: d in s && At(d, p) == Some(v))
    && (forall d :: d in s && At(d, p).Some? ==> NotAfter(At(d, p).value.ts, v.ts))
  }

  lemma ValuesMeet(a: Doc, b: Doc, p: seq<bytes>, shapes: seq<Shape>)
    requires |p| == |shapes| && Along(a, p, shapes) && Along(b, p, shapes) && Single(a, p) && Single(b, p)
    ensures Along(Join(a, b), p, shapes) && Single(Join(a, b), p)
    ensures At(Join(a, b), p).None? <==> At(a, p).None? && At(b, p).None?
    ensures At(Join(a, b), p).Some? ==> At(Join(a, b), p) == At(a, p) || At(Join(a, b), p) == At(b, p)
    ensures At(a, p).Some? ==> NotAfter(At(a, p).value.ts, At(Join(a, b), p).value.ts)
    ensures At(b, p).Some? ==> NotAfter(At(b, p).value.ts, At(Join(a, b), p).value.ts)
  {
    JoinAt(a, b, p, shapes);
    StampOrder();
    if At(a, p).Some? && At(b, p).Some? { JoinWhole(At(a, p).value, At(b, p).value); }
  }

  /** However the writes were merged, where each has a scalar or a tombstone or
      nothing, the one with the latest stamp is what is left. */
  lemma {:induction false} LatestWins(plan: Plan, p: seq<bytes>, shapes: seq<Shape>)
    requires |p| == |shapes| && AllAlong(Inputs(plan), p, shapes) && forall d :: d in Inputs(plan) ==> Single(d, p)
    ensures Along(Result(plan), p, shapes) && Single(Result(plan), p)
    ensures At(Result(plan), p).None? <==> forall d :: d in Inputs(plan) ==> At(d, p).None?
    ensures At(Result(plan), p).Some? ==> Latest(Inputs(plan), p, At(Result(plan), p).value)
    decreases plan
  {
    StampOrder();
    match plan
    case One(d) =>
      assert d in Inputs(plan);
    case Two(l, r) =>
      LatestWins(l, p, shapes);
      LatestWins(r, p, shapes);
      ValuesMeet(Result(l), Result(r), p, shapes);
      LatestOfTwo(plan, p);
  }

  lemma LatestOfTwo(plan: Plan, p: seq<bytes>)
    requires plan.Two?
    requires var l, r, d := Result(plan.left), Result(plan.right), Result(plan);
      && (At(l, p).None? <==> forall x :: x in Inputs(plan.left) ==> At(x, p).None?)
      && (At(r, p).None? <==> forall x :: x in Inputs(plan.right) ==> At(x, p).None?)
      && (At(l, p).Some? ==> Latest(Inputs(plan.left), p, At(l, p).value))
      && (At(r, p).Some? ==> Latest(Inputs(plan.right), p, At(r, p).value))
      && (At(d, p).None? <==> At(l, p).None? && At(r, p).None?)
      && (At(d, p).Some? ==> At(d, p) == At(l, p) || At(d, p) == At(r, p))
      && (At(l, p).Some? ==> NotAfter(At(l, p).value.ts, At(d, p).value.ts))
      && (At(r, p).Some? ==> NotAfter(At(r, p).value.ts, At(d, p).value.ts))
    ensures At(Result(plan), p).None? <==> forall d :: d in Inputs(plan) ==> At(d, p).None?
    ensures At(Result(plan), p).Some? ==> Latest(Inputs(plan), p, At(Result(plan), p).value)
  {
    StampOrder();
    var l, r, d := Result(plan.left), Result(plan.right), Result(plan);
    if At(d, p).Some? {
      var v := At(d, p).value;
      if At(d, p) == At(l, p) {
        var x :| x in Inputs(plan.left) && At(x, p) == Some(v);
        assert x in Inputs(plan);
      } else {
        var x :| x in Inputs(plan.right) && At(x, p) == Some(v);
        assert x in Inputs(plan);
      }
      forall x | x in Inputs(plan) && At(x, p).Some? ensures NotAfter(At(x, p).value.ts, v.ts) {
        if x in Inputs(plan.left) {
          BelowBoth(At(x, p).value.ts, At(l, p).value.ts, v.ts);
        } else {
          BelowBoth(At(x, p).value.ts, At(r, p).value.ts, v.ts);
        }
      }
    }
  }

  lemma BelowBoth(a: Timestamp, b: Timestamp, c: Timestamp)
    requires NotAfter(a, b) && NotAfter(b, c)
    ensures NotAfter(a, c)
  {
    StampOrder();
  }

  // ------------------------------------------------------------------
  // Every run
  // ------------------------------------------------------------------

  /** At the end of every run, while the path leads through live containers in every
      write a node has absorbed, its copy has exactly the members those writes have
      there and has removed exactly those that one of them removed. */
  lemma MembersInRuns(hash: bytes -> bytes, w: World, steps: seq<Step>, vias: seq<Plan>, end: World, h: History,
                      m: bytes, k: bytes, p: seq<bytes>, shapes: seq<Shape>, shape: Shape, n: bytes)
    requires Initial(w) && TracedRun(hash, w, NoHistory(), steps, vias, end, h)
    requires m in end.nodes && k in end.nodes[m].store && |p| == |shapes|
    ensures m in h.held && k in h.held[m] && Decode(end.nodes[m].store[k]).Some?
    ensures var s, d := Inputs(PlanOf(h, m, k)), Meaning(end.nodes[m].store[k]);
      AllAlong(s, p, shapes) && (forall x :: x in s ==> Holder(x, p, shape)) ==>
        (HasMember(d, p, n) <==> AnyHas(s, p, n)) && (HasRemoved(d, p, n) <==> AnyRemoved(s, p, n))
  {
    TracedKeeps(hash, w, NoHistory(), steps, vias, end, h);
    HeldMembers(hash, end, h, m, k, p, shapes, shape, n);
  }

  lemma HeldMembers(hash: bytes -> bytes, w: World, h: History, m: bytes, k: bytes, p: seq<bytes>, shapes: seq<Shape>,
                    shape: Shape, n: bytes)
    requires Inv(hash, w) && Told(w, h) && m in w.nodes && k in w.nodes[m].store && |p| == |shapes|
    ensures m in h.held && k in h.held[m] && Decode(w.nodes[m].store[k]).Some?
    ensures var s, d := Inputs(PlanOf(h, m, k)), Meaning(w.nodes[m].store[k]);
      AllAlong(s, p, shapes) && (forall x :: x in s ==> Holder(x, p, shape)) ==>
        (HasMember(d, p, n) <==> AnyHas(s, p, n)) && (HasRemoved(d, p, n) <==> AnyRemoved(s, p, n))
  {
    HeldExplained(hash, w, h, m, k);
    var plan := PlanOf(h, m, k);
    if AllAlong(Inputs(plan), p, shapes) && forall x :: x in Inputs(plan) ==> Holder(x, p, shape) {
      MembersExactly(plan, p, shapes, shape, n);
    }
  }

  /** ... and where they have single values there, the latest one. */
  lemma LatestInRuns(hash: bytes -> bytes, w: World, steps: seq<Step>, vias: seq<Plan>, end: World, h: History,
                     m: bytes, k: bytes, p: seq<bytes>, shapes: seq<Shape>)
    requires Initial(w) && TracedRun(hash, w, NoHistory(), steps, vias, end, h)
    requires m in end.nodes && k in end.nodes[m].store && |p| == |shapes|
    ensures m in h.held && k in h.held[m] && Decode(end.nodes[m].store[k]).Some?
    ensures var s, d := Inputs(PlanOf(h, m, k)), Meaning(end.nodes[m].store[k]);
      AllAlong(s, p, shapes) && (forall x :: x in s ==> Single(x, p)) ==>
        && (At(d, p).None? <==> forall x :: x in s ==> At(x, p).None?)
        && (At(d, p).Some? ==> Latest(s, p, At(d, p).value))
  {
    TracedKeeps(hash, w, NoHistory(), steps, vias, end, h);
    HeldLatest(hash, end, h, m, k, p, shapes);
  }

  lemma HeldLatest(hash: bytes -> bytes, w: World, h: History, m: bytes, k: bytes, p: seq<bytes>, shapes: seq<Shape>)
    requires Inv(hash, w) && Told(w, h) && m in w.nodes && k in w.nodes[m].store && |p| == |shapes|
    ensures m in h.held && k in h.held[m] && Decode(w.nodes[m].store[k]).Some?
    ensures var s, d := Inputs(PlanOf(h, m, k)), Meaning(w.nodes[m].store[k]);
      AllAlong(s, p, shapes) && (forall x :: x in s ==> Single(x, p)) ==>
        && (At(d, p).None? <==> forall x :: x in s ==> At(x, p).None?)
        && (At(d, p).Some? ==> Latest(s, p, At(d, p).value))
  {
    HeldExplained(hash, w, h, m, k);
    var plan := PlanOf(h, m, k);
    if AllAlong(Inputs(plan), p, shapes) && forall x :: x in Inputs(plan) ==> Single(x, p) {
      LatestWins(plan, p, shapes);
    }
  }
}
