/** Merging a set of replica states in any order, grouping and multiplicity: when
    all ways give the same document, exactly.
 */
module Plans {
  import opened ByteStrings
  import opened Stamps
  import opened Lattice

  /** One way of merging a collection of replica states pairwise. */
  datatype Plan = One(doc: Doc) | Two(left: Plan, right: Plan)

  function Result(p: Plan): Doc {
    match p
    case One(d) => d
    case Two(l, r) => Join(Result(l), Result(r))
  }

  function Inputs(p: Plan): set<Doc> {
    match p
    case One(d) => {d}
    case Two(l, r) => Inputs(l) + Inputs(r)
  }

  /** Any two of the states commute and any three associate. */
  ghost predicate Lawful(s: set<Doc>) {
    && (forall a, b :: a in s && b in s ==> Compat(a, b))
    && (forall a, b, c :: a in s && b in s && c in s ==> Associates(a, b, c))
  }

  // ------------------------------------------------------------------
  // Three states, in no particular order
  // ------------------------------------------------------------------

  /** If something `b` cannot merge with is stamped between `b` and `a`, then `a`
      already has all of `b`. */
  ghost predicate Buried(a: Doc, b: Doc, c: Doc) {
    Mergeable(a, b) && !Mergeable(b, c) && Before(b.ts, c.ts) && Before(c.ts, a.ts) ==> Join(a, b) == a
  }

  ghost predicate Agree(a: Doc, b: Doc, c: Doc)
    decreases a
  {
    if Mergeable(a, b) && Mergeable(b, c) then
      forall n :: n in a.cells && n in b.cells && n in c.cells ==>
        Agree(a.cells[n].value, b.cells[n].value, c.cells[n].value)
    else
      && Buried(a, b, c) && Buried(b, a, c)
      && Buried(a, c, b) && Buried(c, a, b)
      && Buried(b, c, a) && Buried(c, b, a)
  }

  ghost predicate Pairwise(a: Doc, b: Doc, c: Doc) {
    Compat(a, b) && Compat(a, c) && Compat(b, c)
  }

  lemma {:induction false} AgreeSwaps(a: Doc, b: Doc, c: Doc)
    requires Agree(a, b, c)
    ensures Agree(b, a, c) && Agree(a, c, b)
    decreases a
  {
    if Mergeable(a, b) && Mergeable(b, c) {
      forall n | n in a.cells && n in b.cells && n in c.cells
        ensures Agree(b.cells[n].value, a.cells[n].value, c.cells[n].value)
        ensures Agree(a.cells[n].value, c.cells[n].value, b.cells[n].value)
      {
        AgreeSwaps(a.cells[n].value, b.cells[n].value, c.cells[n].value);
      }
    }
  }

  /** Compatible states of different kinds have different stamps. */
  lemma Apart(a: Doc, b: Doc, c: Doc)
    requires Compat(a, c) && Mergeable(a, b) && !Mergeable(b, c)
    ensures a.ts != c.ts
  {
  }

  lemma {:induction false} AgreeAssociates(a: Doc, b: Doc, c: Doc)
    requires Pairwise(a, b, c) && Agree(a, b, c)
    ensures Associates(a, b, c)
    decreases a
  {
    if Mergeable(a, b) && Mergeable(b, c) {
      forall n | n in a.cells && n in b.cells && n in c.cells
        ensures Associates(a.cells[n].value, b.cells[n].value, c.cells[n].value)
      {
        AgreeAssociates(a.cells[n].value, b.cells[n].value, c.cells[n].value);
      }
    } else {
      MixedAssociates(a, b, c);
    }
  }

  lemma MixedAssociates(a: Doc, b: Doc, c: Doc)
    requires Pairwise(a, b, c) && Agree(a, b, c) && !(Mergeable(a, b) && Mergeable(b, c))
    ensures Associates(a, b, c)
  {
    StampOrder();
    if Mergeable(a, b) {
      Apart(a, b, c);
      KeepsLeftExactly(a, b);
    } else if Mergeable(b, c) {
      Apart(c, b, a);
      Apart(b, c, a);
      JoinCommutes(b, c);
      KeepsRightExactly(b, c);
    } else if Mergeable(a, c) {
      Apart(a, c, b);
      Apart(c, a, b);
      JoinCommutes(a, c);
      KeepsLeftExactly(a, c);
      KeepsRightExactly(a, c);
    }
  }

  ghost predicate AllWays(a: Doc, b: Doc, c: Doc) {
    && Associates(a, b, c) && Associates(a, c, b) && Associates(b, a, c)
    && Associates(b, c, a) && Associates(c, a, b) && Associates(c, b, a)
  }

  lemma {:induction false} AssociatesAgree(a: Doc, b: Doc, c: Doc)
    requires AllWays(a, b, c)
    ensures Agree(a, b, c)
    decreases a
  {
    if Mergeable(a, b) && Mergeable(b, c) {
      forall n | n in a.cells && n in b.cells && n in c.cells
        ensures Agree(a.cells[n].value, b.cells[n].value, c.cells[n].value)
      {
        AssociatesAgree(a.cells[n].value, b.cells[n].value, c.cells[n].value);
      }
    } else {
      BuriedBy(a, b, c);
      BuriedBy(b, a, c);
      BuriedBy(a, c, b);
      BuriedBy(c, a, b);
      BuriedBy(b, c, a);
      BuriedBy(c, b, a);
    }
  }

  lemma BuriedBy(a: Doc, b: Doc, c: Doc)
    requires Associates(a, b, c)
    ensures Buried(a, b, c)
  {
    StampOrder();
    KeepsLeftExactly(a, b);
  }

  // ------------------------------------------------------------------
  // A join agrees where its parts do
  // ------------------------------------------------------------------

  /** Four states, any two compatible and any three agreeing. */
  ghost predicate Four(a: Doc, b: Doc, c: Doc, d: Doc) {
    && Pairwise(a, b, c) && Compat(a, d) && Compat(b, d) && Compat(c, d)
    && Agree(a, b, c) && Agree(a, b, d) && Agree(a, c, d) && Agree(b, c, d)
  }

  lemma {:induction false} JoinAgrees(a: Doc, b: Doc, c: Doc, d: Doc)
    requires Four(a, b, c, d)
    ensures Agree(Join(a, b), c, d)
    decreases a
  {
    if Mergeable(a, b) {
      if Mergeable(a, c) && Mergeable(c, d) {
        var j := Join(a, b);
        forall n | n in j.cells && n in c.cells && n in d.cells
          ensures Agree(j.cells[n].value, c.cells[n].value, d.cells[n].value)
        {
          if n in a.cells && n in b.cells {
            JoinAgrees(a.cells[n].value, b.cells[n].value, c.cells[n].value, d.cells[n].value);
          }
        }
      } else {
        JoinBuries(a, b, c, d);
        FourSwaps(a, b, c, d);
        JoinBuries(a, b, d, c);
      }
    }
  }

  lemma FourSwaps(a: Doc, b: Doc, c: Doc, d: Doc)
    requires Four(a, b, c, d)
    ensures Four(a, b, d, c)
  {
    AgreeSwaps(a, c, d);
    AgreeSwaps(b, c, d);
    CompatSymmetric(c, d);
  }

  /** The join stands in time where one of its parts does. */
  lemma JoinBuries(a: Doc, b: Doc, c: Doc, d: Doc)
    requires Four(a, b, c, d) && Mergeable(a, b) && !(Mergeable(a, c) && Mergeable(c, d))
    ensures Buried(Join(a, b), c, d) && Buried(c, Join(a, b), d) && Buried(c, d, Join(a, b))
  {
    JoinAbove(a, b, c, d);
    JoinBelow(a, b, c, d);
    JoinStamp(a, b);
    if Mergeable(c, d) {
      assert Buried(c, d, a) && Buried(c, d, b);
    }
  }

  lemma JoinAbove(a: Doc, b: Doc, c: Doc, d: Doc)
    requires Four(a, b, c, d) && Mergeable(a, b) && !(Mergeable(a, c) && Mergeable(c, d))
    ensures Buried(Join(a, b), c, d)
  {
    var j := Join(a, b);
    JoinStamp(a, b);
    if Mergeable(j, c) && !Mergeable(c, d) && Before(c.ts, d.ts) && Before(d.ts, j.ts) {
      JoinCommutes(a, b);
      if j.ts == b.ts {
        assert Buried(b, c, d);
        AgreeAssociates(a, b, c);
        JoinReassociates(a, b, c);
      } else {
        assert Buried(a, c, d);
        CompatSymmetric(a, b);
        AgreeSwaps(a, b, c);
        AgreeAssociates(b, a, c);
        JoinReassociates(b, a, c);
      }
    }
  }

  lemma JoinBelow(a: Doc, b: Doc, c: Doc, d: Doc)
    requires Four(a, b, c, d) && Mergeable(a, b) && !(Mergeable(a, c) && Mergeable(c, d))
    ensures Buried(c, Join(a, b), d)
  {
    var j := Join(a, b);
    JoinStamp(a, b);
    if Mergeable(c, j) && !Mergeable(j, d) && Before(j.ts, d.ts) && Before(d.ts, c.ts) {
      StampOrder();
      assert Buried(c, a, d) && Buried(c, b, d);
      CompatSymmetric(a, c);
      CompatSymmetric(b, c);
      AgreeSwaps(a, b, c);
      AgreeSwaps(a, c, b);
      AgreeAssociates(c, a, b);
      JoinReassociates(c, a, b);
    }
  }

  // ------------------------------------------------------------------
  // Lawful sets are closed under joining
  // ------------------------------------------------------------------

  lemma LawfulAgree(s: set<Doc>, a: Doc, b: Doc, c: Doc)
    requires Lawful(s) && a in s && b in s && c in s
    ensures Agree(a, b, c) && Pairwise(a, b, c)
  {
    AssociatesAgree(a, b, c);
  }

  lemma JoinCompat(s: set<Doc>, a: Doc, b: Doc, c: Doc)
    requires Lawful(s) && a in s && b in s && c in s
    ensures Compat(Join(a, b), c) && Compat(c, Join(a, b))
  {
    JoinReassociates(a, b, c);
    JoinCommutes(b, c);
    JoinReassociates(a, c, b);
    JoinCommutes(a, c);
    JoinReassociates(c, a, b);
    JoinCommutesExactly(Join(a, b), c);
    JoinCommutesExactly(c, Join(a, b));
  }

  lemma JoinAllWays(s: set<Doc>, a: Doc, b: Doc, c: Doc, d: Doc)
    requires Lawful(s) && a in s && b in s && c in s && d in s
    ensures var j := Join(a, b); Associates(j, c, d) && Associates(c, j, d) && Associates(c, d, j)
  {
    var j := Join(a, b);
    LawfulAgree(s, a, b, c);
    LawfulAgree(s, a, b, d);
    LawfulAgree(s, a, c, d);
    LawfulAgree(s, b, c, d);
    JoinAgrees(a, b, c, d);
    JoinCompat(s, a, b, c);
    JoinCompat(s, a, b, d);
    AgreeAssociates(j, c, d);
    AgreeSwaps(j, c, d);
    AgreeAssociates(c, j, d);
    AgreeSwaps(c, j, d);
    AgreeAssociates(c, d, j);
  }

  /** Repeats never get in the way of associating. */
  lemma RepeatAssociates(a: Doc, b: Doc)
    requires Compat(a, b)
    ensures Associates(a, a, b) && Associates(b, a, a) && Associates(a, b, a)
  {
    JoinIdempotent(a);
    JoinCommutes(a, b);
    JoinAbsorbsLeft(a, b);
    JoinAbsorbsRight(b, a);
    JoinAssociatesExactly(a, a, b);
    JoinAssociatesExactly(b, a, a);
    JoinAssociatesExactly(a, b, a);
  }

  lemma LawfulWithJoin(s: set<Doc>, a: Doc, b: Doc)
    requires Lawful(s) && a in s && b in s
    ensures Lawful(s + {Join(a, b)})
  {
    var j := Join(a, b);
    var t := s + {j};
    JoinIdempotent(j);
    JoinCommutesExactly(j, j);
    forall x, y | x in t && y in t ensures Compat(x, y) {
      if x in s { JoinCompat(s, a, b, x); }
      if y in s { JoinCompat(s, a, b, y); }
    }
    forall x, y, z | x in t && y in t && z in t ensures Associates(x, y, z) {
      TripleWithJoin(s, a, b, x, y, z);
    }
  }

  lemma TripleWithJoin(s: set<Doc>, a: Doc, b: Doc, x: Doc, y: Doc, z: Doc)
    requires Lawful(s) && a in s && b in s
    requires x in s || x == Join(a, b)
    requires y in s || y == Join(a, b)
    requires z in s || z == Join(a, b)
    requires Compat(x, y) && Compat(y, x) && Compat(x, z) && Compat(y, z)
    ensures Associates(x, y, z)
  {
    if x == y {
      RepeatAssociates(x, z);
    } else if y == z {
      RepeatAssociates(y, x);
    } else if x == z {
      RepeatAssociates(x, y);
    } else if x !in s {
      JoinAllWays(s, a, b, y, z);
    } else if y !in s {
      JoinAllWays(s, a, b, x, z);
    } else if z !in s {
      JoinAllWays(s, a, b, x, y);
    }
  }

  // ------------------------------------------------------------------
  // Plans
  // ------------------------------------------------------------------

  /** The results of a plan and of all its parts. */
  function Parts(p: Plan): set<Doc> {
    match p
    case One(d) => {d}
    case Two(l, r) => Parts(l) + Parts(r) + {Result(p)}
  }

  lemma {:induction false} PartsFacts(p: Plan)
    ensures Inputs(p) <= Parts(p) && Result(p) in Parts(p)
  {
    if p.Two? {
      PartsFacts(p.left);
      PartsFacts(p.right);
    }
  }

  lemma {:induction false} PartsLawful(s: set<Doc>, p: Plan)
    requires Lawful(s) && Inputs(p) <= s
    ensures Lawful(s + Parts(p))
    decreases p
  {
    match p
    case One(d) =>
      assert s + Parts(p) == s;
    case Two(l, r) =>
      PartsLawful(s, l);
      PartsLawful(s + Parts(l), r);
      PartsFacts(l);
      PartsFacts(r);
      LawfulWithJoin(s + Parts(l) + Parts(r), Result(l), Result(r));
      assert s + Parts(p) == s + Parts(l) + Parts(r) + {Result(p)};
  }

  lemma {:induction false} ResultAbsorbsInput(s: set<Doc>, p: Plan, x: Doc)
    requires Lawful(s) && Parts(p) <= s && x in Inputs(p)
    ensures Join(x, Result(p)) == Result(p)
    decreases p
  {
    match p
    case One(d) =>
      JoinIdempotent(d);
    case Two(l, r) =>
      var ls, rs := Result(l), Result(r);
      PartsFacts(p);
      PartsFacts(l);
      PartsFacts(r);
      JoinCommutes(ls, rs);
      if x in Inputs(l) {
        ResultAbsorbsInput(s, l, x);
        JoinReassociates(x, ls, rs);
      } else {
        ResultAbsorbsInput(s, r, x);
        JoinReassociates(x, rs, ls);
      }
  }

  lemma {:induction false} BoundAbsorbsResult(s: set<Doc>, p: Plan, e: Doc)
    requires Lawful(s) && Parts(p) <= s && e in s
    requires forall x :: x in Inputs(p) ==> Join(x, e) == e
    ensures Join(Result(p), e) == e
    decreases p
  {
    match p
    case One(_) =>
    case Two(l, r) =>
      PartsFacts(l);
      PartsFacts(r);
      BoundAbsorbsResult(s, l, e);
      BoundAbsorbsResult(s, r, e);
      JoinReassociates(Result(l), Result(r), e);
  }

  /** Replicas that merged the same lawful states, in any order, with any grouping
      and any repetitions, hold the same document. */
  lemma SameInputsSameResult(s: set<Doc>, p: Plan, q: Plan)
    requires Lawful(s) && Inputs(p) == Inputs(q) && Inputs(p) <= s
    ensures Result(p) == Result(q)
  {
    PartsLawful(s, p);
    PartsLawful(s + Parts(p), q);
    var all := s + Parts(p) + Parts(q);
    PartsFacts(p);
    PartsFacts(q);
    forall x | x in Inputs(p) ensures Join(x, Result(p)) == Result(p) && Join(x, Result(q)) == Result(q) {
      ResultAbsorbsInput(all, p, x);
      ResultAbsorbsInput(all, q, x);
    }
    BoundAbsorbsResult(all, p, Result(q));
    BoundAbsorbsResult(all, q, Result(p));
    JoinCommutes(Result(p), Result(q));
  }

  ghost predicate AllPlansAgree(s: set<Doc>) {
    forall p, q :: Inputs(p) == Inputs(q) && Inputs(p) <= s ==> Result(p) == Result(q)
  }

  /** All ways of merging any of the states agree if and only if any two of them
      commute and any three associate. */
  lemma PlansAgreeExactly(s: set<Doc>)
    ensures AllPlansAgree(s) <==> Lawful(s)
  {
    if Lawful(s) {
      forall p, q | Inputs(p) == Inputs(q) && Inputs(p) <= s ensures Result(p) == Result(q) {
        SameInputsSameResult(s, p, q);
      }
    }
    if AllPlansAgree(s) {
      forall a, b | a in s && b in s ensures Compat(a, b) {
        TwoPlans(a, b);
        assert Result(Two(One(a), One(b))) == Result(Two(One(b), One(a)));
        JoinCommutesExactly(a, b);
      }
      forall a, b, c | a in s && b in s && c in s ensures Associates(a, b, c) {
        ThreePlans(a, b, c);
        assert Result(Two(Two(One(a), One(b)), One(c))) == Result(Two(One(a), Two(One(b), One(c))));
        JoinAssociatesExactly(a, b, c);
      }
    }
  }

  lemma TwoPlans(a: Doc, b: Doc)
    ensures Inputs(Two(One(a), One(b))) == {a, b} == Inputs(Two(One(b), One(a)))
    ensures Result(Two(One(a), One(b))) == Join(a, b)
  {
    assert Inputs(One(a)) == {a} && Inputs(One(b)) == {b};
  }

  lemma ThreePlans(a: Doc, b: Doc, c: Doc)
    ensures Inputs(Two(Two(One(a), One(b)), One(c))) == {a, b, c} == Inputs(Two(One(a), Two(One(b), One(c))))
    ensures Result(Two(Two(One(a), One(b)), One(c))) == Join(Join(a, b), c)
    ensures Result(Two(One(a), Two(One(b), One(c)))) == Join(a, Join(b, c))
  {
    TwoPlans(a, b);
    TwoPlans(b, c);
  }

  /** Two groupings of three merges agree exactly when their results associate. */
  lemma Grouped(p: Plan, q: Plan, r: Plan)
    ensures Inputs(Two(Two(p, q), r)) == Inputs(Two(p, Two(q, r)))
    ensures Result(Two(Two(p, q), r)) == Result(Two(p, Two(q, r))) <==> Associates(Result(p), Result(q), Result(r))
  {
    assert Result(Two(Two(p, q), r)) == Join(Result(Two(p, q)), Result(r));
    assert Result(Two(p, Two(q, r))) == Join(Result(p), Result(Two(q, r)));
    JoinAssociatesExactly(Result(p), Result(q), Result(r));
  }
}
