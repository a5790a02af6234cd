/** What a replicated document means, with field and element order forgotten:
    a tree of timestamped leaves and containers whose members are found by
    name (an object's key, an array element's tag).  `Join` is the reference
    definition of merging; this module settles which semilattice laws it obeys
    and exactly when.
 */
module Lattice {
  import opened ByteStrings
  import opened Stamps

  datatype Scalar = Null | Bool(b: bool) | Int(i: i64) | Str(s: bytes)

  datatype Shape = ArrayShape | ObjectShape

  datatype Doc =
    | Leaf(ts: Timestamp, dead: bool, scalar: Scalar)
    | Node(ts: Timestamp, dead: bool, shape: Shape, cells: map<bytes, Cell>)

  /** `removed` is an array element's sticky tombstone; it is false in objects. */
  datatype Cell = Cell(removed: bool, value: Doc)

  // ------------------------------------------------------------------
  // Join
  // ------------------------------------------------------------------

  predicate Mergeable(a: Doc, b: Doc) {
    !a.dead && !b.dead && a.Node? && b.Node? && a.shape == b.shape
  }

  function Newer(a: Doc, b: Doc): Doc {
    if Before(a.ts, b.ts) then b else a
  }

  function Join(a: Doc, b: Doc): Doc
    decreases a
  {
    if Mergeable(a, b) then
      Node(Later(a.ts, b.ts), false, a.shape,
           map n | n in a.cells.Keys + b.cells.Keys ::
             if n in a.cells && n in b.cells then
               Cell(a.cells[n].removed || b.cells[n].removed, Join(a.cells[n].value, b.cells[n].value))
             else if n in a.cells then a.cells[n]
             else b.cells[n])
    else
      Newer(a, b)
  }

  lemma JoinStamp(a: Doc, b: Doc)
    ensures Join(a, b).ts == Later(a.ts, b.ts)
  {
  }

  /** Two live arrays, or two live objects, are merged member by member, whatever
      their stamps. */
  lemma JoinMembers(s: Timestamp, t: Timestamp, shape: Shape, a: map<bytes, Cell>, b: map<bytes, Cell>)
    ensures var d := Join(Node(s, false, shape, a), Node(t, false, shape, b));
      && d.Node? && !d.dead && d.shape == shape && d.cells.Keys == a.Keys + b.Keys
      && (forall n :: n in a && n in b ==>
            && (d.cells[n].removed <==> a[n].removed || b[n].removed)
            && d.cells[n].value == Join(a[n].value, b[n].value))
      && (forall n :: n in a && n !in b ==> d.cells[n] == a[n])
      && (forall n :: n in b && n !in a ==> d.cells[n] == b[n])
  {
  }

  /** Anything else is decided as a whole: the later stamp wins. */
  lemma JoinWhole(a: Doc, b: Doc)
    requires a.dead || b.dead || a.Leaf? || b.Leaf? || a.shape != b.shape
    ensures Join(a, b) == if Before(a.ts, b.ts) then b else a
  {
  }

  // ------------------------------------------------------------------
  // Idempotence and absorption: no hypothesis
  // ------------------------------------------------------------------

  lemma {:induction false} JoinIdempotent(a: Doc)
    ensures Join(a, a) == a
  {
    if Mergeable(a, a) {
      forall n | n in a.cells ensures Join(a.cells[n].value, a.cells[n].value) == a.cells[n].value {
        JoinIdempotent(a.cells[n].value);
      }
      assert Join(a, a).cells == a.cells;
    }
  }

  lemma {:induction false} JoinAbsorbsLeft(a: Doc, b: Doc)
    ensures Join(a, Join(a, b)) == Join(a, b)
    decreases a
  {
    var ab := Join(a, b);
    StampOrder();
    if Mergeable(a, b) {
      forall n | n in a.cells ensures Join(a.cells[n].value, ab.cells[n].value) == ab.cells[n].value {
        if n in b.cells {
          JoinAbsorbsLeft(a.cells[n].value, b.cells[n].value);
        } else {
          JoinIdempotent(a.cells[n].value);
        }
      }
      assert Join(a, ab).cells == ab.cells;
    } else {
      JoinIdempotent(a);
    }
  }

  lemma {:induction false} JoinAbsorbsRight(a: Doc, b: Doc)
    ensures Join(Join(a, b), b) == Join(a, b)
    decreases a
  {
    var ab := Join(a, b);
    StampOrder();
    if Mergeable(a, b) {
      forall n | n in b.cells ensures Join(ab.cells[n].value, b.cells[n].value) == ab.cells[n].value {
        if n in a.cells {
          JoinAbsorbsRight(a.cells[n].value, b.cells[n].value);
        } else {
          JoinIdempotent(b.cells[n].value);
        }
      }
      assert Join(ab, b).cells == ab.cells;
    } else {
      JoinIdempotent(b);
    }
  }

  // ------------------------------------------------------------------
  // Commutativity: exactly on compatible pairs
  // ------------------------------------------------------------------

  /** Wherever merging compares two values as whole registers, equal
      timestamps carry equal values. */
  ghost predicate Compat(a: Doc, b: Doc)
    decreases a
  {
    if Mergeable(a, b) then
      forall n :: n in a.cells && n in b.cells ==> Compat(a.cells[n].value, b.cells[n].value)
    else
      a.ts == b.ts ==> a == b
  }

  lemma {:induction false} JoinCommutesExactly(a: Doc, b: Doc)
    ensures Join(a, b) == Join(b, a) <==> Compat(a, b)
    decreases a
  {
    StampOrder();
    if Mergeable(a, b) {
      var ab, ba := Join(a, b), Join(b, a);
      forall n | n in a.cells && n in b.cells
        ensures ab.cells[n] == ba.cells[n] <==> Compat(a.cells[n].value, b.cells[n].value)
      {
        JoinCommutesExactly(a.cells[n].value, b.cells[n].value);
      }
      if Compat(a, b) {
        assert ab.cells == ba.cells;
      }
    }
  }

  lemma CompatSymmetric(a: Doc, b: Doc)
    requires Compat(a, b)
    ensures Compat(b, a)
  {
    JoinCommutesExactly(a, b);
    JoinCommutesExactly(b, a);
  }

  // ------------------------------------------------------------------
  // Which side survives untouched
  // ------------------------------------------------------------------

  /** `b` holds nothing that `a` lacks. */
  ghost predicate KeepsLeft(a: Doc, b: Doc)
    decreases a
  {
    NotAfter(b.ts, a.ts) &&
    (Mergeable(a, b) ==>
       forall n :: n in b.cells ==>
         && n in a.cells
         && (b.cells[n].removed ==> a.cells[n].removed)
         && KeepsLeft(a.cells[n].value, b.cells[n].value))
  }

  /** `a` holds nothing that `b` lacks. */
  ghost predicate KeepsRight(a: Doc, b: Doc)
    decreases a
  {
    if Mergeable(a, b) then
      && NotAfter(a.ts, b.ts)
      && forall n :: n in a.cells ==>
           && n in b.cells
           && (a.cells[n].removed ==> b.cells[n].removed)
           && KeepsRight(a.cells[n].value, b.cells[n].value)
    else
      Before(a.ts, b.ts) || a == b
  }

  lemma {:induction false} KeepsLeftExactly(a: Doc, b: Doc)
    ensures Join(a, b) == a <==> KeepsLeft(a, b)
    decreases a
  {
    StampOrder();
    if Mergeable(a, b) {
      var ab := Join(a, b);
      forall n | n in a.cells && n in b.cells
        ensures Join(a.cells[n].value, b.cells[n].value) == a.cells[n].value
           <==> KeepsLeft(a.cells[n].value, b.cells[n].value)
      {
        KeepsLeftExactly(a.cells[n].value, b.cells[n].value);
      }
      if KeepsLeft(a, b) {
        assert ab.cells == a.cells;
      } else if ab == a {
        forall n | n in b.cells
          ensures n in a.cells && (b.cells[n].removed ==> a.cells[n].removed)
          ensures KeepsLeft(a.cells[n].value, b.cells[n].value)
        {
          assert n in ab.cells;
        }
        assert false;
      }
    }
  }

  lemma {:induction false} KeepsRightExactly(a: Doc, b: Doc)
    ensures Join(a, b) == b <==> KeepsRight(a, b)
    decreases a
  {
    StampOrder();
    if Mergeable(a, b) {
      var ab := Join(a, b);
      forall n | n in a.cells && n in b.cells
        ensures Join(a.cells[n].value, b.cells[n].value) == b.cells[n].value
           <==> KeepsRight(a.cells[n].value, b.cells[n].value)
      {
        KeepsRightExactly(a.cells[n].value, b.cells[n].value);
      }
      if KeepsRight(a, b) {
        assert ab.cells == b.cells;
      } else if ab == b {
        forall n | n in a.cells
          ensures n in b.cells && (a.cells[n].removed ==> b.cells[n].removed)
          ensures KeepsRight(a.cells[n].value, b.cells[n].value)
        {
          assert n in ab.cells;
        }
        assert false;
      }
    }
  }

  // ------------------------------------------------------------------
  // Associativity: the exact boundary
  // ------------------------------------------------------------------

  /** Grouping can only matter where two mergeable containers meet something
      they cannot merge with, stamped between them: then one grouping drops
      the older container and the other keeps its contents. */
  ghost predicate Associates(a: Doc, b: Doc, c: Doc)
    decreases a
  {
    if Mergeable(a, b) && Mergeable(b, c) then
      forall n :: n in a.cells && n in b.cells && n in c.cells ==>
        Associates(a.cells[n].value, b.cells[n].value, c.cells[n].value)
    else if Mergeable(a, b) then
      Before(b.ts, c.ts) && NotAfter(c.ts, a.ts) ==> KeepsLeft(a, b)
    else if Mergeable(b, c) then
      NotAfter(b.ts, a.ts) && Before(a.ts, c.ts) ==> KeepsRight(b, c)
    else if Mergeable(a, c) then
      && (Before(a.ts, b.ts) && Before(b.ts, c.ts) ==> KeepsRight(a, c))
      && (NotAfter(c.ts, b.ts) && NotAfter(b.ts, a.ts) ==> KeepsLeft(a, c))
    else
      true
  }

  lemma {:induction false} JoinAssociatesExactly(a: Doc, b: Doc, c: Doc)
    ensures Join(Join(a, b), c) == Join(a, Join(b, c)) <==> Associates(a, b, c)
    decreases a
  {
    if Mergeable(a, b) && Mergeable(b, c) {
      JoinAssociatesWithin(a, b, c);
    } else {
      StampOrder();
      if Mergeable(a, b) {
        KeepsLeftExactly(a, b);
      } else if Mergeable(b, c) {
        KeepsRightExactly(b, c);
      } else if Mergeable(a, c) {
        KeepsLeftExactly(a, c);
        KeepsRightExactly(a, c);
      }
    }
  }

  lemma {:induction false} JoinAssociatesWithin(a: Doc, b: Doc, c: Doc)
    requires Mergeable(a, b) && Mergeable(b, c)
    ensures Join(Join(a, b), c) == Join(a, Join(b, c)) <==> Associates(a, b, c)
    decreases a, 0
  {
    var l, r := Join(Join(a, b), c), Join(a, Join(b, c));
    assert l.ts == r.ts by { StampOrder(); }
    forall n | n in a.cells && n in b.cells && n in c.cells
      ensures l.cells[n] == r.cells[n] <==> Associates(a.cells[n].value, b.cells[n].value, c.cells[n].value)
    {
      JoinAssociatesExactly(a.cells[n].value, b.cells[n].value, c.cells[n].value);
    }
    forall n | n in l.cells && !(n in a.cells && n in b.cells && n in c.cells)
      ensures n in r.cells && l.cells[n] == r.cells[n]
    {
    }
    assert l.cells.Keys == r.cells.Keys;
    if Associates(a, b, c) {
      assert l.cells == r.cells;
    }
  }

  /** The laws promised for every kind of node fail for a container that is
      deleted and written again: the two groupings of one history differ. */
  lemma DeleteThenRecreateDiverges(x: bytes, y: bytes, s: Scalar)
    requires x != y
    ensures
      var t1, t2, t3 := Timestamp(1, 0, []), Timestamp(2, 0, []), Timestamp(3, 0, []);
      var before := Node(t1, false, ObjectShape, map[x := Cell(false, Leaf(t1, false, s))]);
      var deleted := Leaf(t2, true, Null);
      var again := Node(t3, false, ObjectShape, map[y := Cell(false, Leaf(t3, false, s))]);
      && Join(Join(before, deleted), again).cells.Keys == {y}
      && Join(before, Join(deleted, again)).cells.Keys == {x, y}
      && Compat(before, deleted) && Compat(deleted, again) && Compat(before, again)
  {
    var t1, t2, t3 := Timestamp(1, 0, []), Timestamp(2, 0, []), Timestamp(3, 0, []);
    var before := Node(t1, false, ObjectShape, map[x := Cell(false, Leaf(t1, false, s))]);
    var deleted := Leaf(t2, true, Null);
    var again := Node(t3, false, ObjectShape, map[y := Cell(false, Leaf(t3, false, s))]);
    assert Join(before, deleted) == deleted;
    assert Join(deleted, again) == again;
  }

  lemma JoinCommutes(a: Doc, b: Doc)
    requires Compat(a, b)
    ensures Join(a, b) == Join(b, a)
  {
    JoinCommutesExactly(a, b);
  }

  lemma JoinReassociates(a: Doc, b: Doc, c: Doc)
    requires Associates(a, b, c)
    ensures Join(Join(a, b), c) == Join(a, Join(b, c))
  {
    JoinAssociatesExactly(a, b, c);
  }
}
