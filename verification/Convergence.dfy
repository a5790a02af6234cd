/** Strong convergence over runs of the mesh: every copy is a merge of writes, and
    nodes that have absorbed the same writes hold the same bytes if any three of
    the writes merge alike in either grouping.
 */
module Convergence {
  import opened Wrappers
  import opened ByteStrings
  import opened Stamps
  import opened Documents
  import opened Codec
  import opened Engine
  import opened Mesh
  import opened Lattice
  import opened Plans
  import Depth
  import Provenance

  /** A stored copy and how it was merged from writes. */
  datatype Note = Note(key: bytes, doc: bytes, plan: Plan)

  /** How each node's copies came about, and those of everything ever stored. */
  datatype History = History(held: map<bytes, map<bytes, Plan>>, sent: set<Note>)

  function PlanOf(h: History, n: bytes, k: bytes): Plan
    requires n in h.held && k in h.held[n]
  {
    h.held[n][k]
  }

  /** The copies of a node that the history accounts for. */
  ghost predicate Accounts(w: World, h: History, n: bytes)
    requires n in w.nodes
  {
    var store := w.nodes[n].store;
    forall k :: k in store ==> n in h.held && k in h.held[n] && Note(k, store[k], h.held[n][k]) in h.sent
  }

  /** The note's plan merges recorded writes to its key into its document. */
  ghost predicate Explains(w: World, note: Note) {
    && (note.key, note.doc) in w.sent && Decode(note.doc).Some? && Result(note.plan) == Meaning(note.doc)
    && forall d :: d in Inputs(note.plan) ==> Written(w, note.key, d) && Copied(w, note.key, d)
  }

  ghost predicate Written(w: World, key: bytes, d: Doc) {
    exists t :: t in w.writes && w.writes[t] == Write(key, d)
  }

  /** Some stored copy was this document. */
  ghost predicate Copied(w: World, key: bytes, d: Doc) {
    exists b :: (key, b) in w.sent && Decode(b).Some? && Meaning(b) == d
  }

  ghost predicate Told(w: World, h: History) {
    && (forall note :: note in h.sent ==> Explains(w, note))
    && (forall n :: n in w.nodes ==> Accounts(w, h, n))
    && (forall k, b :: (k, b) in w.sent ==> exists plan :: Note(k, b, plan) in h.sent)
  }

  /** The write a step makes, or how the delivered copy came about. */
  ghost function Added(w: World, step: Step, via: Plan): Plan
    requires step.node in w.nodes && !step.ListDigests?
  {
    var s := w.nodes[step.node];
    if step.LocalWrite? && (step.key in s.store ==> Decode(s.store[step.key]).Some?) then
      One(View(Engine.Written(s, step.key, step.json, step.wall).0))
    else via
  }

  ghost predicate Stores(hash: bytes -> bytes, w: World, step: Step) {
    step.node in w.nodes && !step.ListDigests? && After(hash, w.nodes[step.node], step).1.Ok?
  }

  ghost function PlanAfter(hash: bytes -> bytes, w: World, h: History, step: Step, via: Plan): Plan
    requires Stores(hash, w, step)
  {
    if step.key in w.nodes[step.node].store && step.node in h.held && step.key in h.held[step.node] then
      Two(h.held[step.node][step.key], Added(w, step, via))
    else Added(w, step, via)
  }

  ghost function NextHistory(hash: bytes -> bytes, w: World, h: History, step: Step, via: Plan): History
    requires step.node in w.nodes
  {
    if !Stores(hash, w, step) || step.key !in After(hash, w.nodes[step.node], step).0.store then h else
    var plan := PlanAfter(hash, w, h, step, via);
    var mine := if step.node in h.held then h.held[step.node] else map[];
    var doc := After(hash, w.nodes[step.node], step).0.store[step.key];
    History(h.held[step.node := mine[step.key := plan]], h.sent + {Note(step.key, doc, plan)})
  }

  /** A run in which each delivered copy says how it came about. */
  ghost predicate TracedRun(hash: bytes -> bytes, w: World, h: History, steps: seq<Step>, vias: seq<Plan>, end: World,
                            hend: History)
    decreases |steps|
  {
    |vias| == |steps| &&
    if steps == [] then end == w && hend == h
    else
      && Legal(w, steps[0]) && Tells(h, steps[0], vias[0])
      && TracedRun(hash, Next(hash, w, steps[0]), NextHistory(hash, w, h, steps[0], vias[0]), steps[1..], vias[1..],
                   end, hend)
  }

  ghost predicate Tells(h: History, step: Step, via: Plan) {
    step.Deliver? ==> Note(step.key, step.doc, via) in h.sent
  }

  // ------------------------------------------------------------------
  // One step
  // ------------------------------------------------------------------

  /** What a step stores is what it had joined with what was added. */
  ghost predicate StoresJoin(hash: bytes -> bytes, w: World, step: Step, added: Doc)
    requires Stores(hash, w, step)
  {
    var s, s' := w.nodes[step.node], After(hash, w.nodes[step.node], step).0;
    && step.key in s'.store && s'.store == s.store[step.key := s'.store[step.key]]
    && Decode(s'.store[step.key]).Some?
    && (step.key in s.store ==> Decode(s.store[step.key]).Some?)
    && Meaning(s'.store[step.key]) == if step.key in s.store then Join(Meaning(s.store[step.key]), added) else added
  }

  lemma WriteMeaning(hash: bytes -> bytes, w: World, step: Step, via: Plan)
    requires Inv(hash, w) && Legal(w, step) && Stores(hash, w, step) && step.LocalWrite?
    ensures StoresJoin(hash, w, step, Result(Added(w, step, via)))
  {
    WrittenGood(hash, w, step);
    StoredHonest(Engine.Written(w.nodes[step.node], step.key, step.json, step.wall).0);
  }

  lemma DeliverMeaning(hash: bytes -> bytes, w: World, step: Step, via: Plan)
    requires Inv(hash, w) && Legal(w, step) && Stores(hash, w, step) && step.Deliver?
    requires Decode(step.doc).Some? && Result(via) == Meaning(step.doc)
    ensures StoresJoin(hash, w, step, Result(Added(w, step, via)))
  {
    var s := w.nodes[step.node];
    MergedGood(hash, w, step);
    if step.key in s.store {
      assert NodeOk(hash, w, step.node);
      assert GoodCopy(w, step.key, s.store[step.key]) && GoodCopy(w, step.key, step.doc);
      MergeMeansJoin(Decode(s.store[step.key]).value, Decode(step.doc).value);
    }
    StoredHonest(MergedWith(s, step.key, step.doc));
  }

  lemma ExplainsMore(w: World, w': World, note: Note)
    requires Explains(w, note) && w.sent <= w'.sent
    requires forall t :: t in w.writes ==> t in w'.writes && w'.writes[t] == w.writes[t]
    ensures Explains(w', note)
  {
    forall d | d in Inputs(note.plan) ensures Written(w', note.key, d) && Copied(w', note.key, d) {
      assert Written(w, note.key, d) && Copied(w, note.key, d);
      var t :| t in w.writes && w.writes[t] == Write(note.key, d);
      assert t in w'.writes;
      var b :| (note.key, b) in w.sent && Decode(b).Some? && Meaning(b) == d;
      assert (note.key, b) in w'.sent;
    }
  }

  lemma WorldGrows(hash: bytes -> bytes, w: World, step: Step)
    requires Inv(hash, w) && Legal(w, step)
    ensures var w' := Next(hash, w, step);
      w.sent <= w'.sent && forall t :: t in w.writes ==> t in w'.writes && w'.writes[t] == w.writes[t]
  {
    if step.LocalWrite? { WriteDominates(hash, w, step); }
  }

  lemma AddedWritten(hash: bytes -> bytes, w: World, step: Step, via: Plan)
    requires Inv(hash, w) && Legal(w, step) && Stores(hash, w, step)
    requires step.Deliver? ==> Explains(w, Note(step.key, step.doc, via))
    ensures var w' := Next(hash, w, step);
      forall d :: d in Inputs(Added(w, step, via)) ==> Written(w', step.key, d) && Copied(w', step.key, d)
  {
    var w' := Next(hash, w, step);
    WorldGrows(hash, w, step);
    if step.LocalWrite? {
      WrittenGood(hash, w, step);
      var s := w.nodes[step.node];
      var ts := StampOf(s, step.wall);
      var v := Engine.Written(s, step.key, step.json, step.wall).0;
      assert w'.writes[ts] == Write(step.key, View(v));
      StoredHonest(v);
      assert (step.key, Encode(v)) in w'.sent;
    } else {
      ExplainsMore(w, w', Note(step.key, step.doc, via));
    }
  }

  lemma NewNote(hash: bytes -> bytes, w: World, h: History, step: Step, via: Plan)
    requires Inv(hash, w) && Legal(w, step) && Stores(hash, w, step) && Told(w, h) && Tells(h, step, via)
    ensures var s' := After(hash, w.nodes[step.node], step).0;
      && step.key in s'.store && s'.store == w.nodes[step.node].store[step.key := s'.store[step.key]]
      && Explains(Next(hash, w, step), Note(step.key, s'.store[step.key], PlanAfter(hash, w, h, step, via)))
  {
    if step.Deliver? {
      assert Explains(w, Note(step.key, step.doc, via));
      DeliverMeaning(hash, w, step, via);
    } else {
      WriteMeaning(hash, w, step, via);
    }
    AddedWritten(hash, w, step, via);
    var store := w.nodes[step.node].store;
    if step.key in store {
      assert Accounts(w, h, step.node);
      var old' := Note(step.key, store[step.key], h.held[step.node][step.key]);
      assert Explains(w, old');
      WorldGrows(hash, w, step);
      ExplainsMore(w, Next(hash, w, step), old');
    }
  }

  lemma StepTold(hash: bytes -> bytes, w: World, h: History, step: Step, via: Plan)
    requires Inv(hash, w) && Legal(w, step) && Told(w, h) && Tells(h, step, via)
    ensures Told(Next(hash, w, step), NextHistory(hash, w, h, step, via))
  {
    WorldGrows(hash, w, step);
    if Stores(hash, w, step) {
      StoringTold(hash, w, h, step, via);
    } else {
      StepStore(hash, w, step);
      NothingAdded(w, h, Next(hash, w, step), step.node);
    }
  }

  lemma StoringTold(hash: bytes -> bytes, w: World, h: History, step: Step, via: Plan)
    requires Inv(hash, w) && Legal(w, step) && Told(w, h) && Tells(h, step, via) && Stores(hash, w, step)
    ensures Told(Next(hash, w, step), NextHistory(hash, w, h, step, via))
  {
    WorldGrows(hash, w, step);
    NewNote(hash, w, h, step, via);
    var s' := After(hash, w.nodes[step.node], step).0;
    NoteAdded(w, h, Next(hash, w, step), NextHistory(hash, w, h, step, via), step.node, step.key, s'.store[step.key],
              PlanAfter(hash, w, h, step, via));
  }

  lemma NoteAdded(w: World, h: History, w': World, h': History, n: bytes, key: bytes, doc: bytes, plan: Plan)
    requires Told(w, h) && n in w.nodes && n in w'.nodes && Explains(w', Note(key, doc, plan))
    requires w'.sent == w.sent + {(key, doc)}
    requires forall t :: t in w.writes ==> t in w'.writes && w'.writes[t] == w.writes[t]
    requires w'.nodes == w.nodes[n := w'.nodes[n]] && w'.nodes[n].store == w.nodes[n].store[key := doc]
    requires h'.sent == h.sent + {Note(key, doc, plan)}
    requires h'.held == h.held[n := (if n in h.held then h.held[n] else map[])[key := plan]]
    ensures Told(w', h')
  {
    forall note | note in h'.sent ensures Explains(w', note) {
      if note in h.sent { ExplainsMore(w, w', note); }
    }
    forall m | m in w'.nodes ensures Accounts(w', h', m) {
      assert Accounts(w, h, m);
    }
    forall k, b | (k, b) in w'.sent ensures exists p :: Note(k, b, p) in h'.sent {
      if (k, b) in w.sent {
        var p :| Note(k, b, p) in h.sent;
        assert Note(k, b, p) in h'.sent;
      } else {
        assert Note(k, b, plan) in h'.sent;
      }
    }
  }

  lemma NothingAdded(w: World, h: History, w': World, n: bytes)
    requires Told(w, h) && n in w.nodes && n in w'.nodes && w'.sent == w.sent
    requires forall t :: t in w.writes ==> t in w'.writes && w'.writes[t] == w.writes[t]
    requires w'.nodes == w.nodes[n := w'.nodes[n]] && w'.nodes[n].store == w.nodes[n].store
    ensures Told(w', h)
  {
    forall note | note in h.sent ensures Explains(w', note) {
      ExplainsMore(w, w', note);
    }
    forall m | m in w'.nodes ensures Accounts(w', h, m) {
      assert Accounts(w, h, m);
    }
  }

  /** A step that stores nothing leaves the rows alone. */
  lemma StepStore(hash: bytes -> bytes, w: World, step: Step)
    requires step.node in w.nodes && !Stores(hash, w, step)
    ensures Next(hash, w, step).nodes[step.node].store == w.nodes[step.node].store
    ensures Next(hash, w, step).sent == w.sent
  {
  }

  // ------------------------------------------------------------------
  // Every run
  // ------------------------------------------------------------------

  function NoHistory(): History {
    History(map[], {})
  }

  lemma {:induction false} TracedKeeps(hash: bytes -> bytes, w: World, h: History, steps: seq<Step>, vias: seq<Plan>,
                                       end: World, hend: History)
    requires Inv(hash, w) && Told(w, h) && TracedRun(hash, w, h, steps, vias, end, hend)
    ensures Run(hash, w, steps, end) && Inv(hash, end) && Told(end, hend)
    decreases |steps|
  {
    if steps != [] {
      StepKeeps(hash, w, steps[0]);
      StepTold(hash, w, h, steps[0], vias[0]);
      TracedKeeps(hash, Next(hash, w, steps[0]), NextHistory(hash, w, h, steps[0], vias[0]), steps[1..], vias[1..],
                  end, hend);
    }
  }

  /** Every run can be traced. */
  lemma {:induction false} RunTraced(hash: bytes -> bytes, w: World, h: History, steps: seq<Step>, end: World)
    returns (vias: seq<Plan>, hend: History)
    requires Inv(hash, w) && Told(w, h) && Run(hash, w, steps, end)
    ensures TracedRun(hash, w, h, steps, vias, end, hend)
    decreases |steps|
  {
    if steps == [] {
      return [], h;
    }
    var step := steps[0];
    var via := One(Leaf(Timestamp(0, 0, []), false, Null));
    if step.Deliver? { via :| Note(step.key, step.doc, via) in h.sent; }
    StepKeeps(hash, w, step);
    StepTold(hash, w, h, step, via);
    var rest, last := RunTraced(hash, Next(hash, w, step), NextHistory(hash, w, h, step, via), steps[1..], end);
    vias, hend := [via] + rest, last;
    assert vias[1..] == rest;
  }

  /** Writes to one key in one run are pairwise compatible. */
  lemma WritesCompatible(hash: bytes -> bytes, w: World, key: bytes, a: Doc, b: Doc)
    requires Inv(hash, w) && Copied(w, key, a) && Copied(w, key, b)
    ensures Compat(a, b)
  {
    var x :| (key, x) in w.sent && Decode(x).Some? && Meaning(x) == a;
    var y :| (key, y) in w.sent && Decode(y).Some? && Meaning(y) == b;
    assert GoodCopy(w, key, x) && GoodCopy(w, key, y);
    Provenance.AttestedCompat(a, b, WritesTo(w.writes, key));
  }

  /** Any three of these documents merge alike in either grouping. */
  ghost predicate Triples(s: set<Doc>) {
    forall a, b, c :: a in s && b in s && c in s ==> Associates(a, b, c)
  }

  lemma WritesLawful(hash: bytes -> bytes, w: World, key: bytes, s: set<Doc>)
    requires Inv(hash, w) && forall d :: d in s ==> Copied(w, key, d)
    ensures Lawful(s) <==> Triples(s)
  {
    forall a, b | a in s && b in s ensures Compat(a, b) {
      WritesCompatible(hash, w, key, a, b);
    }
  }

  /** The plan of a node's copy merges writes into exactly that copy. */
  lemma HeldExplained(hash: bytes -> bytes, w: World, h: History, n: bytes, k: bytes)
    requires Inv(hash, w) && Told(w, h) && n in w.nodes && k in w.nodes[n].store
    ensures n in h.held && k in h.held[n] && Explains(w, Note(k, w.nodes[n].store[k], PlanOf(h, n, k)))
    ensures Honest(w.nodes[n].store[k])
  {
    assert Accounts(w, h, n) && Explains(w, Note(k, w.nodes[n].store[k], h.held[n][k]));
    assert GoodCopy(w, k, w.nodes[n].store[k]);
  }

  lemma SameResultSameBytes(hash: bytes -> bytes, w: World, h: History, m: bytes, n: bytes, k: bytes)
    requires Inv(hash, w) && Told(w, h) && m in w.nodes && n in w.nodes
    requires k in w.nodes[m].store && k in w.nodes[n].store
    ensures m in h.held && k in h.held[m] && n in h.held && k in h.held[n]
    ensures w.nodes[m].store[k] == w.nodes[n].store[k] <==> Result(PlanOf(h, m, k)) == Result(PlanOf(h, n, k))
  {
    HeldExplained(hash, w, h, m, k);
    HeldExplained(hash, w, h, n, k);
    HonestBytes(w.nodes[m].store[k], w.nodes[n].store[k]);
  }

  lemma SameInputsSameBytes(hash: bytes -> bytes, w: World, h: History, m: bytes, n: bytes, k: bytes)
    requires Inv(hash, w) && Told(w, h) && m in w.nodes && n in w.nodes
    requires k in w.nodes[m].store && k in w.nodes[n].store
    ensures m in h.held && k in h.held[m] && n in h.held && k in h.held[n]
    ensures var s := Inputs(PlanOf(h, m, k));
      && (forall d :: d in s ==> Written(w, k, d))
      && (AllPlansAgree(s) <==> Triples(s))
      && (s == Inputs(PlanOf(h, n, k)) && Triples(s) ==> w.nodes[m].store[k] == w.nodes[n].store[k])
  {
    HeldExplained(hash, w, h, m, k);
    SameResultSameBytes(hash, w, h, m, n, k);
    var s := Inputs(PlanOf(h, m, k));
    WritesLawful(hash, w, k, s);
    PlansAgreeExactly(s);
    if s == Inputs(PlanOf(h, n, k)) && Triples(s) {
      SameInputsSameResult(s, PlanOf(h, m, k), PlanOf(h, n, k));
    }
  }

  lemma GroupedBytes(hash: bytes -> bytes, w: World, h: History, m: bytes, n: bytes, k: bytes, p: Plan, q: Plan,
                     r: Plan)
    requires Inv(hash, w) && Told(w, h) && m in w.nodes && n in w.nodes
    requires k in w.nodes[m].store && k in w.nodes[n].store
    requires m in h.held && k in h.held[m] && n in h.held && k in h.held[n]
    requires PlanOf(h, m, k) == Two(Two(p, q), r) && PlanOf(h, n, k) == Two(p, Two(q, r))
    ensures w.nodes[m].store[k] == w.nodes[n].store[k] <==> Associates(Result(p), Result(q), Result(r))
  {
    SameResultSameBytes(hash, w, h, m, n, k);
    Grouped(p, q, r);
  }

  /** At the end of every run each copy is a merge of writes to its key.  Every way
      of merging those writes gives the same document exactly when any three of
      them associate, and then two nodes that have absorbed the same writes hold
      the same bytes, however the copies travelled. */
  lemma SameWritesSameBytes(hash: bytes -> bytes, w: World, steps: seq<Step>, vias: seq<Plan>, end: World, h: History,
                            m: bytes, n: bytes, k: bytes)
    requires Initial(w) && TracedRun(hash, w, NoHistory(), steps, vias, end, h)
    requires m in end.nodes && n in end.nodes && k in end.nodes[m].store && k in end.nodes[n].store
    ensures m in h.held && k in h.held[m] && n in h.held && k in h.held[n]
    ensures var s := Inputs(PlanOf(h, m, k));
      && (forall d :: d in s ==> Written(end, k, d))
      && (AllPlansAgree(s) <==> Triples(s))
      && (s == Inputs(PlanOf(h, n, k)) && Triples(s) ==> end.nodes[m].store[k] == end.nodes[n].store[k])
  {
    TracedKeeps(hash, w, NoHistory(), steps, vias, end, h);
    SameInputsSameBytes(hash, end, h, m, n, k);
  }

  /** Two nodes that merged the same three copies in different groupings hold the
      same bytes exactly when the copies associate. */
  lemma GroupingsAgreeExactly(hash: bytes -> bytes, w: World, steps: seq<Step>, vias: seq<Plan>, end: World,
                              h: History, m: bytes, n: bytes, k: bytes, p: Plan, q: Plan, r: Plan)
    requires Initial(w) && TracedRun(hash, w, NoHistory(), steps, vias, end, h)
    requires m in end.nodes && n in end.nodes && k in end.nodes[m].store && k in end.nodes[n].store
    requires m in h.held && k in h.held[m] && n in h.held && k in h.held[n]
    requires PlanOf(h, m, k) == Two(Two(p, q), r) && PlanOf(h, n, k) == Two(p, Two(q, r))
    ensures Inputs(PlanOf(h, m, k)) == Inputs(PlanOf(h, n, k))
    ensures end.nodes[m].store[k] == end.nodes[n].store[k] <==> Associates(Result(p), Result(q), Result(r))
  {
    TracedKeeps(hash, w, NoHistory(), steps, vias, end, h);
    GroupedBytes(hash, end, h, m, n, k, p, q, r);
    Grouped(p, q, r);
  }
}
