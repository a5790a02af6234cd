/** The ledger and the rows: writes go to the ledger first, and recovery
    rebuilds the rows from it.  The ledger is an append-only sequence and the
    storage back ends are one map.
 */
module Recovery {
  import opened ByteStrings
  import opened Sequences
  import Engine

  datatype RowKey = RowKey(collection: bytes, key: bytes)

  datatype Record =
    | PutRecord(row: RowKey, doc: bytes)
    | AbortRecord(row: RowKey)
    | OtherRecord

  type Rows = map<RowKey, bytes>

  /** What one write meets: it may be stopped, or fail, at each step. */
  datatype Fortune =
    | OverQuota
    | AppendFails
    | StopAfterAppend
    | RowFails(abortLogged: bool)
    | Stored

  // ------------------------------------------------------------------
  // What the ledger says
  // ------------------------------------------------------------------

  /** In-order replay of the whole history onto `rows`. */
  function Replayed(rows: Rows, ledger: seq<Record>): Rows {
    if ledger == [] then rows else
    var before, last := Replayed(rows, ledger[..|ledger| - 1]), ledger[|ledger| - 1];
    if last.PutRecord? then before[last.row := last.doc] else before
  }

  /** The last PUT of each key. */
  function LastPuts(ledger: seq<Record>): Rows {
    Replayed(map[], ledger)
  }

  /** Every row is one the ledger attests to. */
  ghost predicate Attested(rows: Rows, ledger: seq<Record>) {
    forall k :: k in rows ==> PutRecord(k, rows[k]) in ledger
  }

  lemma {:induction false} ReplayedIsOverlay(rows: Rows, ledger: seq<Record>)
    ensures Replayed(rows, ledger) == rows + LastPuts(ledger)
  {
    if ledger != [] {
      ReplayedIsOverlay(rows, ledger[..|ledger| - 1]);
    }
  }

  lemma {:induction false} LastPutsFrom(ledger: seq<Record>, k: RowKey)
    ensures k in LastPuts(ledger) <==> exists i :: 0 <= i < |ledger| && ledger[i].PutRecord? && ledger[i].row == k
    ensures k in LastPuts(ledger) ==> PutRecord(k, LastPuts(ledger)[k]) in ledger
  {
    if ledger != [] {
      var t := ledger[..|ledger| - 1];
      LastPutsFrom(t, k);
      assert ledger == t + [ledger[|ledger| - 1]];
      if i :| 0 <= i < |t| && t[i].PutRecord? && t[i].row == k {
        assert ledger[i].PutRecord? && ledger[i].row == k;
      }
      if i :| 0 <= i < |ledger| && ledger[i].PutRecord? && ledger[i].row == k {
        assert i < |t| ==> t[i].PutRecord? && t[i].row == k;
      }
    }
  }

  /** Whatever rows survived, recovery gives the last PUT of each key, which is
      what replaying the whole history gives; doing it again changes nothing. */
  lemma RecoveryIsReplay(rows: Rows, ledger: seq<Record>)
    requires Attested(rows, ledger)
    ensures rows + LastPuts(ledger) == LastPuts(ledger) == Replayed(rows, ledger)
    ensures LastPuts(ledger) + LastPuts(ledger) == LastPuts(ledger)
  {
    ReplayedIsOverlay(rows, ledger);
    forall k | k in rows ensures k in LastPuts(ledger) {
      var i :| 0 <= i < |ledger| && ledger[i] == PutRecord(k, rows[k]);
      assert ledger[i].PutRecord? && ledger[i].row == k;
      LastPutsFrom(ledger, k);
    }
  }

  /** A write that failed and was marked aborted is still the last PUT: the
      abort record does not withdraw it, and recovery stores it. */
  lemma AbortedWriteReturns(ledger: seq<Record>, row: RowKey, doc: bytes)
    ensures LastPuts(ledger + [PutRecord(row, doc), AbortRecord(row)]) == LastPuts(ledger)[row := doc]
  {
    var one := ledger + [PutRecord(row, doc)];
    assert ledger + [PutRecord(row, doc), AbortRecord(row)] == one + [AbortRecord(row)];
    ReplayedSnoc(map[], one, AbortRecord(row));
    ReplayedSnoc(map[], ledger, PutRecord(row, doc));
  }

  // ------------------------------------------------------------------
  // Walking the ledger backward
  // ------------------------------------------------------------------

  lemma ReplayedSnoc(rows: Rows, ledger: seq<Record>, r: Record)
    ensures Replayed(rows, ledger + [r]) ==
      if r.PutRecord? then Replayed(rows, ledger)[r.row := r.doc] else Replayed(rows, ledger)
  {
    assert (ledger + [r])[..|ledger|] == ledger;
  }

  /** An earlier record is overridden by everything after it. */
  lemma {:induction false} Earlier(r: Record, rest: seq<Record>)
    ensures LastPuts([r] + rest) == (if r.PutRecord? then map[r.row := r.doc] else map[]) + LastPuts(rest)
  {
    var all := [r] + rest;
    if rest == [] {
      assert all == [r];
      assert [r][..0] == [];
    } else {
      var t := rest[..|rest| - 1];
      assert all[..|all| - 1] == [r] + t;
      Earlier(r, t);
    }
  }

  predicate Puts(s: seq<Record>) {
    forall a :: 0 <= a < |s| ==> s[a].PutRecord?
  }

  predicate OnePerKey(s: seq<Record>)
    requires Puts(s)
  {
    forall a, b :: 0 <= a < b < |s| ==> s[a].row != s[b].row
  }

  function Reversed(s: seq<Record>): (r: seq<Record>)
    ensures |r| == |s| && forall a :: 0 <= a < |s| ==> r[a] == s[|s| - 1 - a]
  {
    if s == [] then [] else Reversed(s[1..]) + [s[0]]
  }

  /** With one PUT per key the order does not matter. */
  lemma {:induction false} ReversedPuts(s: seq<Record>)
    requires Puts(s) && OnePerKey(s)
    ensures LastPuts(Reversed(s)) == LastPuts(s)
  {
    if s != [] {
      var t := s[1..];
      OnePerTail(s, t);
      ReversedPuts(t);
      ReplayedSnoc(map[], Reversed(t), s[0]);
      Earlier(s[0], t);
      HeadTail(s);
      OverlayOne(LastPuts(t), s[0].row, s[0].doc);
    }
  }

  lemma OnePerTail(s: seq<Record>, t: seq<Record>)
    requires Puts(s) && OnePerKey(s) && s != [] && t == s[1..]
    ensures Puts(t) && OnePerKey(t) && s[0].row !in LastPuts(t)
  {
    assert forall a :: 0 <= a < |t| ==> t[a] == s[a + 1];
    LastPutsFrom(t, s[0].row);
  }

  lemma OverlayOne(m: Rows, row: RowKey, doc: bytes)
    requires row !in m
    ensures m[row := doc] == map[row := doc] + m
  {
  }

  /** Collects the last PUT of each key, from the end of the ledger. */
  method CollectLatest(ledger: seq<Record>) returns (latest: seq<Record>)
    ensures Puts(latest) && OnePerKey(latest) && LastPuts(latest) == LastPuts(ledger)
  {
    var seen: set<RowKey> := {};
    latest := [];
    var i := |ledger|;
    assert ledger[i..] == [];
    while i > 0
      invariant 0 <= i <= |ledger|
      invariant Puts(latest) && OnePerKey(latest) && LastPuts(latest) == LastPuts(ledger[i..])
      invariant seen == LastPuts(ledger[i..]).Keys
    {
      i := i - 1;
      var r := ledger[i];
      assert ledger[i..] == [r] + ledger[i + 1..];
      Earlier(r, ledger[i + 1..]);
      if r.PutRecord? && r.row !in seen {
        LastPutsFrom(latest, r.row);
        ReplayedSnoc(map[], latest, r);
        seen := seen + {r.row};
        latest := latest + [r];
      }
    }
    assert ledger[0..] == ledger;
    ReversedPuts(latest);
    latest := Reversed(latest);
  }

  // ------------------------------------------------------------------
  // The engine
  // ------------------------------------------------------------------

  class StorageEngine {
    var ledger: seq<Record>
    var rows: Rows

    ghost predicate Valid()
      reads this
    {
      Attested(rows, ledger)
    }

    constructor ()
      ensures Valid() && ledger == [] && rows == map[]
    {
      ledger, rows := [], map[];
    }

    /** The ledger entry always comes before the row, so at every point where
        this can stop, each row is attested. */
    method PutRaw(row: RowKey, doc: bytes, fortune: Fortune) returns (ok: bool)
      requires Valid()
      modifies this
      ensures Valid() && ok == (Engine.Accepts(row.key, doc) && fortune.Stored?)
      ensures rows == if ok then old(rows)[row := doc] else old(rows)
      ensures ledger == old(ledger) +
        (if !Engine.Accepts(row.key, doc) || fortune.OverQuota? || fortune.AppendFails? then []
         else if fortune.RowFails? && fortune.abortLogged then [PutRecord(row, doc), AbortRecord(row)]
         else [PutRecord(row, doc)])
    {
      if row.key == [] || |row.key| >= Engine.MAX_KEY_BYTES { return false; }
      if |doc| > Engine.MAX_DOC_BYTES { return false; }
      if fortune.OverQuota? { return false; }
      if fortune.AppendFails? { return false; }
      ledger := ledger + [PutRecord(row, doc)];
      if fortune.StopAfterAppend? { return false; }
      if fortune.RowFails? {
        if fortune.abortLogged { ledger := ledger + [AbortRecord(row)]; }
        return false;
      }
      rows := rows[row := doc];
      return true;
    }

    method AppendOther()
      requires Valid()
      modifies this`ledger
      ensures Valid() && ledger == old(ledger) + [OtherRecord]
    {
      ledger := ledger + [OtherRecord];
    }

    /** A crash: some row writes, old or new, reached the disk. */
    method Crash(survived: Rows)
      requires Attested(survived, ledger)
      modifies this`rows
      ensures Valid() && rows == survived
    {
      rows := survived;
    }

    /** Puts back the last PUT of each key, except those the back end refuses. */
    method ReplayLedger(refused: set<RowKey>)
      requires Valid()
      modifies this`rows
      ensures rows == old(rows) + (LastPuts(ledger) - refused)
      ensures Valid() && (refused == {} ==> rows == LastPuts(ledger))
    {
      RecoveryIsReplay(rows, ledger);
      var latest := CollectLatest(ledger);
      ghost var before := rows;
      rows := Materialise(rows, latest, refused);
      StillAttested(before, ledger, refused);
      assert refused == {} ==> LastPuts(ledger) - refused == LastPuts(ledger);
    }
  }

  /** Applies the collected PUTs, leaving alone rows that are already current. */
  method Materialise(rows: Rows, latest: seq<Record>, refused: set<RowKey>) returns (rows': Rows)
    requires Puts(latest) && OnePerKey(latest)
    ensures rows' == rows + (LastPuts(latest) - refused)
  {
    rows' := rows;
    for a := 0 to |latest|
      invariant rows' == rows + (LastPuts(latest[..a]) - refused)
    {
      var r := latest[a];
      assert latest[..a + 1] == latest[..a] + [r];
      ReplayedSnoc(map[], latest[..a], r);
      NotYet(latest, a);
      OverlayNext(rows, LastPuts(latest[..a]), r.row, r.doc, refused);
      if r.row in rows' && rows'[r.row] == r.doc {
        assert rows'[r.row := r.doc] == rows';
      } else if r.row !in refused {
        rows' := rows'[r.row := r.doc];
      }
    }
    assert latest[..|latest|] == latest;
  }

  lemma OverlayNext(rows: Rows, done: Rows, row: RowKey, doc: bytes, refused: set<RowKey>)
    ensures row in refused && row !in done ==> rows + (done[row := doc] - refused) == rows + (done - refused)
    ensures row !in refused ==> rows + (done[row := doc] - refused) == (rows + (done - refused))[row := doc]
  {
  }

  lemma StillAttested(rows: Rows, ledger: seq<Record>, refused: set<RowKey>)
    requires Attested(rows, ledger)
    ensures Attested(rows + (LastPuts(ledger) - refused), ledger)
  {
    var after := rows + (LastPuts(ledger) - refused);
    forall k | k in after ensures PutRecord(k, after[k]) in ledger {
      LastPutsFrom(ledger, k);
    }
  }

  lemma NotYet(latest: seq<Record>, a: nat)
    requires Puts(latest) && OnePerKey(latest) && a < |latest|
    ensures latest[a].row !in LastPuts(latest[..a])
  {
    LastPutsFrom(latest[..a], latest[a].row);
  }

  // ------------------------------------------------------------------
  // Whole runs
  // ------------------------------------------------------------------

  datatype Action =
    | Write(row: RowKey, doc: bytes, fortune: Fortune)
    | Bookkeep
    | Restart

  /** The PUT a write leaves in the ledger, if any. */
  predicate Logged(a: Action) {
    a.Write? && Engine.Accepts(a.row.key, a.doc) && !a.fortune.OverQuota? && !a.fortune.AppendFails?
  }

  /** What should be readable after recovery: for each key, the last write that
      reached the ledger, acknowledged or not. */
  function Durable(actions: seq<Action>): Rows {
    if actions == [] then map[] else
    var before, last := Durable(actions[..|actions| - 1]), actions[|actions| - 1];
    if Logged(last) then before[last.row := last.doc] else before
  }

  /** For every run, and whichever row writes survive each crash in it, recovery
      gives back exactly the durable rows. */
  method RunThenRecover(actions: seq<Action>, survived: (nat, seq<Record>) -> Rows) returns (rows: Rows)
    requires forall i, ledger :: Attested(survived(i, ledger), ledger)
    ensures rows == Durable(actions)
  {
    var engine := new StorageEngine();
    for i := 0 to |actions|
      invariant fresh(engine) && engine.Valid()
      invariant LastPuts(engine.ledger) == Durable(actions[..i])
    {
      assert actions[..i + 1][..i] == actions[..i];
      ghost var before := engine.ledger;
      match actions[i] {
        case Write(row, doc, fortune) =>
          ReplayedSnoc(map[], before, PutRecord(row, doc));
          AbortedWriteReturns(before, row, doc);
          var _ := engine.PutRaw(row, doc, fortune);
          assert before + [] == before;
        case Bookkeep =>
          ReplayedSnoc(map[], before, OtherRecord);
          engine.AppendOther();
        case Restart =>
          engine.Crash(survived(i, engine.ledger));
          engine.ReplayLedger({});
      }
    }
    assert actions[..|actions|] == actions;
    engine.Crash(survived(|actions|, engine.ledger));
    engine.ReplayLedger({});
    rows := engine.rows;
  }
}
