/** The buffer pool: a fixed number of frames over a disk of pages, with
    least-recently-unpinned eviction.  Every operation is a function of the pool's
    state; a well-behaved client cannot tell the pool from a flat memory of pages.
 */
module BufferPools {
  import opened ByteStrings

  const PAGE_SIZE := 4096

  function Blank(): bytes {
    seq(PAGE_SIZE, _ => 0)
  }

  datatype Frame = Frame(page: int, data: bytes, pins: int, dirty: bool)

  type Disk = map<int, bytes>

  /** A page that was never written reads as zeros. */
  function ReadPage(disk: Disk, p: int): bytes {
    if p in disk then disk[p] else Blank()
  }

  /** `next` is the id the disk will allocate next. */
  datatype Pool = Pool(frames: seq<Frame>, table: map<int, int>, free: seq<int>, lru: seq<int>, disk: Disk, next: int)

  // ------------------------------------------------------------------
  // The replacer's list, most recently unpinned first
  // ------------------------------------------------------------------

  predicate NoRepeat(s: seq<int>) {
    forall i, j :: 0 <= i < j < |s| ==> s[i] != s[j]
  }

  function Erase(s: seq<int>, f: int): seq<int> {
    if s == [] then [] else if s[0] == f then s[1..] else [s[0]] + Erase(s[1..], f)
  }

  lemma {:induction false} EraseFacts(s: seq<int>, f: int)
    requires NoRepeat(s)
    ensures NoRepeat(Erase(s, f))
    ensures forall x :: x in Erase(s, f) <==> x in s && x != f
  {
    if s != [] {
      var t := s[1..];
      assert s == [s[0]] + t;
      EraseFacts(t, f);
      assert s[0] !in t;
      var e := Erase(t, f);
      assert s[0] !in e;
      assert forall i :: 0 <= i < |e| ==> e[i] in e;
    }
  }

  lemma {:induction false} EraseKeeps(s: seq<int>, f: int)
    ensures forall x :: x in Erase(s, f) ==> x in s
  {
    if s != [] { EraseKeeps(s[1..], f); }
  }

  // ------------------------------------------------------------------
  // The operations
  // ------------------------------------------------------------------

  predicate InRange(s: seq<int>, n: nat) {
    forall f :: f in s ==> 0 <= f < n
  }

  /** Every entry of the page table names the frame of its page, which is not a
      free one.  Every operation keeps this, whatever the client does. */
  predicate Indexed(s: Pool) {
    && NoRepeat(s.free) && InRange(s.free, |s.frames|) && InRange(s.lru, |s.frames|)
    && (forall p :: p in s.table ==>
          0 <= s.table[p] < |s.frames| && s.frames[s.table[p]].page == p && s.table[p] !in s.free)
  }

  function Empty(size: nat, disk: Disk, next: int): (s: Pool)
    ensures Indexed(s)
  {
    Pool(seq(size, _ => Frame(-1, Blank(), 0, false)), map[], seq(size, i => i), [], disk, next)
  }

  /** A frame to fill: a free one, else the one unpinned longest ago, written
      back first if dirty. */
  function Find(s: Pool): (Pool, int)
    requires Indexed(s)
  {
    if s.free != [] then
      (s.(free := s.free[..|s.free| - 1]), s.free[|s.free| - 1])
    else if s.lru == [] then (s, -1)
    else
      var f := s.lru[|s.lru| - 1];
      assert f in s.lru;
      var v := s.frames[f];
      (s.(lru := s.lru[..|s.lru| - 1], table := s.table - {v.page},
          disk := if v.dirty then s.disk[v.page := v.data] else s.disk), f)
  }

  function Install(s: Pool, f: int, frame: Frame): Pool
    requires 0 <= f < |s.frames|
  {
    s.(frames := s.frames[f := frame], table := s.table[frame.page := f])
  }

  function Alter(s: Pool, f: int, frame: Frame): Pool
    requires 0 <= f < |s.frames|
  {
    s.(frames := s.frames[f := frame])
  }

  function Fetch(s: Pool, p: int): (Pool, int)
    requires Indexed(s)
  {
    if p in s.table then
      var f := s.table[p];
      var lru := if s.frames[f].pins == 0 then Erase(s.lru, f) else s.lru;
      (Alter(s, f, s.frames[f].(pins := s.frames[f].pins + 1)).(lru := lru), f)
    else
      FindIndexed(s);
      var (t, f) := Find(s);
      if f == -1 then (t, -1) else (Install(t, f, Frame(p, ReadPage(t.disk, p), 1, false)), f)
  }

  function New(s: Pool): (Pool, int)
    requires Indexed(s)
  {
    FindIndexed(s);
    var (t, f) := Find(s);
    if f == -1 then (t, -1) else (Install(t, f, Frame(t.next, Blank(), 1, true)).(next := t.next + 1), f)
  }

  function Unpin(s: Pool, p: int, isDirty: bool): (Pool, bool)
    requires Indexed(s)
  {
    if p !in s.table || s.frames[s.table[p]].pins <= 0 then (s, false)
    else
      var f := s.table[p];
      var frame := s.frames[f].(dirty := s.frames[f].dirty || isDirty, pins := s.frames[f].pins - 1);
      (Alter(s, f, frame).(lru := if frame.pins == 0 then [f] + Erase(s.lru, f) else s.lru), true)
  }

  function Flush(s: Pool, p: int): (Pool, bool)
    requires Indexed(s)
  {
    if p !in s.table then (s, false)
    else
      var f := s.table[p];
      (Alter(s, f, s.frames[f].(dirty := false)).(disk := s.disk[p := s.frames[f].data]), true)
  }

  /** The dirty ones of these pages are written and become clean. */
  function FlushSome(s: Pool, keys: set<int>): Pool
    requires Indexed(s)
  {
    var due := Due(s, keys);
    s.(frames := Cleaned(s.frames, s.table, due), disk := s.disk + map p | p in due :: s.frames[s.table[p]].data)
  }

  function Cleaned(frames: seq<Frame>, table: map<int, int>, due: set<int>): (r: seq<Frame>)
    ensures |r| == |frames|
  {
    seq(|frames|, f requires 0 <= f < |frames| =>
      if frames[f].page in due && Resident(frames, table, f) then frames[f].(dirty := false) else frames[f])
  }

  function FlushAll(s: Pool): Pool
    requires Indexed(s)
  {
    FlushSome(s, s.table.Keys)
  }

  lemma FindIndexed(s: Pool)
    requires Indexed(s)
    ensures var (t, f) := Find(s);
      && Indexed(t) && t.frames == s.frames && t.next == s.next && -1 <= f < |s.frames|
      && f !in t.free && forall p :: p in t.table ==> p in s.table && t.table[p] == s.table[p] != f
  {
    var (t, f) := Find(s);
    if s.free != [] {
      DropLast(s.free, t.free);
      assert f in s.free;
    } else if s.lru != [] {
      assert f in s.lru;
      assert forall x :: x in t.lru ==> x in s.lru;
    }
  }

  lemma FetchIndexed(s: Pool, p: int)
    requires Indexed(s)
    ensures Indexed(Fetch(s, p).0) && -1 <= Fetch(s, p).1 < |s.frames|
  {
    FindIndexed(s);
    if p in s.table { EraseKeeps(s.lru, s.table[p]); }
  }

  lemma NewIndexed(s: Pool)
    requires Indexed(s)
    ensures Indexed(New(s).0) && -1 <= New(s).1 < |s.frames|
  {
    FindIndexed(s);
  }

  lemma UnpinIndexed(s: Pool, p: int, isDirty: bool)
    requires Indexed(s)
    ensures Indexed(Unpin(s, p, isDirty).0)
  {
    if p in s.table { EraseKeeps(s.lru, s.table[p]); }
  }

  class BufferPool {
    var frames: seq<Frame>
    var table: map<int, int>
    var free: seq<int>
    var lru: seq<int>
    var disk: Disk
    var next: int

    ghost function State(): Pool
      reads this
    {
      Pool(frames, table, free, lru, disk, next)
    }

    constructor (size: nat, d: Disk, n: int)
      ensures State() == Empty(size, d, n)
    {
      frames := seq(size, _ => Frame(-1, Blank(), 0, false));
      free := seq(size, i => i);
      table, lru, disk, next := map[], [], d, n;
    }

    method FindFreeOrVictimFrame() returns (f: int)
      requires Indexed(State())
      modifies this`free, this`lru, this`disk, this`table
      ensures (State(), f) == Find(old(State()))
    {
      if free != [] {
        f := free[|free| - 1];
        free := free[..|free| - 1];
        return;
      }
      if lru == [] { return -1; }
      f := lru[|lru| - 1];
      assert f in lru;
      lru := lru[..|lru| - 1];
      var victim := frames[f];
      if victim.dirty { disk := disk[victim.page := victim.data]; }
      table := table - {victim.page};
    }

    method FetchPage(p: int) returns (f: int)
      requires Indexed(State())
      modifies this`frames, this`free, this`lru, this`disk, this`table
      ensures Indexed(State()) && (State(), f) == Fetch(old(State()), p)
    {
      FetchIndexed(State(), p);
      if p in table {
        f := table[p];
        if frames[f].pins == 0 { lru := Erase(lru, f); }
        frames := frames[f := frames[f].(pins := frames[f].pins + 1)];
        return;
      }
      FindIndexed(State());
      f := FindFreeOrVictimFrame();
      if f == -1 { return; }
      frames := frames[f := Frame(p, ReadPage(disk, p), 1, false)];
      table := table[p := f];
    }

    method NewPage() returns (f: int, p: int)
      requires Indexed(State())
      modifies this`frames, this`free, this`lru, this`disk, this`table, this`next
      ensures Indexed(State()) && (State(), f) == New(old(State()))
      ensures f != -1 ==> p == old(next)
    {
      NewIndexed(State());
      FindIndexed(State());
      p := -1;
      f := FindFreeOrVictimFrame();
      if f == -1 { return; }
      p := next;
      next := next + 1;
      frames := frames[f := Frame(p, Blank(), 1, true)];
      table := table[p := f];
    }

    method UnpinPage(p: int, isDirty: bool) returns (ok: bool)
      requires Indexed(State())
      modifies this`frames, this`lru
      ensures Indexed(State()) && (State(), ok) == Unpin(old(State()), p, isDirty)
    {
      UnpinIndexed(State(), p, isDirty);
      if p !in table { return false; }
      var f := table[p];
      if frames[f].pins <= 0 { return false; }
      if isDirty { frames := frames[f := frames[f].(dirty := true)]; }
      frames := frames[f := frames[f].(pins := frames[f].pins - 1)];
      assert frames == old(frames)[f := frames[f]];
      if frames[f].pins == 0 { lru := [f] + Erase(lru, f); }
      return true;
    }

    method FlushPage(p: int) returns (ok: bool)
      requires Indexed(State())
      modifies this`frames, this`disk
      ensures Indexed(State()) && (State(), ok) == Flush(old(State()), p)
    {
      if p !in table { return false; }
      var f := table[p];
      disk := disk[p := frames[f].data];
      frames := frames[f := frames[f].(dirty := false)];
      return true;
    }

    /** `order` is the order in which the page table is walked. */
    method FlushAllPages(order: seq<int>)
      requires Indexed(State())
      requires NoRepeat(order) && forall p :: p in order <==> p in table
      modifies this`frames, this`disk
      ensures Indexed(State()) && State() == FlushAll(old(State()))
    {
      ghost var before, done := State(), {};
      FlushNone(before);
      for i := 0 to |order|
        invariant State() == FlushSome(before, done)
        invariant forall p :: p in done <==> p in order[..i]
      {
        var p := order[i];
        assert p in order;
        assert p !in order[..i];
        FlushNext(before, done, p);
        var f := table[p];
        if frames[f].dirty {
          disk := disk[p := frames[f].data];
          frames := frames[f := frames[f].(dirty := false)];
        }
        done := done + {p};
        assert order[..i + 1] == order[..i] + [p];
      }
      assert order[..|order|] == order;
      assert done == before.table.Keys by {
        assert forall p :: p in done <==> p in before.table.Keys;
      }
    }
  }

  lemma FlushNone(s: Pool)
    requires Indexed(s)
    ensures FlushSome(s, {}) == s
  {
    assert FlushSome(s, {}).frames == s.frames;
  }

  function Due(s: Pool, keys: set<int>): set<int>
    requires Indexed(s)
  {
    set p | p in keys && p in s.table && s.frames[s.table[p]].dirty
  }

  lemma CleanedNext(s: Pool, due: set<int>, p: int)
    requires Indexed(s) && p in s.table && p !in due
    ensures var before, f := Cleaned(s.frames, s.table, due), s.table[p];
      && before[f] == s.frames[f]
      && Cleaned(s.frames, s.table, due + {p}) == before[f := s.frames[f].(dirty := false)]
  {
  }

  lemma FlushNext(s: Pool, keys: set<int>, p: int)
    requires Indexed(s) && p in s.table && p !in keys
    ensures var t, u, f := FlushSome(s, keys), FlushSome(s, keys + {p}), s.table[p];
      && t.frames[f] == s.frames[f] && t.table == s.table
      && u ==
         if !s.frames[f].dirty then t
         else Alter(t, f, t.frames[f].(dirty := false)).(disk := t.disk[p := s.frames[f].data])
  {
    var f, due := s.table[p], Due(s, keys);
    CleanedNext(s, due, p);
    if s.frames[f].dirty {
      assert Due(s, keys + {p}) == due + {p};
      assert FlushSome(s, keys + {p}).disk == FlushSome(s, keys).disk[p := s.frames[f].data];
    } else {
      assert Due(s, keys + {p}) == due;
    }
  }

  // ------------------------------------------------------------------
  // Soundness
  // ------------------------------------------------------------------

  predicate Resident(frames: seq<Frame>, table: map<int, int>, f: int) {
    0 <= f < |frames| && frames[f].page in table && table[frames[f].page] == f
  }

  predicate TableOk(frames: seq<Frame>, table: map<int, int>) {
    forall p :: p in table ==> 0 <= table[p] < |frames| && frames[table[p]].page == p && frames[table[p]].pins >= 0
  }

  /** Apart from `limbo`, a frame being handed over, every frame is exactly one
      of free, pinned and resident, or resident and in the eviction list. */
  ghost predicate Placed(frames: seq<Frame>, table: map<int, int>, free: seq<int>, lru: seq<int>, limbo: int) {
    && NoRepeat(free) && NoRepeat(lru) && InRange(free, |frames|) && InRange(lru, |frames|)
    && (forall f :: 0 <= f < |frames| ==> PlacedFrame(frames, table, free, lru, limbo, f))
  }

  ghost predicate PlacedFrame(frames: seq<Frame>, table: map<int, int>, free: seq<int>, lru: seq<int>, limbo: int,
                              f: int)
    requires 0 <= f < |frames|
  {
    && (f in lru <==> Resident(frames, table, f) && frames[f].pins == 0)
    && (f in free ==> !Resident(frames, table, f) && f != limbo)
    && (f == limbo ==> !Resident(frames, table, f))
    && (f != limbo ==> f in free || Resident(frames, table, f))
  }

  /** A frame nobody holds and nobody reported written equals its page on disk. */
  ghost predicate CleanOk(frames: seq<Frame>, table: map<int, int>, disk: Disk)
    requires TableOk(frames, table)
  {
    forall p :: p in table && frames[table[p]].pins == 0 && !frames[table[p]].dirty ==>
      ReadPage(disk, p) == frames[table[p]].data
  }

  ghost predicate SoundBut(s: Pool, limbo: int) {
    TableOk(s.frames, s.table) && Placed(s.frames, s.table, s.free, s.lru, limbo) && CleanOk(s.frames, s.table, s.disk)
  }

  ghost predicate Sound(s: Pool) {
    SoundBut(s, -1)
  }

  ghost predicate AllPinned(s: Pool) {
    forall f :: 0 <= f < |s.frames| ==> Resident(s.frames, s.table, f) && s.frames[f].pins > 0
  }

  /** What a page holds, wherever it is. */
  function Held(s: Pool, p: int): bytes
    requires TableOk(s.frames, s.table)
  {
    if p in s.table then s.frames[s.table[p]].data else ReadPage(s.disk, p)
  }

  ghost predicate SameContent(s: Pool, t: Pool)
    requires TableOk(s.frames, s.table) && TableOk(t.frames, t.table)
  {
    forall p :: Held(t, p) == Held(s, p)
  }

  lemma SoundIndexed(s: Pool)
    requires Sound(s)
    ensures Indexed(s)
  {
    forall p | p in s.table ensures s.table[p] !in s.free {
      assert PlacedFrame(s.frames, s.table, s.free, s.lru, -1, s.table[p]);
    }
  }

  lemma EmptySound(size: nat, disk: Disk, next: int)
    ensures Sound(Empty(size, disk, next)) && forall p :: Held(Empty(size, disk, next), p) == ReadPage(disk, p)
  {
    var s := Empty(size, disk, next);
    forall f | 0 <= f < |s.frames| ensures PlacedFrame(s.frames, s.table, s.free, s.lru, -1, f) {
      assert s.free[f] == f;
    }
  }

  lemma DropLast(s: seq<int>, rest: seq<int>)
    requires NoRepeat(s) && s != [] && rest == s[..|s| - 1]
    ensures NoRepeat(rest) && forall x :: x in rest <==> x in s && x != s[|s| - 1]
  {
    assert s == rest + [s[|s| - 1]];
  }

  lemma FreeTaken(frames: seq<Frame>, table: map<int, int>, free: seq<int>, lru: seq<int>)
    requires Placed(frames, table, free, lru, -1) && free != []
    ensures Placed(frames, table, free[..|free| - 1], lru, free[|free| - 1])
    ensures !Resident(frames, table, free[|free| - 1])
  {
    var f, rest := free[|free| - 1], free[..|free| - 1];
    DropLast(free, rest);
    assert f in free;
    forall g | 0 <= g < |frames| ensures PlacedFrame(frames, table, rest, lru, f, g) {
      assert PlacedFrame(frames, table, free, lru, -1, g);
    }
    assert PlacedFrame(frames, table, free, lru, -1, f);
  }

  lemma Evicted(frames: seq<Frame>, table: map<int, int>, free: seq<int>, lru: seq<int>)
    requires TableOk(frames, table) && Placed(frames, table, free, lru, -1) && lru != []
    ensures var f := lru[|lru| - 1];
      && Resident(frames, table, f) && frames[f].pins == 0
      && Placed(frames, table - {frames[f].page}, free, lru[..|lru| - 1], f)
  {
    var f, rest := lru[|lru| - 1], lru[..|lru| - 1];
    DropLast(lru, rest);
    assert f in lru;
    assert PlacedFrame(frames, table, free, lru, -1, f);
    var table' := table - {frames[f].page};
    forall g | 0 <= g < |frames| ensures PlacedFrame(frames, table', free, rest, f, g) {
      assert PlacedFrame(frames, table, free, lru, -1, g);
      assert Resident(frames, table', g) <==> Resident(frames, table, g) && g != f;
    }
  }

  /** There is no frame to fill exactly when every frame is pinned, and finding
      one changes no page's content. */
  lemma FindSound(s: Pool)
    requires Indexed(s) && Sound(s)
    ensures var (t, f) := Find(s);
      SoundBut(t, f) && (f == -1 <==> AllPinned(s)) && (f == -1 ==> t == s) && SameContent(s, t)
  {
    if s.free != [] {
      FreeTaken(s.frames, s.table, s.free, s.lru);
      assert s.free[|s.free| - 1] in s.free;
    } else if s.lru == [] {
      forall f | 0 <= f < |s.frames| ensures Resident(s.frames, s.table, f) && s.frames[f].pins > 0 {
        assert PlacedFrame(s.frames, s.table, [], [], -1, f);
      }
    } else {
      Evicted(s.frames, s.table, s.free, s.lru);
    }
  }

  /** Loading a page into the frame being handed over. */
  lemma Filled(s: Pool, f: int, frame: Frame)
    requires SoundBut(s, f) && 0 <= f < |s.frames|
    requires frame.page !in s.table && frame.pins == 1
    ensures Sound(Install(s, f, frame))
    ensures forall p :: p in s.table ==> s.table[p] != f
  {
    var t := Install(s, f, frame);
    assert PlacedFrame(s.frames, s.table, s.free, s.lru, f, f);
    assert !Resident(s.frames, s.table, f);
    assert forall p :: p in s.table ==> s.frames[s.table[p]].page == p;
    forall g | 0 <= g < |t.frames| ensures PlacedFrame(t.frames, t.table, t.free, t.lru, -1, g) {
      assert PlacedFrame(s.frames, s.table, s.free, s.lru, f, g);
      assert g != f ==> (Resident(t.frames, t.table, g) <==> Resident(s.frames, s.table, g));
    }
  }

  /** A resident frame's pin count, data or dirty bit changes. */
  lemma Altered(s: Pool, f: int, frame: Frame, lru: seq<int>)
    requires TableOk(s.frames, s.table) && Placed(s.frames, s.table, s.free, s.lru, -1)
    requires Resident(s.frames, s.table, f)
    requires frame.page == s.frames[f].page && frame.pins >= 0 && NoRepeat(lru)
    requires forall g :: g in lru <==> (g in s.lru && g != f) || (g == f && frame.pins == 0)
    ensures TableOk(Alter(s, f, frame).frames, s.table)
    ensures Placed(Alter(s, f, frame).frames, s.table, s.free, lru, -1)
  {
    var frames := s.frames[f := frame];
    forall g | 0 <= g < |frames| ensures PlacedFrame(frames, s.table, s.free, lru, -1, g) {
      assert PlacedFrame(s.frames, s.table, s.free, s.lru, -1, g);
      assert Resident(frames, s.table, g) <==> Resident(s.frames, s.table, g);
    }
  }

  /** A fetched frame holds the page's content, with one more pin; a fetch fails
      exactly when the page is not resident and every frame is pinned. */
  lemma FetchSound(s: Pool, p: int)
    requires Indexed(s) && Sound(s)
    ensures var (t, f) := Fetch(s, p);
      && Sound(t) && SameContent(s, t)
      && (f == -1 <==> p !in s.table && AllPinned(s)) && (f == -1 ==> t == s)
      && (f != -1 ==> p in t.table && t.table[p] == f && t.frames[f].data == Held(s, p))
      && (f != -1 ==> t.frames[f].pins == (if p in s.table then s.frames[s.table[p]].pins else 0) + 1)
  {
    if p in s.table {
      var f := s.table[p];
      EraseFacts(s.lru, f);
      assert PlacedFrame(s.frames, s.table, s.free, s.lru, -1, f);
      Altered(s, f, s.frames[f].(pins := s.frames[f].pins + 1), Fetch(s, p).0.lru);
    } else {
      FindIndexed(s);
      FindSound(s);
      var (t, f) := Find(s);
      if f != -1 { Filled(t, f, Frame(p, ReadPage(t.disk, p), 1, false)); }
    }
  }

  /** The id about to be allocated is resident, and not in the frame about to be
      evicted for it. */
  predicate Stale(s: Pool)
    requires Indexed(s)
  {
    s.next in s.table &&
    !(s.free == [] && s.lru != [] && (assert s.lru[|s.lru| - 1] in s.lru; s.frames[s.lru[|s.lru| - 1]].page == s.next))
  }

  /** A new page is blank and changes no other; the pool stays sound exactly when
      the id handed out is not resident already. */
  lemma NewExactly(s: Pool)
    requires Indexed(s) && Sound(s)
    ensures var (t, f) := New(s);
      && (f == -1 <==> AllPinned(s)) && (f == -1 ==> t == s)
      && TableOk(t.frames, t.table)
      && (f != -1 ==> s.next in t.table && t.table[s.next] == f && t.next == s.next + 1)
      && (f != -1 ==> t.frames[f] == Frame(s.next, Blank(), 1, true) && Held(t, s.next) == Blank())
      && (f != -1 ==> (Sound(t) <==> !Stale(s)))
      && (forall q :: q != s.next ==> Held(t, q) == Held(s, q))
  {
    FindIndexed(s);
    FindSound(s);
    var (t, f) := Find(s);
    if f != -1 {
      var frame := Frame(s.next, Blank(), 1, true);
      if s.next in t.table {
        StaleStays(s, t, f, frame);
      } else {
        Filled(t, f, frame);
      }
      NextGone(s, t, f);
    }
  }

  lemma NextGone(s: Pool, t: Pool, f: int)
    requires Indexed(s) && Sound(s) && (t, f) == Find(s) && f != -1
    ensures s.next in t.table <==> Stale(s)
  {
    if s.free == [] && s.lru != [] { assert s.lru[|s.lru| - 1] in s.lru; }
  }

  /** The frame that held the id is neither resident nor free any more. */
  lemma StaleStays(s: Pool, t: Pool, f: int, frame: Frame)
    requires Indexed(s) && Sound(s) && (t, f) == Find(s) && f != -1 && 0 <= f < |t.frames|
    requires Indexed(t) && SoundBut(t, f) && s.next in t.table && frame.page == s.next && frame.pins == 1
    requires forall p :: p in t.table ==> t.table[p] != f
    ensures TableOk(Install(t, f, frame).frames, Install(t, f, frame).table)
    ensures !Sound(Install(t, f, frame))
  {
    var g, u := t.table[s.next], Install(t, f, frame);
    assert PlacedFrame(t.frames, t.table, t.free, t.lru, f, g);
    assert !PlacedFrame(u.frames, u.table, u.free, u.lru, -1, g);
  }

  /** The last holder leaves without reporting that the page differs from the
      disk, and nobody reported it before. */
  predicate Forgets(s: Pool, p: int, isDirty: bool)
    requires Indexed(s)
  {
    p in s.table && var frame := s.frames[s.table[p]];
      frame.pins == 1 && !isDirty && !frame.dirty && frame.data != ReadPage(s.disk, p)
  }

  /** Unpinning changes no content; the pool stays sound exactly when the last
      holder does not forget to report a change. */
  lemma UnpinExactly(s: Pool, p: int, isDirty: bool)
    requires Indexed(s) && Sound(s)
    ensures var (t, ok) := Unpin(s, p, isDirty);
      && ok == (p in s.table && s.frames[s.table[p]].pins > 0) && (!ok ==> t == s)
      && TableOk(t.frames, t.table) && SameContent(s, t) && t.table == s.table
      && (ok ==> t.frames[s.table[p]].pins == s.frames[s.table[p]].pins - 1)
      && (Sound(t) <==> !Forgets(s, p, isDirty))
  {
    var (t, ok) := Unpin(s, p, isDirty);
    if ok {
      var f := s.table[p];
      EraseFacts(s.lru, f);
      assert PlacedFrame(s.frames, s.table, s.free, s.lru, -1, f);
      Altered(s, f, t.frames[f], t.lru);
    }
  }

  function Scribble(s: Pool, f: int, data: bytes): Pool
    requires 0 <= f < |s.frames|
  {
    Alter(s, f, s.frames[f].(data := data))
  }

  /** A client writes through the frame it holds. */
  lemma ScribbleSound(s: Pool, p: int, data: bytes)
    requires Sound(s) && p in s.table && s.frames[s.table[p]].pins > 0
    ensures var t := Scribble(s, s.table[p], data);
      Sound(t) && forall q :: Held(t, q) == if q == p then data else Held(s, q)
  {
    var f := s.table[p];
    assert PlacedFrame(s.frames, s.table, s.free, s.lru, -1, f);
    Altered(s, f, s.frames[f].(data := data), s.lru);
  }

  lemma FlushSound(s: Pool, p: int)
    requires Indexed(s) && Sound(s)
    ensures var (t, ok) := Flush(s, p);
      Sound(t) && SameContent(s, t) && ok == (p in s.table) && (ok ==> ReadPage(t.disk, p) == Held(s, p))
  {
    if p in s.table {
      var f := s.table[p];
      assert PlacedFrame(s.frames, s.table, s.free, s.lru, -1, f);
      Altered(s, f, s.frames[f].(dirty := false), s.lru);
    }
  }

  /** A holder has changed the page and nobody has reported it. */
  predicate Unreported(s: Pool, p: int)
    requires TableOk(s.frames, s.table)
  {
    p in s.table && !s.frames[s.table[p]].dirty && s.frames[s.table[p]].data != ReadPage(s.disk, p)
  }

  /** Afterwards the disk alone holds every page but the unreported ones. */
  lemma FlushAllSound(s: Pool)
    requires Indexed(s) && Sound(s)
    ensures var t := FlushAll(s);
      && Sound(t) && SameContent(s, t)
      && forall p :: ReadPage(t.disk, p) == Held(s, p) <==> !Unreported(s, p)
  {
    var t := FlushAll(s);
    forall f | 0 <= f < |t.frames| ensures PlacedFrame(t.frames, t.table, t.free, t.lru, -1, f) {
      assert PlacedFrame(s.frames, s.table, s.free, s.lru, -1, f);
      assert Resident(t.frames, t.table, f) <==> Resident(s.frames, s.table, f);
    }
  }

  // ------------------------------------------------------------------
  // Every run
  // ------------------------------------------------------------------

  datatype Op =
    | Fetching(p: int)
    | Creating
    | Writing(p: int, data: bytes)
    | Unpinning(p: int, isDirty: bool)
    | Flushing(p: int)
    | FlushingAll

  /** A client writes only through a frame it holds. */
  predicate Possible(s: Pool, op: Op) {
    Indexed(s) && (op.Writing? ==> op.p in s.table && s.frames[s.table[op.p]].pins > 0)
  }

  function Step(s: Pool, op: Op): Pool
    requires Possible(s, op)
  {
    match op
    case Fetching(p) => Fetch(s, p).0
    case Creating => New(s).0
    case Writing(p, data) => Scribble(s, s.table[p], data)
    case Unpinning(p, isDirty) => Unpin(s, p, isDirty).0
    case Flushing(p) => Flush(s, p).0
    case FlushingAll => FlushAll(s)
  }

  /** What the client must see to: no id is fetched before it is allocated, and
      changes are reported. */
  predicate Proper(s: Pool, op: Op)
    requires Indexed(s)
  {
    match op
    case Creating => New(s).1 == -1 || !Stale(s)
    case Unpinning(p, isDirty) => !Forgets(s, p, isDirty)
    case _ => true
  }

  /** The same operation on a flat memory of pages. */
  function Plain(s: Pool, m: Disk, op: Op): Disk
    requires Possible(s, op)
  {
    match op
    case Creating => if New(s).1 == -1 then m else m[s.next := Blank()]
    case Writing(p, data) => m[p := data]
    case _ => m
  }

  ghost predicate Agrees(s: Pool, m: Disk) {
    TableOk(s.frames, s.table) && forall p :: Held(s, p) == ReadPage(m, p)
  }

  lemma StepExactly(s: Pool, m: Disk, op: Op)
    requires Possible(s, op) && Sound(s) && Agrees(s, m)
    ensures Sound(Step(s, op)) <==> Proper(s, op)
    ensures Agrees(Step(s, op), Plain(s, m, op))
  {
    match op
    case Fetching(p) => FetchSound(s, p);
    case Creating => NewExactly(s);
    case Writing(p, data) => ScribbleSound(s, p, data);
    case Unpinning(p, isDirty) => UnpinExactly(s, p, isDirty);
    case Flushing(p) => FlushSound(s, p);
    case FlushingAll => FlushAllSound(s);
  }

  ghost predicate Run(s: Pool, ops: seq<Op>, end: Pool)
    decreases |ops|
  {
    if ops == [] then end == s
    else Possible(s, ops[0]) && Run(Step(s, ops[0]), ops[1..], end)
  }

  ghost predicate AlwaysSound(s: Pool, ops: seq<Op>)
    decreases |ops|
  {
    Sound(s) && (ops != [] ==> Possible(s, ops[0]) && AlwaysSound(Step(s, ops[0]), ops[1..]))
  }

  ghost predicate AlwaysProper(s: Pool, ops: seq<Op>)
    decreases |ops|
  {
    ops != [] ==> Possible(s, ops[0]) && Proper(s, ops[0]) && AlwaysProper(Step(s, ops[0]), ops[1..])
  }

  function PlainRun(s: Pool, m: Disk, ops: seq<Op>): Disk
    decreases |ops|
  {
    if ops == [] || !Possible(s, ops[0]) then m else PlainRun(Step(s, ops[0]), Plain(s, m, ops[0]), ops[1..])
  }

  /** The pool is sound all through a run exactly when the client is proper all
      through it, and then it holds what a flat memory would. */
  lemma {:induction false} RunExactly(s: Pool, m: Disk, ops: seq<Op>, end: Pool)
    requires Sound(s) && Agrees(s, m) && Run(s, ops, end)
    ensures AlwaysSound(s, ops) <==> AlwaysProper(s, ops)
    ensures AlwaysProper(s, ops) ==> Sound(end) && Agrees(end, PlainRun(s, m, ops))
    decreases |ops|
  {
    if ops != [] {
      StepExactly(s, m, ops[0]);
      if Proper(s, ops[0]) {
        RunExactly(Step(s, ops[0]), Plain(s, m, ops[0]), ops[1..], end);
      } else {
        assert !AlwaysSound(Step(s, ops[0]), ops[1..]);
      }
    }
  }

  /** After any proper run from an empty pool, a page that can be fetched reads as
      in flat memory, and after a flush a new pool over the disk holds exactly
      the flat memory if and only if no change is unreported. */
  lemma PoolInvisible(size: nat, disk: Disk, next: int, ops: seq<Op>, end: Pool, p: int, again: nat)
    requires Run(Empty(size, disk, next), ops, end) && AlwaysProper(Empty(size, disk, next), ops)
    ensures Indexed(end) && TableOk(end.frames, end.table)
    ensures var m := PlainRun(Empty(size, disk, next), disk, ops);
      && (Fetch(end, p).1 == -1 <==> p !in end.table && AllPinned(end))
      && (Fetch(end, p).1 != -1 ==>
            0 <= Fetch(end, p).1 < |end.frames| && Fetch(end, p).0.frames[Fetch(end, p).1].data == ReadPage(m, p))
      && (Agrees(Empty(again, FlushAll(end).disk, next), m) <==> forall q :: !Unreported(end, q))
  {
    var s := Empty(size, disk, next);
    EmptySound(size, disk, next);
    RunExactly(s, disk, ops, end);
    SoundIndexed(end);
    FetchIndexed(end, p);
    FetchSound(end, p);
    FlushAllSound(end);
    var m, fresh' := PlainRun(s, disk, ops), Empty(again, FlushAll(end).disk, next);
    forall q ensures Held(fresh', q) == ReadPage(m, q) <==> !Unreported(end, q) {
      assert Held(end, q) == ReadPage(m, q);
    }
  }

  // ------------------------------------------------------------------
  // Which page is evicted
  // ------------------------------------------------------------------

  /** The operation at which each frame was last released by its last holder. */
  function Releases(s: Pool, ops: seq<Op>, now: nat, times: map<int, nat>): map<int, nat>
    decreases |ops|
  {
    if ops == [] || !Possible(s, ops[0]) then times
    else Releases(Step(s, ops[0]), ops[1..], now + 1, Noted(s, ops[0], now, times))
  }

  function Noted(s: Pool, op: Op, now: nat, times: map<int, nat>): map<int, nat>
    requires Indexed(s)
  {
    if op.Unpinning? && op.p in s.table && s.frames[s.table[op.p]].pins == 1 then times[s.table[op.p] := now] else times
  }

  /** The eviction list is in the order of release, the latest first. */
  predicate InOrder(lru: seq<int>, times: map<int, nat>, now: nat) {
    && (forall i :: 0 <= i < |lru| ==> lru[i] in times && times[lru[i]] < now)
    && (forall i, j :: 0 <= i < j < |lru| ==> times[lru[j]] < times[lru[i]])
  }

  lemma {:induction false} EraseInOrder(lru: seq<int>, f: int, times: map<int, nat>, now: nat)
    requires InOrder(lru, times, now)
    ensures InOrder(Erase(lru, f), times, now)
    ensures f !in Erase(lru, f) && forall g :: g in Erase(lru, f) ==> g in lru
  {
    if lru != [] {
      var rest := lru[1..];
      assert forall i :: 0 <= i < |rest| ==> rest[i] == lru[i + 1];
      EraseInOrder(rest, f, times, now);
      if lru[0] != f {
        OlderBehind(lru[0], Erase(rest, f), rest, times, now);
      } else {
        assert forall i :: 0 <= i < |rest| ==> rest[i] != f;
      }
    }
  }

  lemma OlderBehind(f: int, e: seq<int>, rest: seq<int>, times: map<int, nat>, now: nat)
    requires f in times && times[f] < now && InOrder(e, times, now) && InOrder(rest, times, now)
    requires (forall i :: 0 <= i < |rest| ==> times[rest[i]] < times[f]) && forall g :: g in e ==> g in rest
    ensures InOrder([f] + e, times, now)
  {
    forall i | 0 <= i < |e| ensures times[e[i]] < times[f] {
      assert e[i] in e;
      var j :| 0 <= j < |rest| && rest[j] == e[i];
    }
  }

  lemma ReleasedFirst(f: int, e: seq<int>, times: map<int, nat>, now: nat)
    requires InOrder(e, times, now) && f !in e
    ensures InOrder([f] + e, times[f := now], now + 1)
  {
    assert forall i :: 0 <= i < |e| ==> e[i] in e;
  }

  lemma LaterOrder(lru: seq<int>, times: map<int, nat>, now: nat)
    requires InOrder(lru, times, now)
    ensures InOrder(lru, times, now + 1)
  {
  }

  lemma FrontInOrder(lru: seq<int>, times: map<int, nat>, now: nat)
    requires InOrder(lru, times, now) && lru != []
    ensures InOrder(lru[..|lru| - 1], times, now)
  {
  }

  lemma StepInOrder(s: Pool, op: Op, now: nat, times: map<int, nat>)
    requires Possible(s, op) && InOrder(s.lru, times, now)
    ensures InOrder(Step(s, op).lru, Noted(s, op, now, times), now + 1)
  {
    LaterOrder(s.lru, times, now);
    match op
    case Fetching(p) =>
      if p in s.table { EraseInOrder(s.lru, s.table[p], times, now + 1); }
      else if s.lru != [] { FrontInOrder(s.lru, times, now + 1); }
    case Creating =>
      if s.lru != [] { FrontInOrder(s.lru, times, now + 1); }
    case Unpinning(p, _) =>
      if p in s.table && s.frames[s.table[p]].pins == 1 {
        EraseInOrder(s.lru, s.table[p], times, now);
        ReleasedFirst(s.table[p], Erase(s.lru, s.table[p]), times, now);
      }
    case _ =>
  }

  lemma {:induction false} RunInOrder(s: Pool, ops: seq<Op>, end: Pool, now: nat, times: map<int, nat>)
    requires Run(s, ops, end) && InOrder(s.lru, times, now)
    ensures InOrder(end.lru, Releases(s, ops, now, times), now + |ops|)
    decreases |ops|
  {
    if ops != [] {
      StepInOrder(s, ops[0], now, times);
      RunInOrder(Step(s, ops[0]), ops[1..], end, now + 1, Noted(s, ops[0], now, times));
    }
  }

  /** The frame was released before every other frame that nobody holds. */
  ghost predicate LeastRecent(s: Pool, times: map<int, nat>, f: int) {
    && Resident(s.frames, s.table, f) && s.frames[f].pins == 0 && f in times
    && forall g :: Resident(s.frames, s.table, g) && s.frames[g].pins == 0 && g != f ==>
         g in times && times[f] < times[g]
  }

  /** After any proper run from an empty pool, a page that is not resident, fetched or
      new, goes into a free frame if there is one, and nothing is evicted; otherwise
      into the frame released longest ago. */
  lemma EvictsLeastRecent(size: nat, disk: Disk, next: int, ops: seq<Op>, end: Pool, p: int)
    requires Run(Empty(size, disk, next), ops, end) && AlwaysProper(Empty(size, disk, next), ops)
    ensures Indexed(end)
    ensures var times := Releases(Empty(size, disk, next), ops, 0, map[]);
      && (p !in end.table && end.free != [] ==>
            var (t, f) := Fetch(end, p); f in end.free && t.table == end.table[p := f])
      && (end.free != [] ==> var (t, f) := New(end); f in end.free && t.table == end.table[end.next := f])
      && (p !in end.table && end.free == [] && Fetch(end, p).1 != -1 ==> LeastRecent(end, times, Fetch(end, p).1))
      && (end.free == [] && New(end).1 != -1 ==> LeastRecent(end, times, New(end).1))
  {
    var s := Empty(size, disk, next);
    EmptySound(size, disk, next);
    RunExactly(s, disk, ops, end);
    SoundIndexed(end);
    RunInOrder(s, ops, end, 0, map[]);
    FindIndexed(end);
    if end.free == [] && end.lru != [] {
      LastIsLeast(end, Releases(s, ops, 0, map[]), |ops|);
    } else if end.free != [] {
      assert Find(end).1 in end.free;
    }
  }

  lemma LastIsLeast(s: Pool, times: map<int, nat>, now: nat)
    requires Sound(s) && InOrder(s.lru, times, now) && s.lru != []
    ensures LeastRecent(s, times, s.lru[|s.lru| - 1])
  {
    var f := s.lru[|s.lru| - 1];
    assert f in s.lru;
    assert PlacedFrame(s.frames, s.table, s.free, s.lru, -1, f);
    forall g | Resident(s.frames, s.table, g) && s.frames[g].pins == 0 && g != f
      ensures g in times && times[f] < times[g]
    {
      assert PlacedFrame(s.frames, s.table, s.free, s.lru, -1, g);
      var i :| 0 <= i < |s.lru| && s.lru[i] == g;
    }
  }

  /** A fetch writes to disk at most the evicted page, and only if it was reported
      changed. */
  lemma FetchWritesBack(s: Pool, p: int, q: int)
    requires Indexed(s) && Sound(s)
    ensures var t := Fetch(s, p).0.disk;
      (q in t) != (q in s.disk) || (q in t && t[q] != s.disk[q]) ==>
        q in s.table && q !in Fetch(s, p).0.table && s.frames[s.table[q]].dirty && t[q] == s.frames[s.table[q]].data
  {
    if p !in s.table && s.free == [] && s.lru != [] {
      var f := s.lru[|s.lru| - 1];
      assert f in s.lru;
      assert PlacedFrame(s.frames, s.table, s.free, s.lru, -1, f);
    }
  }

  /** A flushed page is on disk and no longer due. */
  lemma FlushCleans(s: Pool, p: int)
    requires Indexed(s) && p in s.table
    ensures var (t, ok) := Flush(s, p);
      ok && t.table == s.table && !t.frames[t.table[p]].dirty && ReadPage(t.disk, p) == s.frames[s.table[p]].data
  {
  }

  // ------------------------------------------------------------------
  // Improper clients
  // ------------------------------------------------------------------

  /** A root id outlives its page: it is fetched and released, then allocated
      again while its old frame is still in the eviction list. */
  lemma Reallocated(disk: Disk, k: int)
    requires k !in disk
    ensures var s0 := Empty(2, disk, k); Possible(s0, Fetching(k)) && var s1 := Step(s0, Fetching(k));
      Possible(s1, Unpinning(k, false)) && Proper(s1, Unpinning(k, false)) && var s2 := Step(s1, Unpinning(k, false));
      && Possible(s2, Creating) && !Proper(s2, Creating)
      && Step(s2, Creating) == TwoFrames(disk, k)
  {
    var s0 := Empty(2, disk, k);
    assert s0.free == [0, 1];
    var s1 := Step(s0, Fetching(k));
    assert s1.free == [0] && s1.table == map[k := 1] && s1.frames[1] == Frame(k, Blank(), 1, false);
    var s2 := Step(s1, Unpinning(k, false));
    assert s2.lru == [1] && s2.frames[1] == Frame(k, Blank(), 0, false);
    assert Step(s2, Creating).table == map[k := 0];
  }

  function TwoFrames(disk: Disk, k: int): Pool {
    Pool([Frame(k, Blank(), 1, true), Frame(k, Blank(), 0, false)], map[k := 0], [], [1], disk, k + 1)
  }

  /** Then the next eviction takes the new page out of the table: what was
      written to it is gone and its holder can no longer release it. */
  lemma ReallocatedPageLost(disk: Disk, k: int, j: int, data: bytes)
    requires k !in disk && j != k && data != Blank()
    ensures var s0 := TwoFrames(disk, k); Possible(s0, Writing(k, data)) && var s1 := Step(s0, Writing(k, data));
      Possible(s1, Fetching(j)) && TableOk(s1.frames, s1.table) && Held(s1, k) == data &&
      var s2 := Step(s1, Fetching(j));
      && TableOk(s2.frames, s2.table) && Held(s2, k) == Blank() != data
      && Possible(s2, Unpinning(k, true)) && !Unpin(s2, k, true).1
  {
    var s1 := Step(TwoFrames(disk, k), Writing(k, data));
    assert s1.frames[0].data == data && s1.frames[1].page == k;
    var s2 := Step(s1, Fetching(j));
    assert s2.table == map[j := 1] && s2.disk == disk;
  }

  /** A write nobody reports is lost with the frame. */
  lemma ForgottenWriteLost(disk: Disk, k: int, j: int, data: bytes)
    requires j != k && data != ReadPage(disk, k)
    ensures var s0 := Empty(1, disk, 0); Possible(s0, Fetching(k)) && var s1 := Step(s0, Fetching(k));
      Possible(s1, Writing(k, data)) && var s2 := Step(s1, Writing(k, data));
      Possible(s2, Unpinning(k, false)) && !Proper(s2, Unpinning(k, false)) && var s3 := Step(s2, Unpinning(k, false));
      Possible(s3, Fetching(j)) && var s4 := Step(s3, Fetching(j));
      TableOk(s4.frames, s4.table) && Held(s4, k) == ReadPage(disk, k) != data
  {
    var s0 := Empty(1, disk, 0);
    assert s0.free == [0];
    var s1 := Step(s0, Fetching(k));
    assert s1.free == [] && s1.table == map[k := 0];
    var s2 := Step(s1, Writing(k, data));
    var s3 := Step(s2, Unpinning(k, false));
    assert s3.lru == [0];
    var s4 := Step(s3, Fetching(j));
    assert s4.table == map[j := 0] && s4.disk == disk;
  }
}
