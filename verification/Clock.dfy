/** The hybrid logical clock.  Wall-clock readings are parameters. */
module Clocks {
  import opened ByteStrings
  import opened Stamps

  const MAX_FUTURE_SKEW_MS := 300000
  const MAX_LOGICAL := 0xFFFF_FFFF

  datatype Reading = Reading(physical: u64, logical: u32)

  // ------------------------------------------------------------------
  // Steps
  // ------------------------------------------------------------------

  /** The counter is a `uint32_t`: it wraps. */
  function Tick(c: Reading, wall: u64): Reading {
    if wall > c.physical then Reading(wall, 0)
    else Reading(c.physical, (c.logical + 1) % U32_LIMIT)
  }

  predicate Wraps(c: Reading, wall: u64) {
    wall <= c.physical && c.logical == MAX_LOGICAL
  }

  /** Too far in the future, or the counter is saturated. */
  predicate Refuses(c: Reading, remote: Timestamp, wall: u64) {
    || remote.physical > (wall + MAX_FUTURE_SKEW_MS) % U64_LIMIT
    || c.logical == MAX_LOGICAL
    || remote.logical == MAX_LOGICAL
  }

  function Fold(c: Reading, remote: Timestamp, wall: u64): Reading
    requires !Refuses(c, remote, wall)
  {
    var top := if wall >= c.physical && wall >= remote.physical then wall
               else if c.physical >= remote.physical then c.physical
               else remote.physical;
    if top == c.physical && top == remote.physical then
      Reading(top, (if c.logical >= remote.logical then c.logical else remote.logical) + 1)
    else if top == c.physical then Reading(top, c.logical + 1)
    else if top == remote.physical then Reading(top, remote.logical + 1)
    else Reading(top, 0)
  }

  class HybridLogicalClock {
    const node: bytes
    var physical: u64
    var logical: u32

    ghost function State(): Reading
      reads this
    {
      Reading(physical, logical)
    }

    constructor (node: bytes)
      ensures this.node == node && State() == Reading(0, 0)
    {
      this.node := node;
      physical, logical := 0, 0;
    }

    method Now(wall: u64) returns (ts: Timestamp)
      modifies this
      ensures State() == Tick(old(State()), wall)
      ensures ts == Timestamp(physical, logical, node)
      ensures !Wraps(old(State()), wall) ==> forall t :: Covers(old(State()), t) ==> Before(t, ts)
    {
      ghost var before := State();
      if wall > physical {
        physical := wall;
        logical := 0;
      } else {
        logical := (logical + 1) % U32_LIMIT;
      }
      ts := Timestamp(physical, logical, node);
      TickExceedsExactly(before, wall, node);
    }

    method Observe(remote: Timestamp, wall: u64) returns (ok: bool)
      modifies this
      ensures ok == !Refuses(old(State()), remote, wall)
      ensures State() == if ok then Fold(old(State()), remote, wall) else old(State())
      ensures ok ==> Covers(State(), remote)
    {
      if remote.physical > (wall + MAX_FUTURE_SKEW_MS) % U64_LIMIT { return false; }
      if logical == MAX_LOGICAL || remote.logical == MAX_LOGICAL { return false; }
      var top := wall;
      if physical > top { top := physical; }
      if remote.physical > top { top := remote.physical; }
      if top == physical && top == remote.physical {
        logical := (if logical >= remote.logical then logical else remote.logical) + 1;
      } else if top == physical {
        logical := logical + 1;
      } else if top == remote.physical {
        logical := remote.logical + 1;
      } else {
        logical := 0;
      }
      physical := top;
      return true;
    }

    method Restore(p: u64, l: u32)
      modifies this
      ensures Covers(State(), Timestamp(p, l, node))
      ensures forall t :: Covers(old(State()), t) ==> Covers(State(), t)
      ensures State() == old(State()) || State() == Reading(p, l)
    {
      if p > physical || (p == physical && l > logical) {
        physical, logical := p, l;
      }
    }
  }

  // ------------------------------------------------------------------
  // What the clock guarantees
  // ------------------------------------------------------------------

  /** The stamp has been reached or passed, whoever issued it. */
  predicate Covers(c: Reading, t: Timestamp) {
    t.physical < c.physical || (t.physical == c.physical && t.logical <= c.logical)
  }

  /** A new stamp exceeds everything the clock has issued or observed, except
      exactly when the counter wraps. */
  lemma TickExceedsExactly(c: Reading, wall: u64, node: bytes)
    ensures var c' := Tick(c, wall);
      (forall t :: Covers(c, t) ==> Before(t, Timestamp(c'.physical, c'.logical, node))) <==> !Wraps(c, wall)
  {
    var c' := Tick(c, wall);
    var newest := Timestamp(c.physical, c.logical, node);
    assert Covers(c, newest);
    if !Wraps(c, wall) && wall <= c.physical {
      assert c'.logical == c.logical + 1;
    }
  }

  lemma TickCovers(c: Reading, wall: u64, t: Timestamp)
    requires !Wraps(c, wall)
    requires Covers(c, t) || Before(t, Timestamp(Tick(c, wall).physical, Tick(c, wall).logical, t.node))
    ensures Covers(Tick(c, wall), t)
  {
    LessIrreflexive(t.node);
    if wall <= c.physical {
      assert (c.logical + 1) % U32_LIMIT == c.logical + 1;
    }
  }

  lemma FoldCovers(c: Reading, remote: Timestamp, wall: u64)
    requires !Refuses(c, remote, wall)
    ensures Covers(Fold(c, remote, wall), remote)
    ensures forall t :: Covers(c, t) ==> Covers(Fold(c, remote, wall), t)
  {
  }

  /** The physical part stays within the skew bound of the walls seen. */
  lemma PhysicalBound(c: Reading, remote: Timestamp, wall: u64, seen: nat)
    requires c.physical <= seen + MAX_FUTURE_SKEW_MS
    ensures Tick(c, wall).physical <= (if wall > seen then wall else seen) + MAX_FUTURE_SKEW_MS
    ensures !Refuses(c, remote, wall) ==>
      Fold(c, remote, wall).physical <= (if wall > seen then wall else seen) + MAX_FUTURE_SKEW_MS
  {
  }

  predicate Past(a: Reading, b: Reading) {
    a.physical < b.physical || (a.physical == b.physical && a.logical < b.logical)
  }

  /** The clock runs no faster than it must: a tick is the least reading that is past
      the last one and not behind the wall. */
  lemma TickLeast(c: Reading, wall: u64, r: Reading)
    requires !Wraps(c, wall)
    ensures Past(c, Tick(c, wall)) && Tick(c, wall).physical >= wall
    ensures Past(c, r) && r.physical >= wall ==> r == Tick(c, wall) || Past(Tick(c, wall), r)
  {
    if wall <= c.physical { assert (c.logical + 1) % U32_LIMIT == c.logical + 1; }
  }

  /** ... and observing a stamp gives the least one that is past the stamp as well. */
  lemma FoldLeast(c: Reading, remote: Timestamp, wall: u64, r: Reading)
    requires !Refuses(c, remote, wall)
    ensures var f, seen := Fold(c, remote, wall), Reading(remote.physical, remote.logical);
      && Past(c, f) && Past(seen, f) && f.physical >= wall
      && (Past(c, r) && Past(seen, r) && r.physical >= wall ==> r == f || Past(f, r))
  {
  }
}
