/** Sealing a plaintext log in place, offline.  Sealing and opening a record
    are parameters; the record number stands for the random nonce.
 */
module Reencryption {
  import opened Wrappers
  import opened Sequences
  import opened ByteStrings
  import opened FramedLogs

  type Seal = (nat, bytes) -> bytes
  type Open = bytes -> Option<bytes>

  const SEALED_MAGIC: bytes := [68, 83, 87, 69]  // "DSWE"
  const LEAST := 8

  predicate LooksSealed(p: bytes) {
    SEALED_MAGIC <= p
  }

  datatype Outcome = Unchanged | Rewritten(log: bytes, count: nat) | Refused

  function SealAll(seal: Seal, ps: seq<bytes>): (r: seq<bytes>)
    ensures |r| == |ps| && forall i :: 0 <= i < |ps| ==> r[i] == seal(i, ps[i])
  {
    if ps == [] then [] else SealAll(seal, ps[..|ps| - 1]) + [seal(|ps| - 1, ps[|ps| - 1])]
  }

  predicate AnySealed(ps: seq<bytes>) {
    exists i :: 0 <= i < |ps| && LooksSealed(ps[i])
  }

  /** What the migration does with a file, from what it holds. */
  function Migrated(crc: Crc, seal: Seal, f: Format, src: bytes): Outcome
    requires Usable(f)
  {
    var log := ReadLog(crc, f, src);
    if log.records == [] then if log.corrupt then Refused else Unchanged
    else if LooksSealed(log.records[0]) then Unchanged
    else if log.corrupt || AnySealed(log.records) then Refused
    else Rewritten(Frames(crc, f, SealAll(seal, log.records)) + log.tail, |log.records|)
  }

  // ------------------------------------------------------------------
  // The migration
  // ------------------------------------------------------------------

  method NextRecord(crc: Crc, f: Format, t: bytes) returns (r: Front)
    requires Usable(f)
    ensures r == Head(crc, f, t)
  {
    if |t| < 4 { return Torn; }
    var n := DecodeLE(t[..4]);
    if n < f.low || n > f.cap { return Bad; }
    if |t| - 4 < n { return Torn; }
    if f.inside {
      var payload := t[4..n];
      if DecodeLE(t[n..4 + n]) != crc(payload) { return Bad; }
      return Record(payload, 4 + n);
    }
    if |t| - 4 < n + 4 { return Torn; }
    var payload := t[4..4 + n];
    if DecodeLE(t[4 + n..8 + n]) != crc(payload) { return Bad; }
    return Record(payload, 8 + n);
  }

  method SealFrame(crc: Crc, f: Format, p: bytes) returns (r: bytes)
    ensures r == Frame(crc, f, p)
  {
    if f.inside {
      var body := p + U32(crc(p));
      r := U32(|body|) + body;
      assert r == U32(|body|) + p + U32(crc(p));
    } else {
      r := U32(|p|) + p;
      r := r + U32(crc(p));
    }
  }

  /** The records before `t` are sealed in `out`. */
  ghost predicate Progress(crc: Crc, seal: Seal, f: Format, src: bytes, t: bytes, out: bytes, done: seq<bytes>)
    requires Usable(f)
  {
    && ReadLog(crc, f, src) == Onto(done, ReadLog(crc, f, t))
    && out == Frames(crc, f, SealAll(seal, done))
    && !AnySealed(done)
  }

  method SealFramedLog(crc: Crc, seal: Seal, f: Format, src: bytes) returns (o: Outcome)
    requires Usable(f)
    ensures o == Migrated(crc, seal, f, src)
  {
    if src == [] { return Unchanged; }
    var off, sealed, out, first := 0, 0, [], true;
    ghost var done, t := [], src;
    assert src[0..] == src;
    OntoNext([], [], ReadLog(crc, f, src));
    while off < |src|
      invariant 0 <= off <= |src| && sealed == |done| && first == (done == []) && t == src[off..]
      invariant Progress(crc, seal, f, src, t, out, done)
      decreases |src| - off
    {
      var next := NextRecord(crc, f, src[off..]);
      if next.Torn? {
        Finished(crc, seal, f, src, t, out, done);
        out := out + src[off..];
        return if sealed == 0 then Unchanged else Rewritten(out, sealed);
      }
      Stopped(crc, seal, f, src, t, out, done);
      if next.Bad? { return Refused; }
      if first && LooksSealed(next.payload) { return Unchanged; }
      if LooksSealed(next.payload) { return Refused; }
      var frame := SealFrame(crc, f, seal(sealed, next.payload));
      SealNext(crc, seal, f, src, t, next, out, frame, done);
      SuffixSuffix(src, off, next.size);
      out, off := out + frame, off + next.size;
      done, t := done + [next.payload], t[next.size..];
      first, sealed := false, sealed + 1;
    }
    Finished(crc, seal, f, src, t, out, done);
    assert out + [] == out;
    return if sealed == 0 then Unchanged else Rewritten(out, sealed);
  }

  lemma SuffixSuffix(s: bytes, i: nat, j: nat)
    requires i + j <= |s|
    ensures s[i..][j..] == s[i + j..]
  {
  }

  lemma OntoSnoc(done: seq<bytes>, p: bytes, rest: Log)
    ensures Onto(done, Onto([p], rest)) == Onto(done + [p], rest)
  {
    assert done + ([p] + rest.records) == (done + [p]) + rest.records;
  }

  lemma SealNext(crc: Crc, seal: Seal, f: Format, src: bytes, t: bytes, h: Front, out: bytes, frame: bytes,
                 done: seq<bytes>)
    requires Usable(f) && Progress(crc, seal, f, src, t, out, done)
    requires h == Head(crc, f, t) && h.Record? && !LooksSealed(h.payload)
    requires frame == Frame(crc, f, seal(|done|, h.payload))
    ensures Progress(crc, seal, f, src, t[h.size..], out + frame, done + [h.payload])
  {
    var p := h.payload;
    OntoSnoc(done, p, ReadLog(crc, f, t[h.size..]));
    assert (done + [p])[..|done|] == done;
    assert SealAll(seal, done + [p]) == SealAll(seal, done) + [seal(|done|, p)];
    FramesAppend(crc, f, SealAll(seal, done), [seal(|done|, p)]);
    FramesOne(crc, f, seal(|done|, p));
  }

  lemma Finished(crc: Crc, seal: Seal, f: Format, src: bytes, t: bytes, out: bytes, done: seq<bytes>)
    requires Usable(f) && Progress(crc, seal, f, src, t, out, done) && Head(crc, f, t).Torn?
    ensures Migrated(crc, seal, f, src) == if done == [] then Unchanged else Rewritten(out + t, |done|)
  {
    assert done + [] == done;
  }

  lemma Stopped(crc: Crc, seal: Seal, f: Format, src: bytes, t: bytes, out: bytes, done: seq<bytes>)
    requires Usable(f) && Progress(crc, seal, f, src, t, out, done)
    ensures Head(crc, f, t).Bad? ==> Migrated(crc, seal, f, src) == Refused
    ensures Head(crc, f, t).Record? && LooksSealed(Head(crc, f, t).payload) ==>
      Migrated(crc, seal, f, src) == if done == [] then Unchanged else Refused
  {
    var h := Head(crc, f, t);
    if h.Bad? {
      assert done + [] == done;
    } else if h.Record? && LooksSealed(h.payload) {
      var rest := ReadLog(crc, f, t[h.size..]);
      OntoSnoc(done, h.payload, rest);
      StoppedSealed(crc, seal, f, src, done, h.payload, rest);
    }
  }

  lemma StoppedSealed(crc: Crc, seal: Seal, f: Format, src: bytes, done: seq<bytes>, p: bytes, rest: Log)
    requires Usable(f) && ReadLog(crc, f, src) == Onto(done + [p], rest) && !AnySealed(done) && LooksSealed(p)
    ensures Migrated(crc, seal, f, src) == if done == [] then Unchanged else Refused
  {
    var records := done + [p] + rest.records;
    assert records[|done|] == p;
    assert done != [] ==> records[0] == done[0];
  }

  // ------------------------------------------------------------------
  // It keeps the meaning
  // ------------------------------------------------------------------

  /** What a reader with the key makes of the records. */
  function Opened(open: Open, ps: seq<bytes>): Option<seq<bytes>> {
    if ps == [] then Some([]) else
    var before, last := Opened(open, ps[..|ps| - 1]), ps[|ps| - 1];
    if before.None? || !LooksSealed(last) || open(last).None? then None else Some(before.value + [open(last).value])
  }

  ghost predicate OpensWhatItSeals(seal: Seal, open: Open) {
    forall i: nat, p: bytes :: LooksSealed(seal(i, p)) && open(seal(i, p)) == Some(p) && |seal(i, p)| >= LEAST
  }

  lemma {:induction false} OpenSealed(seal: Seal, open: Open, ps: seq<bytes>)
    requires OpensWhatItSeals(seal, open)
    ensures Opened(open, SealAll(seal, ps)) == Some(ps)
  {
    if ps != [] {
      var t := ps[..|ps| - 1];
      OpenSealed(seal, open, t);
      assert SealAll(seal, ps)[..|ps| - 1] == SealAll(seal, t);
      assert ps == t + [ps[|ps| - 1]];
    }
  }

  /** A reader that accepts shorter records reads an accepted log alike. */
  lemma {:induction false} LenientReader(crc: Crc, f: Format, r: Format, t: bytes)
    requires Usable(f) && Usable(r) && r == f.(low := r.low) && r.low <= f.low
    requires !ReadLog(crc, f, t).corrupt
    ensures ReadLog(crc, r, t) == ReadLog(crc, f, t)
    decreases |t|
  {
    LenientHead(crc, f, r, t);
    var h := Head(crc, f, t);
    if h.Record? { LenientReader(crc, f, r, t[h.size..]); }
  }

  lemma LenientHead(crc: Crc, f: Format, r: Format, t: bytes)
    requires Usable(f) && Usable(r) && r == f.(low := r.low) && r.low <= f.low
    ensures Head(crc, f, t).Bad? || Head(crc, r, t) == Head(crc, f, t)
  {
  }

  /** The same frames, whatever the least length. */
  lemma {:induction false} SameFrames(crc: Crc, f: Format, r: Format, ps: seq<bytes>)
    requires f.inside == r.inside
    ensures Frames(crc, f, ps) == Frames(crc, r, ps)
  {
    if ps != [] { SameFrames(crc, f, r, ps[1..]); }
  }

  /** After a rewrite, a reader with the key finds exactly the records that were
      there before, and the same torn tail, if and only if every sealed record
      is within the length it accepts. */
  lemma MigrationKeepsRecords(crc: Crc, seal: Seal, open: Open, f: Format, r: Format, src: bytes)
    requires Usable(f) && Usable(r) && r == f.(low := r.low) && r.low <= f.low == LEAST
    requires OpensWhatItSeals(seal, open) && Migrated(crc, seal, f, src).Rewritten?
    requires forall p :: p in SealAll(seal, ReadLog(crc, f, src).records) ==> Length(f, p) < U32_LIMIT
    ensures var before, after := ReadLog(crc, r, src), ReadLog(crc, r, Migrated(crc, seal, f, src).log);
      var same := after.tail == before.tail && !after.corrupt && Opened(open, after.records) == Some(before.records);
      same <==> AllFit(r, SealAll(seal, before.records))
  {
    var log := ReadLog(crc, f, src);
    LenientReader(crc, f, r, src);
    var sealed := SealAll(seal, log.records);
    SameFrames(crc, f, r, sealed);
    TailReads(crc, f, src);
    LenientReader(crc, f, r, log.tail);
    if AllFit(r, sealed) {
      ReadFrames(crc, r, sealed, log.tail);
      assert sealed + [] == sealed;
      OpenSealed(seal, open, log.records);
    } else {
      Unreadable(crc, r, sealed, log.tail);
    }
  }

  /** The unread tail of a log that was not corrupt is torn. */
  lemma {:induction false} TailReads(crc: Crc, f: Format, t: bytes)
    requires Usable(f) && !ReadLog(crc, f, t).corrupt
    ensures var tail := ReadLog(crc, f, t).tail; ReadLog(crc, f, tail) == Log([], false, tail)
    decreases |t|
  {
    var h := Head(crc, f, t);
    if h.Record? { TailReads(crc, f, t[h.size..]); }
  }

  /** A log with a record the reader does not accept reads as corrupt. */
  lemma {:induction false} Unreadable(crc: Crc, r: Format, ps: seq<bytes>, t: bytes)
    requires Usable(r) && !AllFit(r, ps) && forall p :: p in ps ==> Length(r, p) < U32_LIMIT
    ensures ReadLog(crc, r, Frames(crc, r, ps) + t).corrupt
  {
    var p, more := ps[0], ps[1..];
    var rest := Frames(crc, r, more) + t;
    AppendAssociates(Frame(crc, r, p), Frames(crc, r, more), t);
    HeadOfFrame(crc, r, p, rest);
    if Fits(r, p) {
      assert forall i :: 0 <= i < |more| ==> more[i] == ps[i + 1];
      Unreadable(crc, r, more, t);
    }
  }

  /** A second run leaves a rewritten file alone exactly when the reader accepts
      the length of the first sealed record; otherwise it refuses the file. */
  lemma SecondRunExactly(crc: Crc, seal: Seal, open: Open, f: Format, src: bytes)
    requires Usable(f) && OpensWhatItSeals(seal, open) && Migrated(crc, seal, f, src).Rewritten?
    requires Length(f, seal(0, ReadLog(crc, f, src).records[0])) < U32_LIMIT
    ensures Migrated(crc, seal, f, Migrated(crc, seal, f, src).log) ==
      if Fits(f, seal(0, ReadLog(crc, f, src).records[0])) then Unchanged else Refused
  {
    var log := ReadLog(crc, f, src);
    var sealed := SealAll(seal, log.records);
    var rest := Frames(crc, f, sealed[1..]) + log.tail;
    AppendAssociates(Frame(crc, f, sealed[0]), Frames(crc, f, sealed[1..]), log.tail);
    HeadOfFrame(crc, f, sealed[0], rest);
    if Fits(f, sealed[0]) { ReadFrame(crc, f, sealed[0], rest); }
  }
}
