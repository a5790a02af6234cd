/** Length-framed logs with a checksum per record, and what a reader makes of
    one that was cut short or carries an impossible record.
 */
module FramedLogs {
  import opened Sequences
  import opened ByteStrings

  type Crc = bytes -> u32

  /** Whether the length counts the checksum, and the lengths a reader accepts. */
  datatype Format = Format(inside: bool, low: nat, cap: nat)

  predicate Usable(f: Format) {
    f.low >= (if f.inside then 4 else 0) && f.cap < U32_LIMIT
  }

  function Length(f: Format, p: bytes): nat {
    |p| + if f.inside then 4 else 0
  }

  predicate Fits(f: Format, p: bytes) {
    f.low <= Length(f, p) <= f.cap
  }

  function Frame(crc: Crc, f: Format, p: bytes): (r: bytes)
    ensures |r| == |p| + 8
  {
    U32(Length(f, p)) + p + U32(crc(p))
  }

  function Frames(crc: Crc, f: Format, ps: seq<bytes>): bytes {
    if ps == [] then [] else Frame(crc, f, ps[0]) + Frames(crc, f, ps[1..])
  }

  /** The whole records, whether a present record was bad, and the unread rest. */
  datatype Log = Log(records: seq<bytes>, corrupt: bool, tail: bytes)

  /** What stands at the front. */
  datatype Front = Torn | Bad | Record(payload: bytes, size: nat)

  function Head(crc: Crc, f: Format, t: bytes): (h: Front)
    requires Usable(f)
    ensures h.Record? ==> 0 < h.size <= |t|
  {
    if |t| < 4 then Torn else
    var n := DecodeLE(t[..4]);
    if n < f.low || n > f.cap then Bad else
    var size := if f.inside then n - 4 else n;
    if |t| < size + 8 then Torn else
    var p := t[4..4 + size];
    if DecodeLE(t[4 + size..8 + size]) != crc(p) then Bad else Record(p, size + 8)
  }

  function ReadLog(crc: Crc, f: Format, t: bytes): Log
    requires Usable(f)
    decreases |t|
  {
    match Head(crc, f, t)
    case Torn => Log([], false, t)
    case Bad => Log([], true, t)
    case Record(p, size) => Onto([p], ReadLog(crc, f, t[size..]))
  }

  function Onto(ps: seq<bytes>, log: Log): Log {
    Log(ps + log.records, log.corrupt, log.tail)
  }

  predicate AllFit(f: Format, ps: seq<bytes>) {
    forall i :: 0 <= i < |ps| ==> Fits(f, ps[i])
  }

  lemma FrameParts(crc: Crc, f: Format, p: bytes, t: bytes)
    requires Length(f, p) < U32_LIMIT
    ensures var s := Frame(crc, f, p) + t;
      && DecodeLE(s[..4]) == Length(f, p) && s[4..4 + |p|] == p
      && DecodeLE(s[4 + |p|..8 + |p|]) == crc(p) && s[8 + |p|..] == t
  {
    var s := Frame(crc, f, p) + t;
    U32RoundTrip(Length(f, p));
    U32RoundTrip(crc(p));
    assert s[..4] == U32(Length(f, p));
    assert s[4 + |p|..8 + |p|] == U32(crc(p));
  }

  lemma OntoNext(p: bytes, ps: seq<bytes>, log: Log)
    ensures Onto([p], Onto(ps, log)) == Onto([p] + ps, log) && Onto([], log) == log
  {
    assert [p] + (ps + log.records) == ([p] + ps) + log.records;
    assert [] + log.records == log.records;
  }

  lemma HeadOfFrame(crc: Crc, f: Format, p: bytes, t: bytes)
    requires Usable(f) && Length(f, p) < U32_LIMIT
    ensures Head(crc, f, Frame(crc, f, p) + t) == if Fits(f, p) then Record(p, |p| + 8) else Bad
    ensures (Frame(crc, f, p) + t)[|p| + 8..] == t
  {
    FrameParts(crc, f, p, t);
  }

  lemma ReadFrame(crc: Crc, f: Format, p: bytes, t: bytes)
    requires Usable(f) && Fits(f, p)
    ensures ReadLog(crc, f, Frame(crc, f, p) + t) == Onto([p], ReadLog(crc, f, t))
  {
    HeadOfFrame(crc, f, p, t);
  }

  /** Reading gives back the framed records and goes on with what follows. */
  lemma {:induction false} ReadFrames(crc: Crc, f: Format, ps: seq<bytes>, t: bytes)
    requires Usable(f) && AllFit(f, ps)
    ensures ReadLog(crc, f, Frames(crc, f, ps) + t) == Onto(ps, ReadLog(crc, f, t))
    decreases |ps|, 0
  {
    if ps == [] {
      assert Frames(crc, f, ps) + t == t;
      OntoNext([], [], ReadLog(crc, f, t));
    } else {
      ReadNext(crc, f, ps[0], ps[1..], t);
      assert ps == [ps[0]] + ps[1..];
    }
  }

  lemma {:induction false} ReadNext(crc: Crc, f: Format, p: bytes, ps: seq<bytes>, t: bytes)
    requires Usable(f) && Fits(f, p) && AllFit(f, ps)
    ensures ReadLog(crc, f, Frame(crc, f, p) + Frames(crc, f, ps) + t) == Onto([p] + ps, ReadLog(crc, f, t))
    decreases |ps|, 1
  {
    var more := Frames(crc, f, ps);
    ReadFrames(crc, f, ps, t);
    ReadFrame(crc, f, p, more + t);
    AppendAssociates(Frame(crc, f, p), more, t);
    OntoNext(p, ps, ReadLog(crc, f, t));
  }

  /** A frame cut short is a torn tail, not corruption. */
  lemma TornFrame(crc: Crc, f: Format, p: bytes, n: nat)
    requires Usable(f) && Fits(f, p) && n < |p| + 8
    ensures ReadLog(crc, f, Frame(crc, f, p)[..n]) == Log([], false, Frame(crc, f, p)[..n])
  {
    var frame := Frame(crc, f, p);
    FrameParts(crc, f, p, []);
    assert frame + [] == frame;
    if n >= 4 { assert frame[..n][..4] == frame[..4]; }
    assert Head(crc, f, frame[..n]) == Torn;
  }

  /** A log of whole records cut at any byte reads as a prefix of them. */
  lemma {:induction false} CutLog(crc: Crc, f: Format, ps: seq<bytes>, n: nat) returns (k: nat, tail: bytes)
    requires Usable(f) && AllFit(f, ps) && n <= |Frames(crc, f, ps)|
    ensures k <= |ps| && ReadLog(crc, f, Frames(crc, f, ps)[..n]) == Log(ps[..k], false, tail)
    ensures Frames(crc, f, ps)[..n] == Frames(crc, f, ps[..k]) + tail
    ensures n == |Frames(crc, f, ps)| ==> k == |ps|
  {
    if ps == [] {
      k, tail := 0, [];
    } else {
      var first, more := Frame(crc, f, ps[0]), Frames(crc, f, ps[1..]);
      if n < |first| {
        TornFrame(crc, f, ps[0], n);
        CutWithin(first, more, n);
        k, tail := 0, first[..n];
        assert ps[..0] == [];
      } else {
        k, tail := CutLog(crc, f, ps[1..], n - |first|);
        CutWithin(first, more, n);
        CutNext(crc, f, ps, k, more[..n - |first|], tail);
        k := k + 1;
      }
    }
  }

  /** The first frame is whole and the rest of the log reads as `k` records. */
  lemma CutNext(crc: Crc, f: Format, ps: seq<bytes>, k: nat, rest: bytes, tail: bytes)
    requires Usable(f) && AllFit(f, ps) && k < |ps|
    requires rest == Frames(crc, f, ps[1..][..k]) + tail && ReadLog(crc, f, rest) == Log(ps[1..][..k], false, tail)
    ensures Frame(crc, f, ps[0]) + rest == Frames(crc, f, ps[..k + 1]) + tail
    ensures ReadLog(crc, f, Frame(crc, f, ps[0]) + rest) == Log(ps[..k + 1], false, tail)
  {
    ReadFrame(crc, f, ps[0], rest);
    assert ps[..k + 1] == [ps[0]] + ps[1..][..k];
    assert ps[..k + 1][1..] == ps[1..][..k];
    AppendAssociates(Frame(crc, f, ps[0]), Frames(crc, f, ps[1..][..k]), tail);
  }

  lemma CutWithin(a: bytes, b: bytes, n: nat)
    requires n <= |a| + |b|
    ensures n < |a| ==> (a + b)[..n] == a[..n]
    ensures n >= |a| ==> (a + b)[..n] == a + b[..n - |a|]
  {
  }

  /** A record the reader does not accept stops the load there. */
  lemma BadRecordStops(crc: Crc, f: Format, ps: seq<bytes>, p: bytes, t: bytes)
    requires Usable(f) && AllFit(f, ps) && !Fits(f, p) && Length(f, p) < U32_LIMIT
    ensures ReadLog(crc, f, Frames(crc, f, ps) + (Frame(crc, f, p) + t)) == Log(ps, true, Frame(crc, f, p) + t)
  {
    HeadOfFrame(crc, f, p, t);
    ReadFrames(crc, f, ps, Frame(crc, f, p) + t);
    assert ps + [] == ps;
  }

  /** So does one whose checksum is not that of its bytes, whatever it holds. */
  lemma ChecksumStops(crc: Crc, f: Format, ps: seq<bytes>, p: bytes, stored: u32, t: bytes)
    requires Usable(f) && AllFit(f, ps) && Fits(f, p) && stored != crc(p)
    ensures var bad := U32(Length(f, p)) + p + U32(stored) + t;
      ReadLog(crc, f, Frames(crc, f, ps) + bad) == Log(ps, true, bad)
  {
    var bad := U32(Length(f, p)) + p + U32(stored) + t;
    U32RoundTrip(Length(f, p));
    U32RoundTrip(stored);
    assert bad[..4] == U32(Length(f, p)) && bad[4..4 + |p|] == p && bad[4 + |p|..8 + |p|] == U32(stored);
    assert Head(crc, f, bad) == Bad;
    ReadFrames(crc, f, ps, bad);
    AppendNone(ps);
  }

  lemma {:induction false} FramesAppend(crc: Crc, f: Format, a: seq<bytes>, b: seq<bytes>)
    ensures Frames(crc, f, a + b) == Frames(crc, f, a) + Frames(crc, f, b)
  {
    if a == [] {
      AppendNone(b);
      AppendNone(Frames(crc, f, b));
    } else {
      FramesAppend(crc, f, a[1..], b);
      AppendTail(a, b);
      AppendAssociates(Frame(crc, f, a[0]), Frames(crc, f, a[1..]), Frames(crc, f, b));
    }
  }

  lemma FramesOne(crc: Crc, f: Format, p: bytes)
    ensures Frames(crc, f, [p]) == Frame(crc, f, p)
  {
    assert [p][1..] == [];
  }
}
