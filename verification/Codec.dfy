/** The canonical binary encoding of a document, and its reader.  A thrown
    `std::exception` is `None`.
 */
module Codec {
  import opened Wrappers
  import opened Sequences
  import opened ByteStrings
  import opened Stamps
  import opened NamedItems
  import opened Documents
  import Lattice

  const MAX_DECODE_DEPTH := 64

  // ------------------------------------------------------------------
  // Timestamps
  // ------------------------------------------------------------------

  function EncodeStamp(ts: Timestamp): bytes {
    U64(ts.physical) + U32(ts.logical) + ts.node
  }

  /** Fewer than twelve bytes read as the zero timestamp. */
  function DecodeStamp(s: bytes): Timestamp {
    if |s| < 12 then Timestamp(0, 0, [])
    else
      U64Range(s[..8]);
      U32Range(s[8..12]);
      Timestamp(DecodeLE(s[..8]), DecodeLE(s[8..12]), s[12..])
  }

  lemma StampRoundTrip(ts: Timestamp)
    ensures DecodeStamp(EncodeStamp(ts)) == ts
  {
    var s := EncodeStamp(ts);
    U64RoundTrip(ts.physical);
    U32RoundTrip(ts.logical);
    assert s[..8] == U64(ts.physical);
    assert s[8..12] == U32(ts.logical);
    assert s[12..] == ts.node;
  }

  // ------------------------------------------------------------------
  // Writer
  // ------------------------------------------------------------------

  function Flag(b: bool): byte {
    if b then 1 else 0
  }

  function KindByte(v: Crdt): byte {
    match v
    case Register(_, _, Null) => 0
    case Register(_, _, Bool(_)) => 1
    case Register(_, _, Int(_)) => 2
    case Register(_, _, Str(_)) => 4
    case Container(_, _, ArrayShape, _) => 5
    case Container(_, _, ObjectShape, _) => 6
  }

  function EncodeScalar(s: Scalar): bytes {
    match s
    case Null => []
    case Bool(b) => [Flag(b)]
    case Int(i) => I64(i)
    case Str(t) => Blob(t)
  }

  function Head(v: Crdt): bytes {
    [KindByte(v), Flag(v.dead)] + Blob(EncodeStamp(v.ts))
  }

  function Encode(v: Crdt): bytes
    decreases v, 1
  {
    Head(v) +
    match v
    case Register(_, _, scalar) => EncodeScalar(scalar)
    case Container(_, _, shape, entries) =>
      U32(|entries|) + Flatten(SortByName(EncodeEach(shape, entries)))
  }

  function EncodeEach(shape: Shape, es: seq<Named<Slot>>): (r: seq<Named<bytes>>)
    ensures |r| == |es|
    decreases es, 0
  {
    if es == [] then [] else
    [Named(es[0].name, EncodeSlot(shape, es[0].item))] + EncodeEach(shape, es[1..])
  }

  function EncodeSlot(shape: Shape, slot: Slot): bytes
    decreases slot.value, 2
  {
    (if shape.ArrayShape? then [Flag(slot.removed)] else []) + Blob(Encode(slot.value))
  }

  function Flatten(es: seq<Named<bytes>>): bytes {
    if es == [] then [] else Blob(es[0].name) + es[0].item + Flatten(es[1..])
  }

  /** The bytes of a small document, written out: kind and tombstone flag, then the
      length of the stamp, eight and four little-endian bytes of it and the node id, then
      the value. */
  lemma SampleLeaf(p: nat, l: nat, dead: bool, b: bool)
    requires p < 65536 && l < 256
    ensures Encode(Register(Timestamp(p, l, [97]), dead, Lattice.Bool(b))) ==
      [1, if dead then 1 else 0] + ([13, 0, 0, 0] + [p % 256, p / 256, 0, 0, 0, 0, 0, 0, l, 0, 0, 0, 97])
      + [if b then 1 else 0]
  {
    SampleStamp(p, l);
  }

  lemma SampleStamp(p: nat, l: nat)
    requires p < 65536 && l < 256
    ensures Blob(EncodeStamp(Timestamp(p, l, [97]))) ==
      [13, 0, 0, 0] + [p % 256, p / 256, 0, 0, 0, 0, 0, 0, l, 0, 0, 0, 97]
  {
    SmallU64(p);
    SmallU32(l);
    SmallU32(13);
    assert EncodeStamp(Timestamp(p, l, [97])) == [p % 256, p / 256, 0, 0, 0, 0, 0, 0, l, 0, 0, 0, 97];
  }

  /** An array of one element: the count, then its tag, the removal flag and the
      element, each with its length. */
  lemma SampleArray(p: nat, l: nat, e: Named<Slot>)
    requires p < 65536 && l < 256 && |e.name| < 256 && |Encode(e.item.value)| < 256
    ensures var inner := Encode(e.item.value);
      Encode(Container(Timestamp(p, l, [97]), false, Lattice.ArrayShape, [e])) ==
      [5, 0] + ([13, 0, 0, 0] + [p % 256, p / 256, 0, 0, 0, 0, 0, 0, l, 0, 0, 0, 97]) + ([1, 0, 0, 0] +
        ([|e.name|, 0, 0, 0] + e.name + ([if e.item.removed then 1 else 0] + ([|inner|, 0, 0, 0] + inner))))
  {
    SampleStamp(p, l);
    OneElementBytes(Timestamp(p, l, [97]), e);
    SmallBlob(e.name);
    SmallBlob(Encode(e.item.value));
  }

  lemma OneElementBytes(s: Timestamp, e: Named<Slot>)
    ensures Encode(Container(s, false, Lattice.ArrayShape, [e])) ==
      [5, 0] + Blob(EncodeStamp(s)) + ([1, 0, 0, 0] +
        (Blob(e.name) + ([if e.item.removed then 1 else 0] + Blob(Encode(e.item.value)))))
  {
    OneEntryBytes(e);
    SmallU32(1);
  }

  lemma SmallBlob(s: bytes)
    requires |s| < 256
    ensures Blob(s) == [|s|, 0, 0, 0] + s
  {
    SmallU32(|s|);
  }

  lemma OneEntryBytes(e: Named<Slot>)
    ensures Flatten(SortByName(EncodeEach(Lattice.ArrayShape, [e]))) ==
      Blob(e.name) + EncodeSlot(Lattice.ArrayShape, e.item)
  {
    var x := Named(e.name, EncodeSlot(Lattice.ArrayShape, e.item));
    assert [e][1..] == [] && [x][1..] == [];
    assert EncodeEach(Lattice.ArrayShape, [e]) == [x];
    assert SortByName([x]) == [x];
    AppendNone(Blob(e.name) + x.item);
  }

  lemma SmallU32(n: nat)
    requires n < 65536
    ensures U32(n) == [n % 256, n / 256, 0, 0]
  {
    assert EncodeLE(n, 4) == [n % 256] + EncodeLE(n / 256, 3);
    assert EncodeLE(n / 256, 3) == [n / 256] + EncodeLE(0, 2);
    assert EncodeLE(0, 2) == [0] + EncodeLE(0, 1);
    assert EncodeLE(0, 1) == [0];
  }

  lemma SmallU64(n: nat)
    requires n < 65536
    ensures U64(n) == [n % 256, n / 256, 0, 0, 0, 0, 0, 0]
  {
    assert EncodeLE(n, 8) == [n % 256] + EncodeLE(n / 256, 7);
    assert EncodeLE(n / 256, 7) == [n / 256] + EncodeLE(0, 6);
    assert EncodeLE(0, 6) == [0] + EncodeLE(0, 5);
    assert EncodeLE(0, 5) == [0] + EncodeLE(0, 4);
    assert EncodeLE(0, 4) == [0] + EncodeLE(0, 3);
    assert EncodeLE(0, 3) == [0] + EncodeLE(0, 2);
    assert EncodeLE(0, 2) == [0] + EncodeLE(0, 1);
    assert EncodeLE(0, 1) == [0];
  }

  // ------------------------------------------------------------------
  // Reader
  // ------------------------------------------------------------------

  function ReadU8(s: bytes): Read<byte> {
    if |s| < 1 then Fail else Got(s[0], s[1..])
  }

  function ReadI64(s: bytes): Read<i64> {
    if |s| < 8 then Fail else
    U64Range(s[..8]);
    Got(Signed(DecodeLE(s[..8])), s[8..])
  }

  /** `left` is the number of nesting levels still allowed. */
  function DecodeAt(s: bytes, left: int): Option<Crdt>
    decreases |s|, 1, 0
  {
    if left < 0 then None else
    var kind := ReadU8(s);
    if kind.Fail? then None else
    var dead := ReadU8(kind.rest);
    if dead.Fail? then None else
    var stamp := ReadBlob(dead.rest);
    if stamp.Fail? then None else
    DecodeBody(kind.value, dead.value != 0, DecodeStamp(stamp.value), stamp.rest, left)
  }

  function DecodeBody(kind: byte, dead: bool, ts: Timestamp, s: bytes, left: int): Option<Crdt>
    decreases |s|, 5, 0
  {
    if kind == 1 then
      var b := ReadU8(s);
      if b.Fail? then None else Some(Register(ts, dead, Lattice.Bool(b.value != 0)))
    else if kind == 2 then
      var i := ReadI64(s);
      if i.Fail? then None else Some(Register(ts, dead, Lattice.Int(i.value)))
    else if kind == 3 then
      None  // floating point is not part of this model
    else if kind == 4 then
      var t := ReadBlob(s);
      if t.Fail? then None else Some(Register(ts, dead, Lattice.Str(t.value)))
    else if kind == 5 || kind == 6 then
      DecodeContainer(if kind == 5 then Lattice.ArrayShape else Lattice.ObjectShape, dead, ts, s, left)
    else
      Some(Register(ts, dead, Lattice.Null))
  }

  function DecodeContainer(shape: Shape, dead: bool, ts: Timestamp, s: bytes, left: int): Option<Crdt>
    decreases |s|, 4, 0
  {
    var n := ReadU32(s);
    if n.Fail? then None else
    var entries := DecodeEntries(shape, n.value, n.rest, left);
    if entries.None? then None else Some(Container(ts, dead, shape, entries.value))
  }

  function DecodeEntries(shape: Shape, n: nat, s: bytes, left: int): Option<seq<Named<Slot>>>
    decreases |s|, 3, n
  {
    if n == 0 then Some([]) else
    var name := ReadBlob(s);
    if name.Fail? then None else
    var removed := if shape.ArrayShape? then ReadU8(name.rest) else Got(0, name.rest);
    if removed.Fail? then None else
    var body := ReadBlob(removed.rest);
    if body.Fail? then None else
    var value := DecodeAt(body.value, left - 1);
    if value.None? then None else
    var others := DecodeEntries(shape, n - 1, body.rest, left);
    if others.None? then None else
    Some([Named(name.value, Slot(removed.value != 0, value.value))] + others.value)
  }

  function Decode(s: bytes): Option<Crdt> {
    DecodeAt(s, MAX_DECODE_DEPTH)
  }

  // ------------------------------------------------------------------
  // Encoding forgets order and nothing else
  // ------------------------------------------------------------------

  lemma {:induction false} InsertEach(shape: Shape, e: Named<Slot>, es: seq<Named<Slot>>)
    ensures InsertByName(Named(e.name, EncodeSlot(shape, e.item)), EncodeEach(shape, es)) ==
      EncodeEach(shape, InsertByName(e, es))
  {
    if es != [] && Less(es[0].name, e.name) {
      InsertEach(shape, e, es[1..]);
    } else {
      assert ([e] + es)[1..] == es;
    }
  }

  /** Sorting before encoding the entries is sorting them encoded. */
  lemma {:induction false} SortEach(shape: Shape, es: seq<Named<Slot>>)
    ensures SortByName(EncodeEach(shape, es)) == EncodeEach(shape, SortByName(es))
  {
    if es != [] {
      SortEach(shape, es[1..]);
      InsertEach(shape, es[0], SortByName(es[1..]));
    }
  }

  lemma {:induction false} EncodeCanon(v: Crdt)
    ensures Encode(Canon(v)) == Encode(v)
    decreases v, 1
  {
    if v.Container? {
      EncodeCanonEach(v.shape, v.entries);
      EncodeSorted(v.shape, CanonEach(v.entries));
      assert Head(Canon(v)) == Head(v);
    }
  }

  lemma EncodeSorted(shape: Shape, es: seq<Named<Slot>>)
    ensures |SortByName(es)| == |es|
    ensures SortByName(EncodeEach(shape, SortByName(es))) == SortByName(EncodeEach(shape, es))
  {
    SortItems(es);
    SortEach(shape, es);
    SortSorted(EncodeEach(shape, es));
    SortIdentity(SortByName(EncodeEach(shape, es)));
  }

  lemma {:induction false} EncodeCanonEach(shape: Shape, es: seq<Named<Slot>>)
    ensures EncodeEach(shape, CanonEach(es)) == EncodeEach(shape, es)
    decreases es, 0
  {
    if es != [] {
      EncodeCanon(es[0].item.value);
      EncodeCanonEach(shape, es[1..]);
    }
  }

  // ------------------------------------------------------------------
  // Round trip
  // ------------------------------------------------------------------

  lemma ReadI64Back(i: i64)
    ensures ReadI64(I64(i)) == Got(i, [])
  {
    var n := if i < 0 then i + U64_LIMIT else i;
    U64RoundTrip(n);
    assert I64(i)[..8] == I64(i) && I64(i)[8..] == [];
  }

  /** At most `left` levels of nesting below the root. */
  predicate Shallow(v: Crdt, left: int) {
    left >= 0 && (v.Container? ==> forall e :: e in v.entries ==> Shallow(e.item.value, left - 1))
  }

  lemma HeadBack(v: Crdt, body: bytes, left: int)
    requires left >= 0 && |EncodeStamp(v.ts)| < U32_LIMIT
    ensures DecodeAt(Head(v) + body, left) == DecodeBody(KindByte(v), v.dead, v.ts, body, left)
  {
    var stamp := EncodeStamp(v.ts);
    var s := Head(v) + body;
    AppendAssociates([KindByte(v), Flag(v.dead)], Blob(stamp), body);
    assert s[0] == KindByte(v) && s[1..][0] == Flag(v.dead);
    assert s[1..][1..] == Blob(stamp) + body;
    ReadBlobBack(stamp, body);
    StampRoundTrip(v.ts);
  }

  lemma {:induction false} DecodeEncodeAt(v: Crdt, left: int)
    requires Settled(v) && Flagged(v) && |Encode(v)| < U32_LIMIT
    ensures DecodeAt(Encode(v), left) == if Shallow(v, left) then Some(v) else None
    decreases v, 2
  {
    if left >= 0 {
      var body := Encode(v)[|Head(v)|..];
      assert Encode(v) == Head(v) + body;
      HeadBack(v, body, left);
      DecodeEncodeBody(v, left);
    }
  }

  lemma ContainerBody(v: Crdt)
    requires v.Container? && Settled(v) && |Encode(v)| < U32_LIMIT
    ensures var t := Flatten(EncodeEach(v.shape, v.entries));
      Encode(v)[|Head(v)|..] == U32(|v.entries|) + t && |v.entries| <= |t| < U32_LIMIT
  {
    var each := EncodeEach(v.shape, v.entries);
    EncodedInOrder(v.shape, v.entries);
    FlattenSize(each);
    assert Encode(v) == Head(v) + (U32(|v.entries|) + Flatten(each));
  }

  lemma ReadContainer(shape: Shape, dead: bool, ts: Timestamp, n: u32, t: bytes, left: int)
    ensures DecodeContainer(shape, dead, ts, U32(n) + t, left)
         == var entries := DecodeEntries(shape, n, t, left);
            if entries.None? then None else Some(Container(ts, dead, shape, entries.value))
  {
    ReadU32Back(n, t);
  }

  lemma ContainerKind(v: Crdt, body: bytes, left: int)
    requires v.Container?
    ensures DecodeBody(KindByte(v), v.dead, v.ts, body, left) == DecodeContainer(v.shape, v.dead, v.ts, body, left)
  {
  }

  lemma {:induction false} DecodeEncodeContainer(v: Crdt, left: int)
    requires left >= 0 && v.Container?
    requires Settled(v) && Flagged(v) && |Encode(v)| < U32_LIMIT
    ensures DecodeContainer(v.shape, v.dead, v.ts, Encode(v)[|Head(v)|..], left) ==
      if Shallow(v, left) then Some(v) else None
    decreases v, 0
  {
    ContainerBody(v);
    ReadContainer(v.shape, v.dead, v.ts, |v.entries|, Flatten(EncodeEach(v.shape, v.entries)), left);
    DecodeEncodeEntries(v.shape, v.entries, left);
    assert Shallow(v, left) <==> AllShallow(v.entries, left - 1);
  }

  lemma {:induction false} DecodeEncodeBody(v: Crdt, left: int)
    requires left >= 0
    requires Settled(v) && Flagged(v) && |Encode(v)| < U32_LIMIT
    ensures DecodeBody(KindByte(v), v.dead, v.ts, Encode(v)[|Head(v)|..], left)
         == if Shallow(v, left) then Some(v) else None
    decreases v, 1
  {
    if v.Register? {
      assert Encode(v)[|Head(v)|..] == EncodeScalar(v.scalar);
      DecodeEncodeScalar(v, left);
    } else {
      ContainerKind(v, Encode(v)[|Head(v)|..], left);
      DecodeEncodeContainer(v, left);
    }
  }

  lemma EncodedInOrder(shape: Shape, es: seq<Named<Slot>>)
    requires Sorted(es)
    ensures SortByName(EncodeEach(shape, es)) == EncodeEach(shape, es)
  {
    SortEach(shape, es);
    SortIdentity(es);
  }

  lemma DecodeEncodeScalar(v: Crdt, left: int)
    requires v.Register? && |EncodeScalar(v.scalar)| < U32_LIMIT
    ensures DecodeBody(KindByte(v), v.dead, v.ts, EncodeScalar(v.scalar), left) == Some(v)
  {
    match v.scalar
    case Null =>
    case Bool(_) =>
    case Int(i) => ReadI64Back(i);
    case Str(t) =>
      assert Blob(t) == Blob(t) + [];
      ReadBlobBack(t, []);
  }

  lemma {:induction false} FlattenSize(es: seq<Named<bytes>>)
    ensures |Flatten(es)| >= |es|
  {
    if es != [] {
      FlattenSize(es[1..]);
    }
  }

  /** Reading one written entry. */
  lemma DecodeFirst(shape: Shape, e: Named<Slot>, n: nat, rest: bytes, left: int)
    requires |e.name| < U32_LIMIT && |Encode(e.item.value)| < U32_LIMIT
    requires shape.ObjectShape? ==> !e.item.removed
    ensures DecodeEntries(shape, n + 1, Blob(e.name) + EncodeSlot(shape, e.item) + rest, left)
         == var value := DecodeAt(Encode(e.item.value), left - 1);
            var others := DecodeEntries(shape, n, rest, left);
            if value.None? || others.None? then None
            else Some([Named(e.name, Slot(e.item.removed, value.value))] + others.value)
  {
    var inner := Encode(e.item.value);
    var flag := if shape.ArrayShape? then [Flag(e.item.removed)] else [];
    var s := Blob(e.name) + EncodeSlot(shape, e.item) + rest;
    assert s == Blob(e.name) + (flag + (Blob(inner) + rest));
    ReadBlobBack(e.name, flag + (Blob(inner) + rest));
    assert (flag + (Blob(inner) + rest))[|flag|..] == Blob(inner) + rest;
    ReadBlobBack(inner, rest);
  }

  lemma FlattenFirst(shape: Shape, es: seq<Named<Slot>>)
    requires es != []
    ensures Flatten(EncodeEach(shape, es)) ==
      Blob(es[0].name) + EncodeSlot(shape, es[0].item) + Flatten(EncodeEach(shape, es[1..]))
  {
    assert EncodeEach(shape, es)[1..] == EncodeEach(shape, es[1..]);
  }

  predicate AllShallow(es: seq<Named<Slot>>, left: int) {
    forall e :: e in es ==> Shallow(e.item.value, left)
  }

  lemma AllShallowFirst(es: seq<Named<Slot>>, left: int)
    requires es != []
    ensures AllShallow(es, left) <==> Shallow(es[0].item.value, left) && AllShallow(es[1..], left)
  {
    HeadTail(es);
  }

  lemma {:induction false} DecodeEncodeEntries(shape: Shape, es: seq<Named<Slot>>, left: int)
    requires left >= 0
    requires forall e :: e in es ==> Settled(e.item.value) && Flagged(e.item.value)
    requires shape.ObjectShape? ==> forall e :: e in es ==> !e.item.removed
    requires |Flatten(EncodeEach(shape, es))| < U32_LIMIT
    ensures DecodeEntries(shape, |es|, Flatten(EncodeEach(shape, es)), left) ==
      if AllShallow(es, left - 1) then Some(es) else None
    decreases es, 0
  {
    if es != [] {
      var e := es[0];
      FlattenFirst(shape, es);
      DecodeFirst(shape, e, |es| - 1, Flatten(EncodeEach(shape, es[1..])), left);
      HeadTail(es);
      assert e in es;
      DecodeEncodeAt(e.item.value, left - 1);
      DecodeEncodeEntries(shape, es[1..], left);
      AllShallowFirst(es, left - 1);
    }
  }

  /** A stored document reads back as itself in canonical order, repeated names
      and all, and exactly the documents nested deeper than the cap are refused. */
  lemma DecodeEncode(v: Crdt)
    requires Flagged(v) && |Encode(v)| < U32_LIMIT
    ensures Decode(Encode(v)) == if Shallow(v, MAX_DECODE_DEPTH) then Some(Canon(v)) else None
  {
    CanonSettles(v);
    EncodeCanon(v);
    ShallowCanon(v, MAX_DECODE_DEPTH);
    DecodeEncodeAt(Canon(v), MAX_DECODE_DEPTH);
  }

  lemma {:induction false} ShallowCanon(v: Crdt, left: int)
    ensures Shallow(Canon(v), left) <==> Shallow(v, left)
    decreases v
  {
    if v.Container? {
      CanonEachFacts(v.entries);
      SortItems(CanonEach(v.entries));
      forall e | e in v.entries ensures Shallow(Canon(e.item.value), left - 1) <==> Shallow(e.item.value, left - 1) {
        ShallowCanon(e.item.value, left - 1);
      }
      var cs := SortByName(CanonEach(v.entries));
      if Shallow(Canon(v), left) {
        forall e | e in v.entries ensures Shallow(e.item.value, left - 1) {
          assert Named(e.name, Slot(e.item.removed, Canon(e.item.value))) in cs;
        }
      }
    }
  }

  lemma {:induction false} ShallowMonotone(v: Crdt, m: int, n: int)
    requires Shallow(v, m) && m <= n
    ensures Shallow(v, n)
    decreases v
  {
    if v.Container? {
      forall e | e in v.entries ensures Shallow(e.item.value, n - 1) {
        ShallowMonotone(e.item.value, m - 1, n - 1);
      }
    }
  }

  lemma {:induction false} SomeDepth(v: Crdt) returns (n: nat)
    ensures Shallow(v, n)
    decreases v
  {
    n := 0;
    if v.Container? {
      for i := 0 to |v.entries|
        invariant forall e :: e in v.entries[..i] ==> Shallow(e.item.value, n - 1)
      {
        var m := SomeDepth(v.entries[i].item.value);
        var k := if m + 1 > n then m + 1 else n;
        forall e | e in v.entries[..i] ensures Shallow(e.item.value, k - 1) {
          ShallowMonotone(e.item.value, n - 1, k - 1);
        }
        ShallowMonotone(v.entries[i].item.value, m, k - 1);
        assert v.entries[..i + 1] == v.entries[..i] + [v.entries[i]];
        n := k;
      }
      assert v.entries[..|v.entries|] == v.entries;
    }
  }

  lemma ReadableFrom(v: Crdt) returns (n: nat)
    requires Settled(v) && Flagged(v) && |Encode(v)| < U32_LIMIT
    ensures forall k :: k >= n ==> DecodeAt(Encode(v), k) == Some(v)
  {
    n := SomeDepth(v);
    forall k | k >= n ensures DecodeAt(Encode(v), k) == Some(v) {
      ShallowMonotone(v, n, k);
      DecodeEncodeAt(v, k);
    }
  }

  lemma SettledBytesDiffer(a: Crdt, b: Crdt)
    requires Settled(a) && Flagged(a) && Settled(b) && Flagged(b)
    requires Encode(a) == Encode(b) && |Encode(a)| < U32_LIMIT
    ensures a == b
  {
    var m := ReadableFrom(a);
    var n := ReadableFrom(b);
    var _ := DecodeAt(Encode(a), m + n);
  }

  /** Byte-identical encodings are exactly agreement up to the order of fields
      and elements. */
  lemma EncodeExactly(a: Crdt, b: Crdt)
    requires WellFormed(a) && WellFormed(b)
    requires |Encode(a)| < U32_LIMIT && |Encode(b)| < U32_LIMIT
    ensures Encode(a) == Encode(b) <==> View(a) == View(b)
  {
    CanonMeans(a);
    CanonMeans(b);
    EncodeCanon(a);
    EncodeCanon(b);
    CanonExactly(a, b);
    if Encode(a) == Encode(b) {
      WellFormedFlagged(a);
      WellFormedFlagged(b);
      CanonSettles(a);
      CanonSettles(b);
      SettledBytesDiffer(Canon(a), Canon(b));
    }
  }

  /** Peers that merge the same two documents in opposite orders hold the same
      bytes, exactly when the documents are compatible. */
  lemma MergedBytesAgree(a: Crdt, b: Crdt)
    requires WellFormed(a) && WellFormed(b)
    requires |Encode(Merge(a, b))| < U32_LIMIT && |Encode(Merge(b, a))| < U32_LIMIT
    ensures Encode(Merge(a, b)) == Encode(Merge(b, a)) <==> Lattice.Compat(View(a), View(b))
    ensures Encode(Merge(a, a)) == Encode(a)
    ensures Encode(Merge(a, Merge(a, b))) == Encode(Merge(a, b))
    ensures Encode(Merge(Merge(a, b), b)) == Encode(Merge(a, b))
  {
    MergeMeansJoin(a, b);
    MergeMeansJoin(b, a);
    MergeMeansJoin(a, a);
    MergeMeansJoin(a, Merge(a, b));
    MergeMeansJoin(Merge(a, b), b);
    EncodeExactly(Merge(a, b), Merge(b, a));
    Lattice.JoinCommutesExactly(View(a), View(b));
    Lattice.JoinIdempotent(View(a));
    Lattice.JoinAbsorbsLeft(View(a), View(b));
    Lattice.JoinAbsorbsRight(View(a), View(b));
    SameMeaningSameBytes(Merge(a, a), a);
    SameMeaningSameBytes(Merge(a, Merge(a, b)), Merge(a, b));
    SameMeaningSameBytes(Merge(Merge(a, b), b), Merge(a, b));
  }

  lemma SameMeaningSameBytes(a: Crdt, b: Crdt)
    requires WellFormed(a) && WellFormed(b) && View(a) == View(b)
    ensures Encode(a) == Encode(b)
  {
    EncodeCanon(a);
    EncodeCanon(b);
    CanonExactly(a, b);
  }
}
