/** Transit envelopes: the record bodies of the transit log, in the current
    version and the two older ones still read.
 */
module TransitCodec {
  import opened Wrappers
  import opened Sequences
  import opened ByteStrings

  const MAGIC := 0x44534E54  // "DSNT"
  const HASH_BYTES := 32

  datatype Envelope = Envelope(owner: bytes, collection: bytes, key: bytes, keyHash: bytes, doc: bytes, holder: bytes,
                               lsn: i64, expires: i64, docSize: u64, chunk: u32, total: u32,
                               message: bytes, content: bytes, signature: bytes)

  datatype Entry = Hold(envelope: Envelope) | Drop(owner: bytes, keyHash: bytes)

  // ------------------------------------------------------------------
  // Writing
  // ------------------------------------------------------------------

  function Blobs(bs: seq<bytes>): bytes {
    if bs == [] then [] else Blob(bs[0]) + Blobs(bs[1..])
  }

  function Header(version: u32, kind: byte): bytes {
    U32(MAGIC) + U32(version) + [kind]
  }

  function Numbers(e: Envelope): (r: bytes)
    ensures |r| == 32
  {
    I64(e.lsn) + I64(e.expires) + U64(e.docSize) + U32(e.chunk) + U32(e.total)
  }

  function Names(e: Envelope): seq<bytes> {
    [e.owner, e.collection, e.key, e.keyHash, e.doc, e.holder]
  }

  function Tail(e: Envelope): seq<bytes> {
    [e.message, e.content, e.signature]
  }

  function EncodeHold(e: Envelope): bytes {
    Header(3, 1) + (Blobs(Names(e)) + (Numbers(e) + Blobs(Tail(e))))
  }

  function EncodeDrop(owner: bytes, keyHash: bytes): bytes {
    Header(3, 2) + Blobs([owner, keyHash])
  }

  // ------------------------------------------------------------------
  // Reading
  // ------------------------------------------------------------------

  function ReadBlobs(s: bytes, n: nat): (r: Read<seq<bytes>>)
    ensures r.Got? ==> |r.value| == n
  {
    if n == 0 then Got([], s) else
    var b := ReadBlob(s);
    if b.Fail? then Fail else
    var more := ReadBlobs(b.rest, n - 1);
    if more.Fail? then Fail else Got([b.value] + more.value, more.rest)
  }

  /** Up to `n` blobs, the missing ones empty. */
  function ReadOptional(s: bytes, n: nat): (r: Read<seq<bytes>>)
    ensures r.Got? ==> |r.value| == n
    decreases n
  {
    if n == 0 then Got([], s) else
    if s == [] then
      var more := ReadOptional(s, n - 1);
      if more.Fail? then Fail else Got([[]] + more.value, more.rest)
    else
      var b := ReadBlob(s);
      if b.Fail? then Fail else
      var more := ReadOptional(b.rest, n - 1);
      if more.Fail? then Fail else Got([b.value] + more.value, more.rest)
  }

  function ReadI64At(s: bytes, at: nat): i64
    requires at + 8 <= |s|
  {
    U64Range(s[at..at + 8]);
    Signed(DecodeLE(s[at..at + 8]))
  }

  predicate Owned(owner: bytes, keyHash: bytes) {
    owner != [] && |keyHash| == HASH_BYTES
  }

  /** The fields after the header; older versions lack the later ones. */
  function DecodeHold(version: nat, s: bytes): Option<Entry> {
    var names := ReadBlobs(s, 6);
    if names.Fail? || |names.rest| < 16 then None else
    var n, t := names.value, names.rest;
    var e := Envelope(n[0], n[1], n[2], n[3], n[4], n[5], ReadI64At(t, 0), ReadI64At(t, 8), 0, 0, 1, [], [], []);
    if version == 1 then if t[16..] == [] && Owned(e.owner, e.keyHash) then Some(Hold(e)) else None
    else if |t| < 32 then None
    else
      U64Range(t[16..24]);
      U32Range(t[24..28]);
      U32Range(t[28..32]);
      var d := e.(docSize := DecodeLE(t[16..24]), chunk := DecodeLE(t[24..28]), total := DecodeLE(t[28..32]));
      if d.total == 0 || d.chunk >= d.total then None else
      var tail := ReadOptional(t[32..], if version == 3 then 3 else 1);
      if tail.Fail? || tail.rest != [] || !Owned(d.owner, d.keyHash) then None
      else if version == 3 then
        Some(Hold(d.(message := tail.value[0], content := tail.value[1], signature := tail.value[2])))
      else Some(Hold(d.(message := tail.value[0])))
  }

  function DecodeBody(s: bytes): Option<Entry> {
    if |s| < 9 || DecodeLE(s[..4]) != MAGIC then None else
    var version, kind := DecodeLE(s[4..8]), s[8];
    if version != 1 && version != 2 && version != 3 then None
    else if kind == 2 then
      var names := ReadBlobs(s[9..], 2);
      if names.Fail? || names.rest != [] || !Owned(names.value[0], names.value[1]) then None
      else Some(Drop(names.value[0], names.value[1]))
    else if kind != 1 then None
    else DecodeHold(version, s[9..])
  }

  // ------------------------------------------------------------------
  // Reading back what was written
  // ------------------------------------------------------------------

  predicate Small(bs: seq<bytes>) {
    forall i :: 0 <= i < |bs| ==> |bs[i]| < U32_LIMIT
  }

  lemma {:induction false} ReadBlobsBack(bs: seq<bytes>, t: bytes)
    requires Small(bs)
    ensures ReadBlobs(Blobs(bs) + t, |bs|) == Got(bs, t)
  {
    if bs == [] {
      AppendNone(t);
    } else {
      ReadBlobsBack(bs[1..], t);
      ReadBlobBack(bs[0], Blobs(bs[1..]) + t);
      AppendAssociates(Blob(bs[0]), Blobs(bs[1..]), t);
      HeadTail(bs);
    }
  }

  lemma {:induction false} ReadOptionalBack(bs: seq<bytes>)
    requires Small(bs)
    ensures ReadOptional(Blobs(bs), |bs|) == Got(bs, [])
  {
    if bs != [] {
      ReadOptionalBack(bs[1..]);
      ReadBlobBack(bs[0], Blobs(bs[1..]));
      assert bs == [bs[0]] + bs[1..];
    }
  }

  lemma I64Back(i: i64)
    ensures |I64(i)| == 8 && DecodeLE(I64(i)) < U64_LIMIT && Signed(DecodeLE(I64(i))) == i
  {
    var n := if i < 0 then i + U64_LIMIT else i;
    U64RoundTrip(n);
  }

  lemma Field(x: bytes, y: bytes, z: bytes, s: bytes)
    requires s == x + (y + z)
    ensures s[|x|..|x| + |y|] == y && s[|x| + |y|..] == z
  {
  }

  lemma NumbersBack(e: Envelope, t: bytes)
    ensures var s := Numbers(e) + t;
      && ReadI64At(s, 0) == e.lsn && ReadI64At(s, 8) == e.expires && DecodeLE(s[16..24]) == e.docSize
      && DecodeLE(s[24..28]) == e.chunk && DecodeLE(s[28..32]) == e.total && s[32..] == t
  {
    var a, b, c, d, f := I64(e.lsn), I64(e.expires), U64(e.docSize), U32(e.chunk), U32(e.total);
    var s := Numbers(e) + t;
    AppendAssociates(a + b + c + d, f, t);
    AppendAssociates(a + b + c, d, f + t);
    AppendAssociates(a + b, c, d + (f + t));
    AppendAssociates(a, b, c + (d + (f + t)));
    Field([], a, b + (c + (d + (f + t))), s);
    Field(a, b, c + (d + (f + t)), s);
    Field(a + b, c, d + (f + t), s);
    Field(a + b + c, d, f + t, s);
    Field(a + b + c + d, f, t, s);
    I64Back(e.lsn);
    I64Back(e.expires);
    U64RoundTrip(e.docSize);
    U32RoundTrip(e.chunk);
    U32RoundTrip(e.total);
  }

  /** Envelopes that come back: an owner, a whole hash and a chunk that exists. */
  predicate Sound(e: Envelope) {
    Owned(e.owner, e.keyHash) && e.total != 0 && e.chunk < e.total
  }

  lemma HeaderBack(version: u32, kind: byte, t: bytes)
    ensures var s := Header(version, kind) + t;
      |s| >= 9 && DecodeLE(s[..4]) == MAGIC && DecodeLE(s[4..8]) == version && s[8] == kind && s[9..] == t
  {
    var s := Header(version, kind) + t;
    assert s[..4] == U32(MAGIC) && s[4..8] == U32(version) && s[9..] == t;
    U32RoundTrip(MAGIC);
    U32RoundTrip(version);
  }

  lemma HoldFieldsBack(e: Envelope)
    requires Small(Names(e)) && Small(Tail(e))
    ensures DecodeHold(3, Blobs(Names(e)) + (Numbers(e) + Blobs(Tail(e)))) == if Sound(e) then Some(Hold(e)) else None
  {
    var t := Numbers(e) + Blobs(Tail(e));
    ReadBlobsBack(Names(e), t);
    NumbersBack(e, Blobs(Tail(e)));
    ReadOptionalBack(Tail(e));
  }

  /** A written envelope reads back exactly when it is sound. */
  lemma HoldReadsBack(e: Envelope)
    requires Small(Names(e)) && Small(Tail(e))
    ensures DecodeBody(EncodeHold(e)) == if Sound(e) then Some(Hold(e)) else None
  {
    HeaderBack(3, 1, Blobs(Names(e)) + (Numbers(e) + Blobs(Tail(e))));
    HoldFieldsBack(e);
  }

  /** Records of the two older versions: the first ends after the expiry and stands for
      the only chunk of its document, the second knows a message but no content. */
  function EncodeFirst(e: Envelope): bytes {
    Header(1, 1) + (Blobs(Names(e)) + (I64(e.lsn) + I64(e.expires)))
  }

  function EncodeSecond(e: Envelope): bytes {
    Header(2, 1) + (Blobs(Names(e)) + (Numbers(e) + Blobs([e.message])))
  }

  lemma FirstReadsBack(e: Envelope)
    requires Small(Names(e))
    ensures DecodeBody(EncodeFirst(e)) == if !Owned(e.owner, e.keyHash) then None else
      Some(Hold(e.(docSize := 0, chunk := 0, total := 1, message := [], content := [], signature := [])))
  {
    var t := I64(e.lsn) + I64(e.expires);
    HeaderBack(1, 1, Blobs(Names(e)) + t);
    ReadBlobsBack(Names(e), t);
    I64Back(e.lsn);
    I64Back(e.expires);
    assert t[0..8] == I64(e.lsn) && t[8..16] == I64(e.expires) && t[16..] == [];
  }

  lemma SecondReadsBack(e: Envelope)
    requires Small(Names(e)) && |e.message| < U32_LIMIT
    ensures DecodeBody(EncodeSecond(e)) == if Sound(e) then Some(Hold(e.(content := [], signature := []))) else None
  {
    var t := Numbers(e) + Blobs([e.message]);
    HeaderBack(2, 1, Blobs(Names(e)) + t);
    ReadBlobsBack(Names(e), t);
    NumbersBack(e, Blobs([e.message]));
    ReadOptionalBack([e.message]);
  }

  lemma DropReadsBack(owner: bytes, keyHash: bytes)
    requires Owned(owner, keyHash) && |owner| < U32_LIMIT
    ensures DecodeBody(EncodeDrop(owner, keyHash)) == Some(Drop(owner, keyHash))
  {
    HeaderBack(3, 2, Blobs([owner, keyHash]));
    ReadBlobsBack([owner, keyHash], []);
    assert Blobs([owner, keyHash]) + [] == Blobs([owner, keyHash]);
  }

  // ------------------------------------------------------------------
  // Lengths
  // ------------------------------------------------------------------

  lemma {:induction false} ReadBlobsLength(s: bytes, n: nat)
    requires ReadBlobs(s, n).Got?
    ensures |s| == |Blobs(ReadBlobs(s, n).value)| + |ReadBlobs(s, n).rest|
    decreases n
  {
    if n > 0 {
      var b := ReadBlob(s);
      ReadBlobsLength(b.rest, n - 1);
      assert ReadBlobs(s, n).value[1..] == ReadBlobs(b.rest, n - 1).value;
    }
  }

  lemma {:induction false} ReadOptionalLength(s: bytes, n: nat)
    requires ReadOptional(s, n).Got?
    ensures |Blobs(ReadOptional(s, n).value)| + |ReadOptional(s, n).rest| <= |s| + 4 * n
    decreases n
  {
    if n > 0 {
      var rest := if s == [] then s else ReadBlob(s).rest;
      ReadOptionalLength(rest, n - 1);
      assert ReadOptional(s, n).value[1..] == ReadOptional(rest, n - 1).value;
    }
  }

  lemma TailLength(e: Envelope)
    ensures |Blobs(Tail(e))| == 12 + |e.message| + |e.content| + |e.signature|
  {
    assert Tail(e)[1..] == [e.content, e.signature] && [e.content, e.signature][1..] == [e.signature];
    assert [e.signature][1..] == [];
    assert |Blobs([e.signature])| == 4 + |e.signature|;
    assert |Blobs([e.content, e.signature])| == 4 + |e.content| + |Blobs([e.signature])|;
  }

  lemma DecodedHoldLength(version: nat, s: bytes)
    requires DecodeHold(version, s).Some?
    ensures var e := DecodeHold(version, s).value.envelope;
      |Blobs(Names(e))| + 32 + |Blobs(Tail(e))| <= |s| + 28
  {
    var e := DecodeHold(version, s).value.envelope;
    var names := ReadBlobs(s, 6);
    ReadBlobsLength(s, 6);
    assert Names(e) == names.value;
    TailLength(e);
    if version != 1 {
      var n := if version == 3 then 3 else 1;
      var tail := ReadOptional(names.rest[32..], n);
      ReadOptionalLength(names.rest[32..], n);
      if version == 3 {
        assert Tail(e) == tail.value;
      } else {
        assert tail.value[1..] == [];
        assert Blobs(tail.value) == Blob(e.message) + [];
      }
    }
  }

  /** An envelope read from a record of any version takes at most the fields the
      oldest one lacks more when it is written again. */
  lemma DecodedLength(body: bytes)
    requires DecodeBody(body).Some? && DecodeBody(body).value.Hold?
    ensures |EncodeHold(DecodeBody(body).value.envelope)| <= |body| + 28
  {
    DecodedHoldLength(DecodeLE(body[4..8]), body[9..]);
  }

  // ------------------------------------------------------------------
  // Keys
  // ------------------------------------------------------------------

  function MapKey(owner: bytes, keyHash: bytes): bytes {
    owner + [0] + keyHash
  }

  /** With hashes of one length the joined key names the pair. */
  lemma MapKeyInjective(o: bytes, h: bytes, o': bytes, h': bytes)
    requires |h| == |h'| && MapKey(o, h) == MapKey(o', h')
    ensures o == o' && h == h'
  {
    var k := MapKey(o, h);
    assert |o| == |o'|;
    assert k[..|o|] == o && k[..|o'|] == o';
    assert k[|o| + 1..] == h && k[|o'| + 1..] == h';
  }
}
