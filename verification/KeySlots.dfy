/** Key slots: a 64-byte field padded with zeros and read back up to the first
    zero.  Keys without a zero byte are stored exactly, and their order is the
    order of the slots read as big-endian numbers.
 */
module KeySlots {
  import opened ByteStrings

  const SLOT := 64

  predicate NulFree(k: bytes) {
    forall i :: 0 <= i < |k| ==> k[i] != 0
  }

  function Zeros(n: nat): bytes {
    seq(n, _ => 0)
  }

  /** `memset` then `memcpy` of at most the slot's size. */
  function WriteSlot(k: bytes): (slot: bytes)
    ensures |slot| == SLOT
  {
    if |k| >= SLOT then k[..SLOT] else k + Zeros(SLOT - |k|)
  }

  /** `strnlen` over the slot. */
  function UpToZero(slot: bytes): bytes {
    if slot == [] || slot[0] == 0 then [] else [slot[0]] + UpToZero(slot[1..])
  }

  lemma {:induction false} UpToZeroNulFree(k: bytes, rest: bytes)
    requires NulFree(k) && (rest == [] || rest[0] == 0)
    ensures UpToZero(k + rest) == k
  {
    if k == [] {
      assert k + rest == rest;
    } else {
      UpToZeroNulFree(k[1..], rest);
      assert (k + rest)[1..] == k[1..] + rest;
      assert k == [k[0]] + k[1..];
    }
  }

  lemma {:induction false} ReadIsNulFree(slot: bytes)
    ensures NulFree(UpToZero(slot))
  {
    if slot != [] && slot[0] != 0 {
      ReadIsNulFree(slot[1..]);
    }
  }

  /** A key of accepted length is read back exactly when it has no zero byte. */
  lemma SlotRoundTripExactly(k: bytes)
    requires |k| < SLOT
    ensures UpToZero(WriteSlot(k)) == k <==> NulFree(k)
  {
    if NulFree(k) {
      UpToZeroNulFree(k, Zeros(SLOT - |k|));
    } else {
      ReadIsNulFree(WriteSlot(k));
    }
  }

  // ------------------------------------------------------------------
  // Order
  // ------------------------------------------------------------------

  /** The first `width` bytes, zero padded, as a big-endian number. */
  function Rank(k: bytes, width: nat): (r: nat)
    ensures r < Pow256(width)
    decreases width
  {
    if width == 0 then 0
    else if k == [] then 0
    else
      Carry(k[0], Rank(k[1..], width - 1), Pow256(width - 1));
      k[0] * Pow256(width - 1) + Rank(k[1..], width - 1)
  }

  lemma Carry(d: byte, r: nat, p: nat)
    requires r < p
    ensures d * p + r < 256 * p
  {
    assert d * p <= 255 * p;
  }

  lemma DigitOrder(a: byte, b: byte, ra: nat, rb: nat, p: nat)
    requires ra < p && rb < p
    ensures a < b ==> a * p + ra < b * p + rb
    ensures a == b ==> (a * p + ra < b * p + rb <==> ra < rb)
  {
    if a < b {
      assert (a + 1) * p <= b * p;
    }
  }

  /** A stored key compares with any zero-free key as the slots compare. */
  lemma {:induction false} RankOrder(a: bytes, s: bytes, width: nat)
    requires NulFree(a) && NulFree(s) && |s| < width
    ensures Less(a, s) <==> Rank(a, width) < Rank(s, width)
    ensures Less(s, a) <==> Rank(s, width) < Rank(a, width)
    decreases width
  {
    if a == [] || s == [] {
      if s != [] { RankPositive(s, width); }
      if a != [] { RankPositive(a, width); }
    } else {
      RankOrder(a[1..], s[1..], width - 1);
      var p, ra, rs := Pow256(width - 1), Rank(a[1..], width - 1), Rank(s[1..], width - 1);
      DigitOrder(a[0], s[0], ra, rs, p);
      DigitOrder(s[0], a[0], rs, ra, p);
    }
  }

  lemma RankPositive(k: bytes, width: nat)
    requires k != [] && k[0] != 0 && width > 0
    ensures Rank(k, width) > 0
  {
    DigitOrder(0, k[0], 0, Rank(k[1..], width - 1), Pow256(width - 1));
  }

  lemma RankInjective(a: bytes, s: bytes)
    requires NulFree(a) && NulFree(s) && |s| < SLOT
    ensures Rank(a, SLOT) == Rank(s, SLOT) <==> a == s
  {
    RankOrder(a, s, SLOT);
    LessTotal(a, s);
    LessIrreflexive(a);
  }

  // ------------------------------------------------------------------
  // Any key
  // ------------------------------------------------------------------

  /** A key with a zero byte lies just after the key it is stored as. */
  lemma {:induction false} ZeroOrder(key: bytes, s: bytes)
    requires !NulFree(key) && NulFree(s)
    ensures Less(key, s) <==> Less(UpToZero(key), s)
    ensures Less(s, key) <==> !Less(key, s)
    decreases |s|
  {
    if key[0] != 0 && s != [] {
      assert key == [key[0]] + key[1..];
      assert !NulFree(key[1..]);
      ZeroOrder(key[1..], s[1..]);
    }
  }

  /** The place of a key among the stored ones. */
  function Place(key: bytes): (p: nat)
    ensures p < Pow256(SLOT)
  {
    Rank(UpToZero(key), SLOT)
  }

  lemma PlainKey(key: bytes)
    requires NulFree(key)
    ensures UpToZero(key) == key
  {
    UpToZeroNulFree(key, []);
    assert key + [] == key;
  }

  /** Comparing any key with a stored one is comparing places; only a key without
      a zero byte is ever equal to a stored one. */
  lemma PlaceOrder(key: bytes, s: bytes)
    requires NulFree(s) && |s| < SLOT
    ensures Less(key, s) <==> Place(key) < Place(s)
    ensures key == s <==> NulFree(key) && Place(key) == Place(s)
    ensures Less(s, key) <==> Place(s) < Place(key) || (Place(s) == Place(key) && !NulFree(key))
  {
    var u := UpToZero(key);
    PlainKey(s);
    ReadIsNulFree(key);
    RankOrder(u, s, SLOT);
    LessTotal(key, s);
    if NulFree(key) {
      PlainKey(key);
      RankInjective(key, s);
    } else {
      ZeroOrder(key, s);
    }
  }
}
