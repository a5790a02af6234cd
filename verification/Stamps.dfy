/** Hybrid-logical-clock timestamps: ordered by physical time, then the logical
    counter, then the issuing node's id.
 */
module Stamps {
  import opened ByteStrings

  datatype Timestamp = Timestamp(physical: u64, logical: u32, node: bytes)

  predicate Before(a: Timestamp, b: Timestamp) {
    if a.physical != b.physical then a.physical < b.physical
    else if a.logical != b.logical then a.logical < b.logical
    else Less(a.node, b.node)
  }

  predicate NotAfter(a: Timestamp, b: Timestamp) {
    !Before(b, a)
  }

  function Later(a: Timestamp, b: Timestamp): Timestamp {
    if Before(a, b) then b else a
  }

  lemma BeforeIrreflexive(a: Timestamp)
    ensures !Before(a, a)
  {
    LessIrreflexive(a.node);
  }

  lemma BeforeTransitive(a: Timestamp, b: Timestamp, c: Timestamp)
    requires Before(a, b) && Before(b, c)
    ensures Before(a, c)
  {
    if a.physical == c.physical && a.logical == c.logical {
      LessTransitive(a.node, b.node, c.node);
    }
  }

  lemma BeforeTotal(a: Timestamp, b: Timestamp)
    ensures Before(a, b) || a == b || Before(b, a)
  {
    LessTotal(a.node, b.node);
  }

  lemma BeforeNotAfter(a: Timestamp, b: Timestamp)
    requires Before(a, b)
    ensures NotAfter(a, b) && a != b
  {
    BeforeIrreflexive(a);
    if Before(b, a) {
      BeforeTransitive(a, b, a);
    }
  }

  /** The order facts the document proofs use, for every timestamp at once. */
  lemma StampOrder()
    ensures forall a :: !Before(a, a)
    ensures forall a, b :: Before(a, b) ==> !Before(b, a)
    ensures forall a, b :: Before(a, b) || a == b || Before(b, a)
    ensures forall a, b, c :: Before(a, b) && Before(b, c) ==> Before(a, c)
  {
    forall a ensures !Before(a, a) { BeforeIrreflexive(a); }
    forall a, b, c | Before(a, b) && Before(b, c) ensures Before(a, c) { BeforeTransitive(a, b, c); }
    forall a, b ensures Before(a, b) || a == b || Before(b, a) { BeforeTotal(a, b); }
  }

  // ------------------------------------------------------------------
  // Element tags
  // ------------------------------------------------------------------

  /** node ":" physical "." logical "#" counter */
  function Tag(ts: Timestamp, counter: nat): bytes {
    ts.node + [58] + Digits(ts.physical) + [46] + Digits(ts.logical) + [35] + Digits(counter)
  }

  lemma SplitAtLast(p: bytes, q: bytes, sep: byte, d: bytes, e: bytes)
    requires p + [sep] + d == q + [sep] + e
    requires sep !in d && sep !in e
    ensures p == q && d == e
  {
    var s := p + [sep] + d;
    assert s[|p|] == sep && s[|q|] == sep;
    assert |p| == |q|;
    assert s[..|p|] == p && s[..|q|] == q;
    assert s[|p| + 1..] == d && s[|q| + 1..] == e;
  }

  /** Tags are unique: the timestamp and counter can be read back. */
  lemma TagInjective(a: Timestamp, m: nat, b: Timestamp, n: nat)
    requires Tag(a, m) == Tag(b, n)
    ensures a == b && m == n
  {
    var p1, q1 := a.node + [58] + Digits(a.physical), b.node + [58] + Digits(b.physical);
    var p2, q2 := p1 + [46] + Digits(a.logical), q1 + [46] + Digits(b.logical);
    SplitAtLast(p2, q2, 35, Digits(m), Digits(n));
    SplitAtLast(p1, q1, 46, Digits(a.logical), Digits(b.logical));
    SplitAtLast(a.node, b.node, 58, Digits(a.physical), Digits(b.physical));
    DigitsRoundTrip(m);
    DigitsRoundTrip(n);
    DigitsRoundTrip(a.logical);
    DigitsRoundTrip(b.logical);
    DigitsRoundTrip(a.physical);
    DigitsRoundTrip(b.physical);
  }
}
