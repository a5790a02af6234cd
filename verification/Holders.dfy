/** Which peers keep bytes for an absent owner.
 */
module Holders {
  import opened ByteStrings
  import opened Rings

  datatype Ranked = Ranked(rank: int, node: bytes)

  function Material(owner: bytes, keyHash: bytes, candidate: bytes): bytes {
    owner + [0] + keyHash + [0] + candidate
  }

  /** Highest rank first, then the smaller id. */
  predicate Ahead(a: Ranked, b: Ranked) {
    a.rank > b.rank || (a.rank == b.rank && Less(a.node, b.node))
  }

  predicate InOrder(s: seq<Ranked>) {
    forall i, j :: 0 <= i < j < |s| ==> !Ahead(s[j], s[i])
  }

  function Insert(x: Ranked, s: seq<Ranked>): seq<Ranked> {
    if s == [] || !Ahead(s[0], x) then [x] + s else [s[0]] + Insert(x, s[1..])
  }

  function Sort(s: seq<Ranked>): seq<Ranked> {
    if s == [] then [] else Insert(s[0], Sort(s[1..]))
  }

  lemma {:induction false} InsertItems(x: Ranked, s: seq<Ranked>)
    ensures multiset(Insert(x, s)) == multiset{x} + multiset(s)
  {
    if s != [] && Ahead(s[0], x) {
      InsertItems(x, s[1..]);
      assert s == [s[0]] + s[1..];
    }
  }

  lemma {:induction false} SortItems(s: seq<Ranked>)
    ensures multiset(Sort(s)) == multiset(s)
  {
    if s != [] {
      SortItems(s[1..]);
      InsertItems(s[0], Sort(s[1..]));
      assert s == [s[0]] + s[1..];
    }
  }

  lemma AheadOrder(a: Ranked, b: Ranked, c: Ranked)
    ensures Ahead(a, b) ==> !Ahead(b, a)
    ensures !Ahead(b, a) && !Ahead(c, b) ==> !Ahead(c, a)
    ensures !Ahead(a, b) && !Ahead(b, a) ==> a == b
  {
    LessTotal(a.node, b.node);
    LessTotal(b.node, c.node);
    LessTotal(a.node, c.node);
    if Less(a.node, b.node) { LessAsymmetric(a.node, b.node); }
    if Less(a.node, b.node) && Less(b.node, c.node) { LessTransitive(a.node, b.node, c.node); }
    if Less(a.node, c.node) { LessAsymmetric(a.node, c.node); }
    if Less(c.node, a.node) { LessAsymmetric(c.node, a.node); }
  }

  lemma {:induction false} InsertOrdered(x: Ranked, s: seq<Ranked>)
    requires InOrder(s)
    ensures InOrder(Insert(x, s))
  {
    if s != [] {
      if Ahead(s[0], x) {
        var rest := Insert(x, s[1..]);
        InsertOrdered(x, s[1..]);
        InsertItems(x, s[1..]);
        AheadOrder(s[0], x, x);
        forall i | 0 <= i < |rest| ensures !Ahead(rest[i], s[0]) {
          assert rest[i] in multiset(rest);
          assert rest[i] == x || rest[i] in s[1..];
        }
      } else {
        forall i | 0 <= i < |s| ensures !Ahead(s[i], x) {
          AheadOrder(x, s[0], s[i]);
        }
      }
    }
  }

  lemma {:induction false} SortOrdered(s: seq<Ranked>)
    ensures InOrder(Sort(s))
  {
    if s != [] {
      SortOrdered(s[1..]);
      InsertOrdered(s[0], Sort(s[1..]));
    }
  }

  lemma TailItems(a: seq<Ranked>)
    requires a != []
    ensures multiset(a[1..]) == multiset(a) - multiset{a[0]}
  {
    assert a == [a[0]] + a[1..];
  }

  lemma SameFirst(a: seq<Ranked>, b: seq<Ranked>)
    requires InOrder(a) && InOrder(b) && a != [] && b != []
    requires a[0] in b && b[0] in a
    ensures a[0] == b[0]
  {
    var i :| 0 <= i < |b| && b[i] == a[0];
    var j :| 0 <= j < |a| && a[j] == b[0];
    AheadOrder(a[0], b[0], b[0]);
  }

  lemma {:induction false} OrderUnique(a: seq<Ranked>, b: seq<Ranked>)
    requires InOrder(a) && InOrder(b) && multiset(a) == multiset(b)
    ensures a == b
    decreases a
  {
    assert |multiset(a)| == |a| && |multiset(b)| == |b|;
    if a != [] {
      assert a[0] in multiset(b) && b[0] in multiset(a);
      SameFirst(a, b);
      TailItems(a);
      TailItems(b);
      OrderUnique(a[1..], b[1..]);
      assert a == [a[0]] + a[1..] && b == [b[0]] + b[1..];
    }
  }

  // ------------------------------------------------------------------
  // The ranking
  // ------------------------------------------------------------------

  function Rank(hash: Hash, owner: bytes, keyHash: bytes, candidate: bytes): Ranked {
    Ranked(hash(Material(owner, keyHash, candidate)), candidate)
  }

  /** Each candidate with its rank; empty ids are passed over. */
  function Ranks(hash: Hash, owner: bytes, keyHash: bytes, candidates: seq<bytes>): seq<Ranked> {
    if candidates == [] then [] else
    var n := |candidates| - 1;
    Ranks(hash, owner, keyHash, candidates[..n]) +
    if candidates[n] == [] then [] else [Rank(hash, owner, keyHash, candidates[n])]
  }

  function Ranking(hash: Hash, owner: bytes, keyHash: bytes, candidates: seq<bytes>): seq<Ranked> {
    Sort(Ranks(hash, owner, keyHash, candidates))
  }

  /** `want` entries clockwise from `start`. */
  function Window(s: seq<Ranked>, start: nat, want: nat): (w: seq<bytes>)
    requires start < |s| && want <= |s|
    ensures |w| == want
    ensures forall i :: 0 <= i < want ==> w[i] == (s[start..] + s[..start])[i].node
  {
    seq(want, i requires 0 <= i < want => (s[start..] + s[..start])[i].node)
  }

  function Min(a: nat, b: nat): nat {
    if a <= b then a else b
  }

  /** `chunk % size`, as repeated subtraction. */
  function Turned(chunk: nat, size: nat): (c: nat)
    requires size > 0
    ensures c < size
  {
    if chunk < size then chunk else Turned(chunk - size, size)
  }

  lemma {:induction false} TurnedIsModulo(chunk: nat, size: nat)
    requires size > 0
    ensures Turned(chunk, size) == chunk % size
    decreases chunk
  {
    if chunk < size {
      SmallMod(chunk, size);
    } else {
      TurnedIsModulo(chunk - size, size);
      OneTurn(chunk - size, size);
    }
  }

  lemma OneTurn(n: nat, size: nat)
    requires size > 0
    ensures (n + size) % size == n % size
  {
    assert n + size == (n / size + 1) * size + n % size;
    SameQuotient(n + size, n / size + 1, n % size, size);
  }

  lemma SameQuotient(n: nat, q: nat, r: nat, size: nat)
    requires r < size && n == q * size + r
    ensures n % size == r
  {
    assert n == (n / size) * size + n % size;
    if n / size < q {
      Multiples(n / size + 1, q, size);
    } else if n / size > q {
      Multiples(q + 1, n / size, size);
    }
  }

  lemma Multiples(a: nat, b: nat, size: nat)
    requires a <= b
    ensures a * size <= b * size
  {
  }

  /** The holders of one chunk. */
  function Chosen(ranking: seq<Ranked>, most: nat, chunk: nat): (w: seq<bytes>)
    ensures |w| == Min(most, |ranking|)
  {
    if ranking == [] then [] else Window(ranking, Turned(chunk, |ranking|), Min(most, |ranking|))
  }

  method SelectTransitHolders(hash: Hash, owner: bytes, keyHash: bytes, candidates: seq<bytes>, most: nat, chunk: nat)
    returns (holders: seq<bytes>)
    ensures holders == Chosen(Ranking(hash, owner, keyHash, candidates), most, chunk)
  {
    if candidates == [] || most == 0 { return []; }
    var ranked := [];
    for i := 0 to |candidates|
      invariant ranked == Ranks(hash, owner, keyHash, candidates[..i])
    {
      assert candidates[..i + 1][..i] == candidates[..i];
      if candidates[i] != [] {
        ranked := ranked + [Rank(hash, owner, keyHash, candidates[i])];
      }
    }
    assert candidates[..|candidates|] == candidates;
    ranked := Sort(ranked);
    ghost var order := ranked;
    if ranked != [] {
      TurnedIsModulo(chunk, |ranked|);
      var start := chunk % |ranked|;
      ranked := ranked[start..] + ranked[..start];
    }
    var want := Min(most, |ranked|);
    holders := [];
    for i := 0 to want
      invariant |holders| == i && forall j :: 0 <= j < i ==> holders[j] == ranked[j].node
    {
      holders := holders + [ranked[i].node];
    }
    assert order == [] ==> holders == [];
  }

  // ------------------------------------------------------------------
  // Agreement
  // ------------------------------------------------------------------

  lemma {:induction false} RanksCount(hash: Hash, owner: bytes, keyHash: bytes, candidates: seq<bytes>, r: Ranked)
    ensures multiset(Ranks(hash, owner, keyHash, candidates))[r] ==
      if r.node != [] && r == Rank(hash, owner, keyHash, r.node) then multiset(candidates)[r.node] else 0
  {
    if candidates != [] {
      var n := |candidates| - 1;
      RanksCount(hash, owner, keyHash, candidates[..n], r);
      CountSnoc(candidates, r.node);
      var last := Rank(hash, owner, keyHash, candidates[n]);
      assert last.node == candidates[n];
    }
  }

  lemma CountSnoc(s: seq<bytes>, x: bytes)
    requires s != []
    ensures multiset(s)[x] == multiset(s[..|s| - 1])[x] + if s[|s| - 1] == x then 1 else 0
  {
    assert s == s[..|s| - 1] + [s[|s| - 1]];
  }

  /** Peers with the same candidates, in any order, choose the same holders. */
  lemma SameCandidatesSameHolders(hash: Hash, owner: bytes, keyHash: bytes, c: seq<bytes>, c': seq<bytes>, most: nat,
                                  chunk: nat)
    requires multiset(c) == multiset(c')
    ensures Chosen(Ranking(hash, owner, keyHash, c), most, chunk) ==
      Chosen(Ranking(hash, owner, keyHash, c'), most, chunk)
  {
    var a, b := Ranks(hash, owner, keyHash, c), Ranks(hash, owner, keyHash, c');
    forall r ensures multiset(a)[r] == multiset(b)[r] {
      RanksCount(hash, owner, keyHash, c, r);
      RanksCount(hash, owner, keyHash, c', r);
    }
    SortItems(a);
    SortItems(b);
    SortOrdered(a);
    SortOrdered(b);
    OrderUnique(Sort(a), Sort(b));
  }

  // ------------------------------------------------------------------
  // Spreading the chunks
  // ------------------------------------------------------------------

  predicate OneEach(ranking: seq<Ranked>) {
    forall i, j :: 0 <= i < j < |ranking| ==> ranking[i].node != ranking[j].node
  }

  lemma Twice(s: seq<Ranked>, i: nat, j: nat)
    requires i < j < |s| && s[i] == s[j]
    ensures multiset(s)[s[i]] >= 2
  {
    var a, b := s[..j], s[j + 1..];
    assert s == a + [s[j]] + b;
    assert a[i] in multiset(a);
  }

  /** Distinct candidates are ranked once each. */
  lemma RankingOneEach(hash: Hash, owner: bytes, keyHash: bytes, candidates: seq<bytes>)
    requires forall c :: multiset(candidates)[c] <= 1
    ensures OneEach(Ranking(hash, owner, keyHash, candidates))
  {
    var ranking := Ranking(hash, owner, keyHash, candidates);
    SortItems(Ranks(hash, owner, keyHash, candidates));
    forall i, j | 0 <= i < j < |ranking| ensures ranking[i].node != ranking[j].node {
      assert ranking[i] in multiset(ranking) && ranking[j] in multiset(ranking);
      RanksCount(hash, owner, keyHash, candidates, ranking[i]);
      RanksCount(hash, owner, keyHash, candidates, ranking[j]);
      if ranking[i] == ranking[j] { Twice(ranking, i, j); }
    }
  }

  /** How far clockwise rank `j` is from the start of chunk `c`. */
  function Offset(size: nat, j: nat, c: nat): int
    requires j < size && c < size
  {
    if c <= j then j - c else j + size - c
  }

  lemma WindowHolds(ranking: seq<Ranked>, want: nat, c: nat, j: nat)
    requires OneEach(ranking) && j < |ranking| && c < |ranking| && want <= |ranking|
    ensures ranking[j].node in Window(ranking, c, want) <==> Offset(|ranking|, j, c) < want
  {
    var off, w := Offset(|ranking|, j, c), Window(ranking, c, want);
    var turned := ranking[c..] + ranking[..c];
    assert turned[off] == ranking[j];
    if off < want {
      assert w[off] == ranking[j].node;
    }
    if ranking[j].node in w {
      var i :| 0 <= i < want && w[i] == ranking[j].node;
      var k := if c + i < |ranking| then c + i else c + i - |ranking|;
      assert turned[i] == ranking[k];
      assert k == j;
    }
  }

  lemma HolderAt(ranking: seq<Ranked>, most: nat, chunk: nat, j: nat)
    requires OneEach(ranking) && j < |ranking|
    ensures ranking[j].node in Chosen(ranking, most, chunk) <==>
      Offset(|ranking|, j, Turned(chunk, |ranking|)) < Min(most, |ranking|)
  {
    WindowHolds(ranking, Min(most, |ranking|), Turned(chunk, |ranking|), j);
  }

  /** A candidate holds a chunk exactly when its rank is within the window that
      starts at the chunk number modulo the number of candidates. */
  lemma HolderExactly(ranking: seq<Ranked>, most: nat, chunk: nat, j: nat)
    requires OneEach(ranking) && j < |ranking|
    ensures ranking[j].node in Chosen(ranking, most, chunk) <==>
      Offset(|ranking|, j, chunk % |ranking|) < Min(most, |ranking|)
  {
    TurnedIsModulo(chunk, |ranking|);
    HolderAt(ranking, most, chunk, j);
  }

  /** How many of these holder lists name the node. */
  function Load(lists: seq<seq<bytes>>, node: bytes): nat {
    if lists == [] then 0 else
    Load(lists[..|lists| - 1], node) + if node in lists[|lists| - 1] then 1 else 0
  }

  function Tally(bits: seq<bool>): nat {
    if bits == [] then 0 else Tally(bits[..|bits| - 1]) + if bits[|bits| - 1] then 1 else 0
  }

  lemma {:induction false} LoadIsTally(lists: seq<seq<bytes>>, node: bytes, bits: seq<bool>)
    requires |bits| == |lists| && forall c :: 0 <= c < |lists| ==> (bits[c] <==> node in lists[c])
    ensures Load(lists, node) == Tally(bits)
  {
    if lists != [] { LoadIsTally(lists[..|lists| - 1], node, bits[..|bits| - 1]); }
  }

  lemma {:induction false} TallyAppend(a: seq<bool>, b: seq<bool>)
    ensures Tally(a + b) == Tally(a) + Tally(b)
  {
    if b == [] {
      assert a + b == a;
    } else {
      TallyAppend(a, b[..|b| - 1]);
      assert (a + b)[..|a + b| - 1] == a + b[..|b| - 1];
    }
  }

  function Positive(n: int): nat {
    if n > 0 then n else 0
  }

  function Expected(size: nat, want: nat, j: nat, n: nat): int {
    if n <= j + 1 then Positive(n - Positive(j - want + 1)) else Min(want, j + 1) + Positive(n - (j + 1 + size - want))
  }

  lemma ExpectedNext(size: nat, want: nat, j: nat, n: nat)
    requires j < size && want <= size && n < size
    ensures Expected(size, want, j, n + 1) == Expected(size, want, j, n) + if Offset(size, j, n) < want then 1 else 0
  {
  }

  /** `q * size`, as repeated addition. */
  function Times(q: nat, size: nat): nat {
    if q == 0 then 0 else Times(q - 1, size) + size
  }

  lemma {:induction false} TimesIsProduct(q: nat, size: nat)
    ensures Times(q, size) == q * size
  {
    if q > 0 { TimesIsProduct(q - 1, size); }
  }

  lemma {:induction false} Remainder(q: nat, size: nat, r: nat)
    requires r < size
    ensures Turned(Times(q, size) + r, size) == r
  {
    if q > 0 { Remainder(q - 1, size, r); }
  }

  lemma LastTurn(bits: seq<bool>, one: seq<bool>, n: nat, q: nat)
    requires one != [] && n == Times(q, |one|) && |bits| == n + |one|
    requires forall c :: 0 <= c < |bits| ==> bits[c] == one[Turned(c, |one|)]
    ensures bits == bits[..n] + one
  {
    forall i | 0 <= i < |one| ensures bits[n + i] == one[i] {
      Remainder(q, |one|, i);
    }
  }

  /** A tally of something periodic. */
  lemma {:induction false} TallyTurns(bits: seq<bool>, one: seq<bool>, q: nat)
    requires one != [] && |bits| == Times(q, |one|)
    requires forall c :: 0 <= c < |bits| ==> bits[c] == one[Turned(c, |one|)]
    ensures Tally(bits) == Times(q, Tally(one))
  {
    if q > 0 {
      var n := Times(q - 1, |one|);
      LastTurn(bits, one, n, q - 1);
      TallyTurns(bits[..n], one, q - 1);
      TallyAppend(bits[..n], one);
    }
  }

  /** The chunks of one turn whose window holds rank `j`. */
  function InWindow(size: nat, want: nat, j: nat): (bits: seq<bool>)
    requires j < size
    ensures |bits| == size && forall c :: 0 <= c < size ==> bits[c] == (Offset(size, j, c) < want)
  {
    seq(size, c requires 0 <= c < size => Offset(size, j, c) < want)
  }

  lemma {:induction false} TallyWindow(size: nat, want: nat, j: nat, n: nat)
    requires j < size && n <= size && want <= size
    ensures Tally(InWindow(size, want, j)[..n]) == Expected(size, want, j, n)
  {
    if n > 0 {
      TallyWindow(size, want, j, n - 1);
      ExpectedNext(size, want, j, n - 1);
      assert InWindow(size, want, j)[..n][..n - 1] == InWindow(size, want, j)[..n - 1];
    }
  }

  lemma TallyAll(size: nat, want: nat, j: nat)
    requires j < size && want <= size
    ensures Tally(InWindow(size, want, j)) == want
  {
    TallyWindow(size, want, j, size);
    assert InWindow(size, want, j)[..size] == InWindow(size, want, j);
  }

  function Repeated(one: seq<bool>, n: nat): (bits: seq<bool>)
    requires one != []
    ensures |bits| == n && forall c :: 0 <= c < n ==> bits[c] == one[Turned(c, |one|)]
  {
    seq(n, c requires 0 <= c < n => one[Turned(c, |one|)])
  }

  lemma BitAt(ranking: seq<Ranked>, most: nat, j: nat, c: nat)
    requires OneEach(ranking) && j < |ranking|
    ensures InWindow(|ranking|, Min(most, |ranking|), j)[Turned(c, |ranking|)] <==>
      ranking[j].node in Chosen(ranking, most, c)
  {
    HolderAt(ranking, most, c, j);
  }

  lemma BitsOf(ranking: seq<Ranked>, most: nat, lists: seq<seq<bytes>>, j: nat, bits: seq<bool>)
    requires OneEach(ranking) && j < |ranking|
    requires forall c :: 0 <= c < |lists| ==> lists[c] == Chosen(ranking, most, c)
    requires bits == Repeated(InWindow(|ranking|, Min(most, |ranking|), j), |lists|)
    ensures Load(lists, ranking[j].node) == Tally(bits)
  {
    forall c | 0 <= c < |lists| ensures bits[c] <==> ranking[j].node in lists[c] {
      BitAt(ranking, most, j, c);
    }
    LoadIsTally(lists, ranking[j].node, bits);
  }

  /** Over any number of full turns every rank holds as many chunks. */
  lemma LoadExactly(ranking: seq<Ranked>, most: nat, lists: seq<seq<bytes>>, j: nat, turns: nat)
    requires OneEach(ranking) && j < |ranking| && |lists| == Times(turns, |ranking|)
    requires forall c :: 0 <= c < |lists| ==> lists[c] == Chosen(ranking, most, c)
    ensures Load(lists, ranking[j].node) == Times(turns, Min(most, |ranking|))
  {
    var one := InWindow(|ranking|, Min(most, |ranking|), j);
    BitsOf(ranking, most, lists, j, Repeated(one, |lists|));
    TallyTurns(Repeated(one, |lists|), one, turns);
    TallyAll(|ranking|, Min(most, |ranking|), j);
  }

  /** Striping is even: when the candidates are distinct, the holder lists of any
      number of full turns of chunks name every candidate `most` times a turn, or
      once a chunk if there are fewer candidates, whatever the hash. */
  lemma EvenStripes(hash: Hash, owner: bytes, keyHash: bytes, candidates: seq<bytes>, most: nat, x: bytes,
                    lists: seq<seq<bytes>>, turns: nat)
    requires (forall c :: multiset(candidates)[c] <= 1) && x in candidates && x != []
    requires |lists| == turns * |Ranking(hash, owner, keyHash, candidates)|
    requires forall c :: 0 <= c < |lists| ==> lists[c] == Chosen(Ranking(hash, owner, keyHash, candidates), most, c)
    ensures Load(lists, x) == turns * Min(most, |Ranking(hash, owner, keyHash, candidates)|)
  {
    var ranking := Ranking(hash, owner, keyHash, candidates);
    RankingOneEach(hash, owner, keyHash, candidates);
    var r := Rank(hash, owner, keyHash, x);
    RanksCount(hash, owner, keyHash, candidates, r);
    SortItems(Ranks(hash, owner, keyHash, candidates));
    assert x in multiset(candidates);
    assert r in multiset(ranking);
    var j :| 0 <= j < |ranking| && ranking[j] == r;
    TimesIsProduct(turns, |ranking|);
    TimesIsProduct(turns, Min(most, |ranking|));
    LoadExactly(ranking, most, lists, j, turns);
  }

  // ------------------------------------------------------------------
  // The best candidates
  // ------------------------------------------------------------------

  /** `x` has the higher hash for this owner and document, or an equal one and not the
      larger id. */
  predicate Better(hash: Hash, owner: bytes, keyHash: bytes, x: bytes, y: bytes) {
    var a, b := hash(owner + [0] + keyHash + [0] + x), hash(owner + [0] + keyHash + [0] + y);
    a > b || (a == b && !Less(y, x))
  }

  lemma Ordered(hash: Hash, owner: bytes, keyHash: bytes, candidates: seq<bytes>, i: nat, j: nat)
    requires i < j < |Ranking(hash, owner, keyHash, candidates)|
    ensures var r := Ranking(hash, owner, keyHash, candidates);
      && r[i].node in candidates && r[i].node != [] && r[j].node in candidates && r[j].node != []
      && Better(hash, owner, keyHash, r[i].node, r[j].node)
  {
    var ranks, r := Ranks(hash, owner, keyHash, candidates), Ranking(hash, owner, keyHash, candidates);
    SortItems(ranks);
    SortOrdered(ranks);
    assert r[i] in multiset(r) && r[j] in multiset(r);
    RanksCount(hash, owner, keyHash, candidates, r[i]);
    RanksCount(hash, owner, keyHash, candidates, r[j]);
    assert !Ahead(r[j], r[i]);
  }

  lemma Listed(hash: Hash, owner: bytes, keyHash: bytes, candidates: seq<bytes>, c: bytes) returns (j: nat)
    requires c in candidates && c != []
    ensures j < |Ranking(hash, owner, keyHash, candidates)| && Ranking(hash, owner, keyHash, candidates)[j].node == c
  {
    var ranks, r := Ranks(hash, owner, keyHash, candidates), Ranking(hash, owner, keyHash, candidates);
    SortItems(ranks);
    RanksCount(hash, owner, keyHash, candidates, Rank(hash, owner, keyHash, c));
    assert c in multiset(candidates);
    assert Rank(hash, owner, keyHash, c) in multiset(r);
    j :| 0 <= j < |r| && r[j] == Rank(hash, owner, keyHash, c);
  }

  /** The first chunk goes to the candidates with the highest hashes, the highest first;
      no candidate left out is better than one chosen. */
  lemma BestHoldFirst(hash: Hash, owner: bytes, keyHash: bytes, candidates: seq<bytes>, most: nat)
    ensures var h := Chosen(Ranking(hash, owner, keyHash, candidates), most, 0);
      && (forall i, j :: 0 <= i < j < |h| ==> Better(hash, owner, keyHash, h[i], h[j]))
      && (forall i, c :: 0 <= i < |h| && c in candidates && c != [] && c !in h ==>
            Better(hash, owner, keyHash, h[i], c))
  {
    var r := Ranking(hash, owner, keyHash, candidates);
    var h := Chosen(r, most, 0);
    assert forall i :: 0 <= i < |h| ==> h[i] == r[i].node by {
      if r != [] { assert r[0..] + r[..0] == r; }
    }
    forall i, j | 0 <= i < j < |h| ensures Better(hash, owner, keyHash, h[i], h[j]) {
      Ordered(hash, owner, keyHash, candidates, i, j);
    }
    forall i, c | 0 <= i < |h| && c in candidates && c != [] && c !in h ensures Better(hash, owner, keyHash, h[i], c) {
      var j := Listed(hash, owner, keyHash, candidates, c);
      assert j >= |h|;
      Ordered(hash, owner, keyHash, candidates, i, j);
    }
  }
}
