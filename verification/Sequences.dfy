/** Small facts about sequences that the solver should not have to rediscover. */
module Sequences {

  lemma AppendAssociates<T>(a: seq<T>, b: seq<T>, c: seq<T>)
    ensures a + b + c == a + (b + c)
  {
  }

  lemma AppendTail<T>(a: seq<T>, b: seq<T>)
    requires a != []
    ensures (a + b)[0] == a[0] && (a + b)[1..] == a[1..] + b
  {
  }

  lemma AppendNone<T>(a: seq<T>)
    ensures a + [] == a && [] + a == a
  {
  }

  lemma HeadTail<T>(a: seq<T>)
    requires a != []
    ensures a == [a[0]] + a[1..]
  {
  }

  lemma PrefixNext<T>(s: seq<T>, i: nat)
    requires i < |s|
    ensures s[..i + 1] == s[..i] + [s[i]]
  {
  }

  lemma InitLast<T>(s: seq<T>, n: nat)
    requires |s| == n + 1
    ensures s == s[..n] + [s[n]]
  {
  }

  lemma HeadAppend<T>(a: seq<T>, x: seq<T>)
    requires a != []
    ensures [a[0]] + (a[1..] + x) == a + x
  {
  }
}
