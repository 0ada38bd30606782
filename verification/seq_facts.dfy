/** Small facts about sequences, stated once so that the proofs that need
    them do not have to rediscover them in a crowded context. */
module SeqFacts {
  lemma TakeDrop<T>(s: seq<T>, n: int)
    requires 0 <= n <= |s|
    ensures s[..n] + s[n..] == s
  {
  }

  lemma DropAll<T>(s: seq<T>, n: int)
    requires n == |s|
    ensures s[..n] == s && s[n..] == []
  {
  }

  lemma SplitAt<T>(s: seq<T>, p: int, q: int)
    requires 0 <= p <= q <= |s|
    ensures s[p..] == s[p..q] + s[q..]
  {
  }

  lemma WholeSuffix<T>(s: seq<T>)
    ensures s[0..] == s
  {
  }

  lemma SuffixOfSuffix<T>(s: seq<T>, p: int, k: int)
    requires 0 <= p && 0 <= k && p + k < |s|
    ensures s[p..][k] == s[p + k] && s[p..][k + 1..] == s[p + k + 1..]
  {
  }

  lemma Assoc<T>(a: seq<T>, b: seq<T>, c: seq<T>, bc: seq<T>, whole: seq<T>)
    requires b + c == bc && a + bc == whole
    ensures (a + b) + c == whole
  {
  }

  lemma AppendEmpty<T>(a: seq<T>, e: seq<T>, b: seq<T>)
    requires e == [] && a + e == b
    ensures a == b
  {
  }
}
