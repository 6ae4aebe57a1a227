/** Small facts about sequences. */
module Sequences {

  lemma Associative<T>(a: seq<T>, b: seq<T>, c: seq<T>)
    ensures (a + b) + c == a + (b + c)
  {
  }

  lemma OneMoreInCommon<T>(a: seq<T>, b: seq<T>, n: nat)
    requires n < |a| && n < |b| && b[..n] == a[..n] && b[n] == a[n]
    ensures b[..n + 1] == a[..n + 1]
  {
    assert a[..n + 1] == a[..n] + [a[n]] && b[..n + 1] == b[..n] + [b[n]];
  }
}
