/** The Merkle root of an export (cmd/audit-exporter/exporter.go) against the tree
    hash of section 2.1 of RFC 6962, without that section's prefix bytes. */
module Merkle {
  import opened Sequences
  import opened Bytes

  function NodeHash(sha: Hash, l: Digest, r: Digest): Digest {
    sha(l + r)
  }

  // ----- the reference tree -----

  /** The largest k * 2^i below n. */
  function LargestBelow(n: nat, k: nat): nat
    requires 0 < k < n
    decreases n - k
  {
    if 2 * k < n then LargestBelow(n, 2 * k) else k
  }

  /** The largest power of two below n: where the tree over n leaves splits. */
  function SplitPoint(n: nat): (k: nat)
    requires n > 1
    ensures 0 < k < n <= 2 * k
    ensures exists p :: k == Power2(p)
  {
    SplitPointBounds(n, 0);
    LargestBelow(n, 1)
  }

  lemma {:induction false} SplitPointBounds(n: nat, q: nat)
    requires Power2(q) < n
    ensures
      var k := LargestBelow(n, Power2(q));
      0 < k < n <= 2 * k && exists p :: k == Power2(p)
    decreases n - Power2(q)
  {
    if 2 * Power2(q) < n { SplitPointBounds(n, q + 1); }
  }

  function Power2(p: nat): (k: nat)
    ensures k > 0
  {
    if p == 0 then 1 else 2 * Power2(p - 1)
  }

  function TreeHash(sha: Hash, leaves: seq<Digest>): Digest
    requires leaves != []
    decreases |leaves|
  {
    if |leaves| == 1 then leaves[0]
    else
      var k := SplitPoint(|leaves|);
      NodeHash(sha, TreeHash(sha, leaves[..k]), TreeHash(sha, leaves[k..]))
  }

  // ----- one pass of the loop -----

  /** Neighbours hashed together; an odd last node moves up as it is. */
  function PairUp(sha: Hash, level: seq<Digest>): (next: seq<Digest>)
    ensures |next| == (|level| + 1) / 2
  {
    if |level| < 2 then level
    else [NodeHash(sha, level[0], level[1])] + PairUp(sha, level[2..])
  }

  lemma {:induction false} PairUpSplits(sha: Hash, a: seq<Digest>, b: seq<Digest>)
    requires |a| % 2 == 0
    ensures PairUp(sha, a + b) == PairUp(sha, a) + PairUp(sha, b)
  {
    if a == [] {
      assert a + b == b;
    } else {
      assert (a + b)[2..] == a[2..] + b;
      PairUpSplits(sha, a[2..], b);
    }
  }

  /** Doubling the start of the search doubles its result. */
  lemma {:induction false} LargestBelowDoubles(n: nat, k: nat)
    requires 0 < k && 2 * k < n
    ensures k < (n + 1) / 2 && LargestBelow(n, 2 * k) == 2 * LargestBelow((n + 1) / 2, k)
    decreases n - k
  {
    if 4 * k < n { LargestBelowDoubles(n, 2 * k); }
  }

  lemma SplitPointHalves(n: nat)
    requires n > 2
    ensures SplitPoint(n) == 2 * SplitPoint((n + 1) / 2)
  {
    LargestBelowDoubles(n, 1);
  }

  lemma PairOfTwo(sha: Hash, level: seq<Digest>)
    requires |level| == 2
    ensures PairUp(sha, level) == [TreeHash(sha, level)]
  {
    assert level[..1] == [level[0]] && level[1..] == [level[1]] && level[2..] == [];
  }

  /** The tree over two halves put together where it splits. */
  lemma TreeOfHalves(sha: Hash, left: seq<Digest>, right: seq<Digest>)
    requires left != [] && right != [] && SplitPoint(|left + right|) == |left|
    ensures TreeHash(sha, left + right) == NodeHash(sha, TreeHash(sha, left), TreeHash(sha, right))
  {
    hide NodeHash, SplitPoint;
    assert (left + right)[..|left|] == left && (left + right)[|left|..] == right;
  }

  /** A pass does not change the tree hash. */
  lemma {:induction false} PassKeepsTreeHash(sha: Hash, level: seq<Digest>)
    requires level != []
    ensures TreeHash(sha, PairUp(sha, level)) == TreeHash(sha, level)
    decreases |level|
  {
    if |level| == 2 {
      PairOfTwo(sha, level);
    } else if |level| > 2 {
      hide SplitPoint, NodeHash, PairUp, TreeHash;
      var k := SplitPoint(|level|);
      var left, right := level[..k], level[k..];
      assert level == left + right;
      PassKeepsTreeHash(sha, left);
      PassKeepsTreeHash(sha, right);
      PassOfHalves(sha, left, right);
    }
  }

  lemma PassOfHalves(sha: Hash, left: seq<Digest>, right: seq<Digest>)
    requires left != [] && right != [] && |left + right| > 2 && SplitPoint(|left + right|) == |left|
    requires TreeHash(sha, PairUp(sha, left)) == TreeHash(sha, left)
    requires TreeHash(sha, PairUp(sha, right)) == TreeHash(sha, right)
    ensures TreeHash(sha, PairUp(sha, left + right)) == TreeHash(sha, left + right)
  {
    hide SplitPoint, NodeHash, PairUp, TreeHash;
    SplitPointHalves(|left + right|);
    PairUpSplits(sha, left, right);
    TreeOfHalves(sha, left, right);
    TreeOfHalves(sha, PairUp(sha, left), PairUp(sha, right));
  }

  // ----- the level-by-level root -----

  /** The number of passes: the least p with n at most 2^p. */
  function CeilLog2(n: nat): (p: nat)
    ensures n <= Power2(p) && (p > 0 ==> Power2(p - 1) < n)
  {
    if n <= 1 then 0 else 1 + CeilLog2((n + 1) / 2)
  }

  /** The nodes still to be paired. */
  function Rest(level: seq<Digest>, i: nat): seq<Digest> {
    if i <= |level| then level[i..] else []
  }

  lemma PairUpFrom(sha: Hash, level: seq<Digest>, i: nat)
    requires i < |level|
    ensures
      var node := if i + 1 < |level| then NodeHash(sha, level[i], level[i + 1]) else level[i];
      PairUp(sha, Rest(level, i)) == [node] + PairUp(sha, Rest(level, i + 2))
  {
    if i + 1 < |level| { assert level[i..][2..] == level[i + 2..]; }
  }

  lemma StartOfPass(sha: Hash, level: seq<Digest>)
    ensures [] + PairUp(sha, Rest(level, 0)) == PairUp(sha, level)
  {
    assert level[0..] == level;
  }

  lemma NothingLeft(sha: Hash, level: seq<Digest>, i: nat, done: seq<Digest>)
    requires i >= |level|
    ensures done + PairUp(sha, Rest(level, i)) == done
  {
  }

  /** The inner loop of merkleRoot; `calls` counts its uses of nodeHash. */
  method Pass(sha: Hash, level: seq<Digest>) returns (next: seq<Digest>, ghost calls: nat)
    ensures next == PairUp(sha, level)
    ensures calls == |level| / 2
  {
    hide PairUp, NodeHash, Rest;
    next, calls := [], 0;
    var i := 0;
    StartOfPass(sha, level);
    while i < |level|
      invariant i % 2 == 0 && calls == (if i <= |level| then i / 2 else |level| / 2)
      invariant next + PairUp(sha, Rest(level, i)) == PairUp(sha, level)
    {
      PairUpFrom(sha, level, i);
      if i + 1 < |level| {
        Associative(next, [NodeHash(sha, level[i], level[i + 1])], PairUp(sha, Rest(level, i + 2)));
        next := next + [NodeHash(sha, level[i], level[i + 1])];
        calls := calls + 1;
      } else {
        Associative(next, [level[i]], PairUp(sha, Rest(level, i + 2)));
        next := next + [level[i]];
      }
      i := i + 2;
    }
    NothingLeft(sha, level, i, next);
  }

  /** merkleRoot; `passes` counts the rounds of its outer loop. */
  method MerkleRoot(sha: Hash, leaves: seq<Digest>) returns (root: Digest, ghost passes: nat, ghost calls: nat)
    ensures root == if leaves == [] then sha([]) else TreeHash(sha, leaves)
    ensures leaves != [] ==> passes == CeilLog2(|leaves|) && calls == |leaves| - 1
  {
    passes, calls := 0, 0;
    if |leaves| == 0 {
      return sha([]), 0, 0;
    }
    var level := leaves;
    while |level| > 1
      invariant level != []
      invariant TreeHash(sha, level) == TreeHash(sha, leaves)
      invariant passes + CeilLog2(|level|) == CeilLog2(|leaves|)
      invariant calls + |level| == |leaves|
    {
      PassKeepsTreeHash(sha, level);
      ghost var more;
      level, more := Pass(sha, level);
      passes, calls := passes + 1, calls + more;
    }
    return level[0], passes, calls;
  }

  // ----- binding -----

  /** Where two trees of one shape with one root first differ in a hash input. */
  function TreeCollision(sha: Hash, a: seq<Digest>, b: seq<Digest>): (pair: (Bytes, Bytes))
    requires |a| == |b| > 0 && a != b
    requires TreeHash(sha, a) == TreeHash(sha, b)
    ensures Collide(sha, pair)
    decreases |a|
  {
    assert |a| > 1;
    var k := SplitPoint(|a|);
    var la, ra := TreeHash(sha, a[..k]), TreeHash(sha, a[k..]);
    var lb, rb := TreeHash(sha, b[..k]), TreeHash(sha, b[k..]);
    if la + ra != lb + rb then (la + ra, lb + rb)
    else
      assert la == (la + ra)[..32] && ra == (la + ra)[32..] && lb == (lb + rb)[..32] && rb == (lb + rb)[32..];
      assert a == a[..k] + a[k..] && b == b[..k] + b[k..];
      if a[..k] != b[..k] then TreeCollision(sha, a[..k], b[..k])
      else TreeCollision(sha, a[k..], b[k..])
  }
}
