/**
  The binary hash tree over an export page, built level by level with the odd
  node carried up unchanged, and the recursive tree it is equal to.

  Hashing is ideal: a hash value is the term that was hashed. The two hash
  domains are the two constructors, so a leaf hash is never a node hash, and
  the all-zero root of an empty page is neither.
 */
module MerkleTree {
  import opened MachineWords

  datatype Hash = Zero | Leaf(preimage: seq<Byte>) | Node(left: Hash, right: Hash)

  predicate IsPowerOfTwo(n: nat) {
    n == 1 || (n >= 2 && n % 2 == 0 && IsPowerOfTwo(n / 2))
  }

  /** The largest power of two below `n`: where section 2.1 of RFC 6962 splits a tree of `n` leaves. */
  function SplitPoint(n: nat): (k: nat)
    requires n >= 2
    ensures 1 <= k < n <= 2 * k
  {
    if n == 2 then 1 else 2 * SplitPoint((n + 1) / 2)
  }

  /** The split is a power of two, and the only one with `k < n <= 2k`. */
  lemma {:induction false} SplitPointIsPowerOfTwo(n: nat, k: nat)
    requires n >= 2
    ensures IsPowerOfTwo(k) && k < n <= 2 * k <==> k == SplitPoint(n)
  {
    if n > 2 {
      SplitPointIsPowerOfTwo((n + 1) / 2, k / 2);
      SplitPointIsPowerOfTwo((n + 1) / 2, SplitPoint((n + 1) / 2));
    }
  }

  /** The tree head of section 2.1 of RFC 6962, with this format's domains and empty root. */
  function TreeRoot(leaves: seq<Hash>): Hash
    decreases |leaves|
  {
    if leaves == [] then Zero
    else if |leaves| == 1 then leaves[0]
    else
      var k := SplitPoint(|leaves|);
      Node(TreeRoot(leaves[..k]), TreeRoot(leaves[k..]))
  }

  /** Node `j` of the level above: the pair at `2j`, or the lone last node unchanged. */
  function Parent(level: seq<Hash>, j: nat): Hash
    requires 2 * j < |level|
  {
    if 2 * j + 1 < |level| then Node(level[2 * j], level[2 * j + 1]) else level[2 * j]
  }

  function NextLevel(level: seq<Hash>): (next: seq<Hash>)
    ensures |next| == (|level| + 1) / 2
  {
    seq((|level| + 1) / 2, j requires 0 <= j < (|level| + 1) / 2 => Parent(level, j))
  }

  lemma {:induction false} RootOfSingle(leaves: seq<Hash>)
    requires |leaves| == 1
    ensures TreeRoot(leaves) == leaves[0]
  {
  }

  lemma HalfOfShift(j: nat, m: nat)
    ensures (2 * m + j) % 2 == j % 2 && (2 * m + j) / 2 == m + j / 2
  {
  }

  /** Cut at an even position, a level's two parts climb independently. */
  lemma NextLevelOfJoin(low: seq<Hash>, high: seq<Hash>)
    requires |low| % 2 == 0
    ensures NextLevel(low + high) == NextLevel(low) + NextLevel(high)
  {
  }

  /** A tree of more than two leaves and its next level split at the same place. */
  lemma {:induction false} SplitPointClimbs(n: nat)
    requires n > 2
    ensures SplitPoint(n) % 2 == 0 && SplitPoint((n + 1) / 2) == SplitPoint(n) / 2
  {
  }

  /** Climbing one level keeps the tree head: level-by-level pairing is the recursive split. */
  lemma {:induction false} NextLevelKeepsRoot(level: seq<Hash>)
    requires |level| >= 1
    ensures TreeRoot(NextLevel(level)) == TreeRoot(level)
    decreases |level|
  {
    var n, next := |level|, NextLevel(level);
    if n == 1 {
      assert next == level;
    } else if n == 2 {
      assert next == [Node(level[0], level[1])];
    } else {
      var k := SplitPoint(n);
      var low, high := level[..k], level[k..];
      SplitPointClimbs(n);
      assert level == low + high;
      NextLevelOfJoin(low, high);
      assert next[..k / 2] == NextLevel(low) && next[k / 2..] == NextLevel(high);
      NextLevelKeepsRoot(low);
      NextLevelKeepsRoot(high);
    }
  }

  method RootOf(leaves: seq<Hash>) returns (root: Hash)
    ensures root == TreeRoot(leaves)
  {
    if |leaves| == 0 {
      return Zero;
    }
    var level := leaves;
    while |level| > 1
      invariant |level| >= 1
      invariant TreeRoot(level) == TreeRoot(leaves)
      decreases |level|
    {
      var next: seq<Hash> := [];
      var i := 0;
      while i + 1 < |level|
        invariant 0 <= i <= |level| && i == 2 * |next|
        invariant forall j :: 0 <= j < |next| ==> next[j] == Parent(level, j)
      {
        var left := level[i];
        var right := level[i + 1];
        next := next + [Node(left, right)];
        i := i + 2;
      }
      if i < |level| {
        next := next + [level[i]];
      }
      assert next == NextLevel(level);
      NextLevelKeepsRoot(level);
      level := next;
    }
    return level[0];
  }

  /** The smallest trees written out: left before right, the odd node carried up as it is. */
  lemma SmallTrees(a: Hash, b: Hash, c: Hash, d: Hash, e: Hash)
    ensures TreeRoot([]) == Zero && TreeRoot([a]) == a && TreeRoot([a, b]) == Node(a, b)
    ensures TreeRoot([a, b, c]) == Node(Node(a, b), c)
    ensures TreeRoot([a, b, c, d, e]) == Node(Node(Node(a, b), Node(c, d)), e)
  {
    NextLevelKeepsRoot([a, b, c]);
    assert NextLevel([a, b, c]) == [Node(a, b), c];
    NextLevelKeepsRoot([a, b, c, d, e]);
    assert NextLevel([a, b, c, d, e]) == [Node(a, b), Node(c, d), e];
    NextLevelKeepsRoot([Node(a, b), Node(c, d), e]);
    assert NextLevel([Node(a, b), Node(c, d), e]) == [Node(Node(a, b), Node(c, d)), e];
  }

  // ---- what a root determines ----

  predicate AllLeaves(hs: seq<Hash>) {
    forall i :: 0 <= i < |hs| ==> hs[i].Leaf?
  }

  /** The leaf-domain hashes of a tree, left to right. */
  function Fringe(h: Hash): seq<Hash> {
    match h
    case Zero => []
    case Leaf(_) => [h]
    case Node(l, r) => Fringe(l) + Fringe(r)
  }

  lemma {:induction false} FringeOfRoot(leaves: seq<Hash>)
    requires AllLeaves(leaves)
    ensures Fringe(TreeRoot(leaves)) == leaves
    decreases |leaves|
  {
    if |leaves| >= 2 {
      var k := SplitPoint(|leaves|);
      FringeOfRoot(leaves[..k]);
      FringeOfRoot(leaves[k..]);
      assert leaves[..k] + leaves[k..] == leaves;
    }
  }

  /** A root determines the whole list of leaves, its length included. */
  lemma {:induction false} RootBindsLeaves(a: seq<Hash>, b: seq<Hash>)
    requires AllLeaves(a) && AllLeaves(b)
    ensures TreeRoot(a) == TreeRoot(b) <==> a == b
  {
    FringeOfRoot(a);
    FringeOfRoot(b);
  }

  /** The leaf domain is needed: over raw hashes a promoted tree and its collapsed level share a root. */
  lemma RawHashesDoNotBind(a: Hash, b: Hash, c: Hash)
    ensures TreeRoot([a, b, c]) == TreeRoot([Node(a, b), c])
    ensures [a, b, c] != [Node(a, b), c]
  {
    var level := [a, b, c];
    NextLevelKeepsRoot(level);
    assert NextLevel(level) == [Node(a, b), c];
    assert |level| != |[Node(a, b), c]|;
  }
}
