/**
  Inclusion proofs over the export tree: the off-chain prover that replays the
  level-by-level construction, and the verifier that sees only a leaf, the
  steps and a root.
 */
module MerkleProofs {
  import opened MerkleTree

  datatype Step = Pair(sibling: Hash, siblingIsLeft: bool) | Promoted

  // ---- the verifier ----

  function Climb(acc: Hash, step: Step): Hash {
    match step
    case Pair(sibling, true) => Node(sibling, acc)
    case Pair(sibling, false) => Node(acc, sibling)
    case Promoted => acc
  }

  function ClimbAll(acc: Hash, steps: seq<Step>): Hash
    decreases |steps|
  {
    if steps == [] then acc else ClimbAll(Climb(acc, steps[0]), steps[1..])
  }

  predicate Accepts(leaf: Hash, steps: seq<Step>, root: Hash) {
    ClimbAll(leaf, steps) == root
  }

  method VerifyProof(leaf: Hash, steps: seq<Step>, root: Hash) returns (ok: bool)
    ensures ok == Accepts(leaf, steps, root)
  {
    var acc := leaf;
    for k := 0 to |steps|
      invariant ClimbAll(acc, steps[k..]) == ClimbAll(leaf, steps)
    {
      match steps[k] {
        case Pair(sibling, siblingIsLeft) =>
          acc := if siblingIsLeft then Node(sibling, acc) else Node(acc, sibling);
        case Promoted =>
      }
      assert steps[k..][1..] == steps[k + 1..];
    }
    return acc == root;
  }

  // ---- the prover ----

  /** The step leaf `i` takes out of a level. */
  function StepAt(level: seq<Hash>, i: nat): Step
    requires i < |level|
  {
    if i % 2 == 1 then Pair(level[i - 1], true)
    else if i + 1 < |level| then Pair(level[i + 1], false)
    else Promoted
  }

  function LevelPath(leaves: seq<Hash>, i: nat): seq<Step>
    requires i < |leaves|
    decreases |leaves|
  {
    if |leaves| == 1 then []
    else [StepAt(leaves, i)] + LevelPath(NextLevel(leaves), i / 2)
  }

  lemma {:induction false} LevelPathUnfolds(level: seq<Hash>, i: nat)
    requires i < |level|
    ensures |level| == 1 ==> LevelPath(level, i) == []
    ensures |level| > 1 ==> LevelPath(level, i) == [StepAt(level, i)] + LevelPath(NextLevel(level), i / 2)
  {
  }

  /** An index past the end is never on any level, so its proof has no steps. */
  method BuildProof(leaves: seq<Hash>, index: nat) returns (steps: seq<Step>)
    ensures steps == if index < |leaves| then LevelPath(leaves, index) else []
  {
    hide LevelPath;
    steps := [];
    var level := leaves;
    var idx: nat := index;
    while |level| > 1
      invariant index < |leaves| ==> idx < |level| && steps + LevelPath(level, idx) == LevelPath(leaves, index)
      invariant index >= |leaves| ==> steps == [] && idx >= |level|
      decreases |level|
    {
      ghost var idx0: nat, steps0 := idx, steps;
      var next: seq<Hash> := [];
      var i := 0;
      while i + 1 < |level|
        invariant 0 <= i <= |level| && i == 2 * |next|
        invariant forall j :: 0 <= j < |next| ==> next[j] == Parent(level, j)
        invariant idx0 >= i ==> idx == idx0 && steps == steps0
        invariant idx0 < i ==> idx == idx0 / 2 && steps == steps0 + [StepAt(level, idx0)]
      {
        var left := level[i];
        var right := level[i + 1];
        if idx == i {
          steps := steps + [Pair(right, false)];
          idx := |next|;
        } else if idx == i + 1 {
          steps := steps + [Pair(left, true)];
          idx := |next|;
        }
        next := next + [Node(left, right)];
        i := i + 2;
      }
      if i < |level| {
        if idx == i {
          steps := steps + [Promoted];
          idx := |next|;
        }
        next := next + [level[i]];
      }
      assert next == NextLevel(level);
      if index < |leaves| {
        LevelPathUnfolds(level, idx0);
      }
      level := next;
    }
    if index < |leaves| {
      LevelPathUnfolds(level, idx);
    }
  }

  // ---- completeness ----

  /** A built proof carries its leaf to the root of its tree. */
  lemma {:induction false} BuiltProofsVerify(leaves: seq<Hash>, i: nat)
    requires i < |leaves|
    ensures Accepts(leaves[i], LevelPath(leaves, i), TreeRoot(leaves))
    decreases |leaves|
  {
    if |leaves| > 1 {
      var next := NextLevel(leaves);
      var path := LevelPath(leaves, i);
      assert Climb(leaves[i], StepAt(leaves, i)) == next[i / 2];
      assert path[1..] == LevelPath(next, i / 2);
      NextLevelKeepsRoot(leaves);
      BuiltProofsVerify(next, i / 2);
    }
  }

  /** The proofs of a three-leaf tree written out. */
  lemma SmallProofs(a: Hash, b: Hash, c: Hash)
    ensures LevelPath([a, b, c], 0) == [Pair(b, false), Pair(c, false)]
    ensures LevelPath([a, b, c], 1) == [Pair(a, true), Pair(c, false)]
    ensures LevelPath([a, b, c], 2) == [Promoted, Pair(Node(a, b), true)]
  {
    var next := NextLevel([a, b, c]);
    assert next == [Node(a, b), c];
    LevelPathUnfolds([a, b, c], 0);
    LevelPathUnfolds([a, b, c], 1);
    LevelPathUnfolds([a, b, c], 2);
    LevelPathUnfolds(next, 0);
    LevelPathUnfolds(next, 1);
    assert NextLevel(next) == [Node(Node(a, b), c)];
  }

  // ---- soundness ----

  /** `x` occurs somewhere inside the hash term `h`. */
  predicate Occurs(x: Hash, h: Hash) {
    h == x || (h.Node? && (Occurs(x, h.left) || Occurs(x, h.right)))
  }

  lemma {:induction false} ClimbKeepsOccurrence(x: Hash, acc: Hash, steps: seq<Step>)
    requires Occurs(x, acc)
    ensures Occurs(x, ClimbAll(acc, steps))
    decreases |steps|
  {
    if steps != [] {
      ClimbKeepsOccurrence(x, Climb(acc, steps[0]), steps[1..]);
    }
  }

  lemma {:induction false} OccurringLeafIsOnFringe(x: Hash, h: Hash)
    requires x.Leaf? && Occurs(x, h)
    ensures x in Fringe(h)
  {
    if h.Node? {
      if Occurs(x, h.left) {
        OccurringLeafIsOnFringe(x, h.left);
      } else {
        OccurringLeafIsOnFringe(x, h.right);
      }
    }
  }

  /** Whatever the steps, an accepted leaf hash is one of the leaves. */
  lemma {:induction false} AcceptedLeafIsMember(leaves: seq<Hash>, leaf: Hash, steps: seq<Step>)
    requires AllLeaves(leaves) && leaf.Leaf?
    requires Accepts(leaf, steps, TreeRoot(leaves))
    ensures leaf in leaves
  {
    ClimbKeepsOccurrence(leaf, leaf, steps);
    OccurringLeafIsOnFringe(leaf, TreeRoot(leaves));
    FringeOfRoot(leaves);
  }

  ghost predicate Provable(leaf: Hash, root: Hash) {
    exists steps :: Accepts(leaf, steps, root)
  }

  /** Membership is exactly the existence of an accepted proof. */
  lemma {:induction false} MembershipIsProvability(leaves: seq<Hash>, leaf: Hash)
    requires AllLeaves(leaves) && leaf.Leaf?
    ensures leaf in leaves <==> Provable(leaf, TreeRoot(leaves))
  {
    var root := TreeRoot(leaves);
    if leaf in leaves {
      var i: nat :| i < |leaves| && leaves[i] == leaf;
      BuiltProofsVerify(leaves, i);
      assert Accepts(leaf, LevelPath(leaves, i), root);
    }
    if Provable(leaf, root) {
      var steps :| Accepts(leaf, steps, root);
      AcceptedLeafIsMember(leaves, leaf, steps);
    }
  }

  // ---- position binding ----

  datatype Side = SiblingLeft | SiblingRight | NoSibling

  function SideOf(step: Step): Side {
    match step
    case Pair(_, true) => SiblingLeft
    case Pair(_, false) => SiblingRight
    case Promoted => NoSibling
  }

  /** `steps` turn left, right and carry up as leaf `i` of a tree of `n` leaves must. */
  predicate HasShape(steps: seq<Step>, n: nat, i: nat)
    requires i < n
  {
    if n == 1 then steps == []
    else
      && steps != []
      && SideOf(steps[0]) == (if i % 2 == 1 then SiblingLeft else if i + 1 < n then SiblingRight else NoSibling)
      && HasShape(steps[1..], (n + 1) / 2, i / 2)
  }

  /** With the shape of position `i`, only leaf `i` is accepted, and only by its built proof. */
  lemma {:induction false} ShapeBindsPosition(leaves: seq<Hash>, i: nat, x: Hash, steps: seq<Step>)
    requires i < |leaves| && HasShape(steps, |leaves|, i)
    ensures Accepts(x, steps, TreeRoot(leaves)) <==> x == leaves[i] && steps == LevelPath(leaves, i)
    decreases |leaves|
  {
    hide LevelPath, TreeRoot;
    LevelPathUnfolds(leaves, i);
    if |leaves| == 1 {
      RootOfSingle(leaves);
    } else {
      var next := NextLevel(leaves);
      NextLevelKeepsRoot(leaves);
      ShapeBindsPosition(next, i / 2, Climb(x, steps[0]), steps[1..]);
      assert next[i / 2] == Climb(leaves[i], StepAt(leaves, i));
      assert steps == [steps[0]] + steps[1..];
    }
  }

  lemma {:induction false} BuiltProofsHaveShape(leaves: seq<Hash>, i: nat)
    requires i < |leaves|
    ensures HasShape(LevelPath(leaves, i), |leaves|, i)
    decreases |leaves|
  {
    if |leaves| > 1 {
      BuiltProofsHaveShape(NextLevel(leaves), i / 2);
      assert LevelPath(leaves, i)[1..] == LevelPath(NextLevel(leaves), i / 2);
    }
  }

  // ---- truncation ----

  function Size(h: Hash): nat {
    if h.Node? then Size(h.left) + Size(h.right) else 1
  }

  lemma {:induction false} SizePositive(h: Hash)
    ensures Size(h) >= 1
  {
    if h.Node? {
      SizePositive(h.left);
    }
  }

  /** Climbing never shrinks a hash, and a sibling makes it grow. */
  lemma {:induction false} ClimbGrows(acc: Hash, steps: seq<Step>)
    ensures Size(ClimbAll(acc, steps)) >= Size(acc)
    ensures (exists k :: 0 <= k < |steps| && steps[k].Pair?) ==> Size(ClimbAll(acc, steps)) > Size(acc)
    decreases |steps|
  {
    if steps != [] {
      SizePositive(acc);
      if steps[0].Pair? {
        SizePositive(steps[0].sibling);
      }
      ClimbGrows(Climb(acc, steps[0]), steps[1..]);
      if steps[0].Promoted? && exists k :: 0 <= k < |steps| && steps[k].Pair? {
        var k :| 0 <= k < |steps| && steps[k].Pair?;
        assert steps[1..][k - 1] == steps[k];
      }
    }
  }

  lemma {:induction false} ClimbComposes(acc: Hash, a: seq<Step>, b: seq<Step>)
    ensures ClimbAll(acc, a + b) == ClimbAll(ClimbAll(acc, a), b)
    decreases |a|
  {
    if a == [] {
      assert a + b == b;
    } else {
      assert (a + b)[1..] == a[1..] + b;
      ClimbComposes(Climb(acc, a[0]), a[1..], b);
    }
  }

  /** The top level of a tree always pairs: no built proof ends in a promotion. */
  lemma {:induction false} BuiltProofsEndInPair(leaves: seq<Hash>, i: nat)
    requires i < |leaves| && |leaves| > 1
    ensures LevelPath(leaves, i) != []
    ensures LevelPath(leaves, i)[|LevelPath(leaves, i)| - 1].Pair?
    decreases |leaves|
  {
    var rest := LevelPath(NextLevel(leaves), i / 2);
    assert LevelPath(leaves, i) == [StepAt(leaves, i)] + rest;
    if |leaves| > 2 {
      BuiltProofsEndInPair(NextLevel(leaves), i / 2);
    }
  }

  /** No proper prefix of a built proof verifies its leaf. */
  lemma {:induction false} TruncatedProofFails(leaves: seq<Hash>, i: nat, keep: nat)
    requires i < |leaves| && keep < |LevelPath(leaves, i)|
    ensures !Accepts(leaves[i], LevelPath(leaves, i)[..keep], TreeRoot(leaves))
  {
    hide LevelPath, TreeRoot, Size, ClimbAll;
    var path, root := LevelPath(leaves, i), TreeRoot(leaves);
    var head, tail := path[..keep], path[keep..];
    assert head + tail == path && tail[|tail| - 1] == path[|path| - 1];
    assert |leaves| > 1 by {
      LevelPathUnfolds(leaves, i);
    }
    assert tail[|tail| - 1].Pair? by {
      BuiltProofsEndInPair(leaves, i);
    }
    var partial := ClimbAll(leaves[i], head);
    assert ClimbAll(partial, tail) == root by {
      ClimbComposes(leaves[i], head, tail);
      BuiltProofsVerify(leaves, i);
    }
    ClimbGrows(partial, tail);
  }

  // ---- agreement with the recursive audit path ----

  /** The audit path of section 2.1.1 of RFC 6962, each sibling marked with its side. */
  function AuditPath(leaves: seq<Hash>, i: nat): seq<Step>
    requires i < |leaves|
    decreases |leaves|
  {
    if |leaves| == 1 then []
    else
      var k := SplitPoint(|leaves|);
      if i < k then AuditPath(leaves[..k], i) + [Pair(TreeRoot(leaves[k..]), false)]
      else AuditPath(leaves[k..], i - k) + [Pair(TreeRoot(leaves[..k]), true)]
  }

  function Kept(step: Step): seq<Step> {
    if step.Pair? then [step] else []
  }

  function Siblings(steps: seq<Step>): seq<Step> {
    if steps == [] then [] else Kept(steps[0]) + Siblings(steps[1..])
  }

  ghost predicate SplitInto(low: seq<Hash>, high: seq<Hash>) {
    low != [] && high != [] && |low| == SplitPoint(|low| + |high|)
  }

  lemma {:induction false} AuditPathOfLeft(low: seq<Hash>, high: seq<Hash>, i: nat)
    requires SplitInto(low, high) && i < |low|
    ensures AuditPath(low + high, i) == AuditPath(low, i) + [Pair(TreeRoot(high), false)]
  {
    hide TreeRoot, SplitPoint;
    assert (low + high)[..|low|] == low && (low + high)[|low|..] == high;
  }

  lemma AuditPathOfRight(low: seq<Hash>, high: seq<Hash>, j: nat)
    requires SplitInto(low, high) && j < |high|
    ensures AuditPath(low + high, |low| + j) == AuditPath(high, j) + [Pair(TreeRoot(low), true)]
  {
    hide TreeRoot, SplitPoint;
    assert (low + high)[..|low|] == low && (low + high)[|low|..] == high;
    assert |low| + j - |low| == j;
  }

  /** When the half that holds the leaf climbs a level, the whole tree does. */
  lemma {:induction false} LeftClimbs(
      low: seq<Hash>, high: seq<Hash>, low': seq<Hash>, high': seq<Hash>, i: nat, i': nat, first: seq<Step>)
    requires SplitInto(low, high) && SplitInto(low', high') && i < |low| && i' < |low'|
    requires TreeRoot(high) == TreeRoot(high')
    requires AuditPath(low, i) == first + AuditPath(low', i')
    ensures AuditPath(low + high, i) == first + AuditPath(low' + high', i')
  {
    AuditPathOfLeft(low, high, i);
    AuditPathOfLeft(low', high', i');
  }

  lemma RightClimbs(
      low: seq<Hash>, high: seq<Hash>, low': seq<Hash>, high': seq<Hash>, j: nat, j': nat, first: seq<Step>)
    requires SplitInto(low, high) && SplitInto(low', high') && j < |high| && j' < |high'|
    requires TreeRoot(low) == TreeRoot(low')
    requires AuditPath(high, j) == first + AuditPath(high', j')
    ensures AuditPath(low + high, |low| + j) == first + AuditPath(low' + high', |low'| + j')
  {
    AuditPathOfRight(low, high, j);
    AuditPathOfRight(low', high', j');
  }

  /** The left part of a cut level keeps its steps, provided the cut separates no pair. */
  lemma StepAtOfLeft(low: seq<Hash>, high: seq<Hash>, m: nat, i: nat)
    requires |low| == 2 * m && i < |low|
    ensures StepAt(low + high, i) == StepAt(low, i)
  {
  }

  lemma StepAtOfRight(low: seq<Hash>, high: seq<Hash>, m: nat, j: nat)
    requires |low| == 2 * m && j < |high|
    ensures StepAt(low + high, 2 * m + j) == StepAt(high, j)
  {
    HalfOfShift(j, m);
  }

  lemma SplitClimbs(low: seq<Hash>, high: seq<Hash>)
    requires SplitInto(low, high) && |low| + |high| > 2
    ensures |low| % 2 == 0 && SplitInto(NextLevel(low), NextLevel(high))
  {
    hide SplitPoint;
    SplitPointClimbs(|low| + |high|);
  }

  /** The audit path climbs through the levels: the step out of this level, then the path of the next. */
  lemma {:induction false} AuditPathClimbs(leaves: seq<Hash>, i: nat)
    requires i < |leaves|
    ensures AuditPath(leaves, i) == Kept(StepAt(leaves, i)) + AuditPath(NextLevel(leaves), i / 2)
    decreases |leaves|, 1
  {
    if |leaves| == 1 {
      assert NextLevel(leaves) == leaves;
    } else if |leaves| > 2 {
      var k := SplitPoint(|leaves|);
      var low, high := leaves[..k], leaves[k..];
      assert leaves == low + high;
      if i < k {
        AuditPathClimbsLeft(low, high, i);
      } else {
        AuditPathClimbsRight(low, high, i - k);
      }
    }
  }

  lemma {:induction false} AuditPathClimbsLeft(low: seq<Hash>, high: seq<Hash>, i: nat)
    requires SplitInto(low, high) && |low| + |high| > 2 && i < |low|
    ensures AuditPath(low + high, i) == Kept(StepAt(low + high, i)) + AuditPath(NextLevel(low + high), i / 2)
    decreases |low| + |high|, 0
  {
    SplitClimbs(low, high);
    StepAtOfLeft(low, high, |low| / 2, i);
    NextLevelOfJoin(low, high);
    NextLevelKeepsRoot(high);
    AuditPathClimbs(low, i);
    LeftClimbs(low, high, NextLevel(low), NextLevel(high), i, i / 2, Kept(StepAt(low, i)));
  }

  lemma AuditPathClimbsRight(low: seq<Hash>, high: seq<Hash>, j: nat)
    requires SplitInto(low, high) && |low| + |high| > 2 && j < |high|
    ensures AuditPath(low + high, |low| + j)
            == Kept(StepAt(low + high, |low| + j)) + AuditPath(NextLevel(low + high), (|low| + j) / 2)
    decreases |low| + |high|, 0
  {
    hide TreeRoot, AuditPath, SplitPoint, StepAt;
    var m := |low| / 2;
    SplitClimbs(low, high);
    assert |low| + j == 2 * m + j && (2 * m + j) / 2 == m + j / 2 by {
      HalfOfShift(j, m);
    }
    assert AuditPath(low + high, |low| + j)
        == Kept(StepAt(high, j)) + AuditPath(NextLevel(low) + NextLevel(high), m + j / 2) by {
      NextLevelKeepsRoot(low);
      AuditPathClimbs(high, j);
      RightClimbs(low, high, NextLevel(low), NextLevel(high), j, j / 2, Kept(StepAt(high, j)));
    }
    StepAtOfRight(low, high, m, j);
    NextLevelOfJoin(low, high);
  }

  /** Dropping the promotions from a built proof leaves exactly the audit path of the recursive tree. */
  lemma {:induction false} LevelPathIsAuditPath(leaves: seq<Hash>, i: nat)
    requires i < |leaves|
    ensures Siblings(LevelPath(leaves, i)) == AuditPath(leaves, i)
    decreases |leaves|
  {
    if |leaves| > 1 {
      var rest := LevelPath(NextLevel(leaves), i / 2);
      assert LevelPath(leaves, i)[1..] == rest;
      LevelPathIsAuditPath(NextLevel(leaves), i / 2);
      AuditPathClimbs(leaves, i);
    }
  }
}
