/**
 Merkle roots and inclusion proofs (crates/bsv/src/merkle.rs). `pair` stands for `hash_pair`; the
 results are for any such function, and name a collision of it wherever they need one excluded.
 */
module Merkle {
  import opened Wrappers
  import opened Powers

  const MAX_TREE_HEIGHT: nat := 64

  datatype MerkleError = MerkleMismatch | OutOfRange

  datatype MerkleProof<H> = MerkleProof(index: nat, siblings: seq<H>)

  // ---------------------------------------------------------------- reference definitions

  /** The right child of the node at position q: the last node of an odd level is paired with itself. */
  function Right(n: nat, q: nat): (r: nat)
    requires 2 * q < n
    ensures r < n
  {
    if 2 * q + 1 < n then 2 * q + 1 else 2 * q
  }

  /** The level above. */
  function Above<H>(pair: (H, H) -> H, level: seq<H>): (r: seq<H>)
    ensures |r| == (|level| + 1) / 2
  {
    seq((|level| + 1) / 2, q requires 0 <= q < (|level| + 1) / 2 => pair(level[2 * q], level[Right(|level|, q)]))
  }

  lemma AboveAt<H>(pair: (H, H) -> H, level: seq<H>, q: nat)
    requires 2 * q < |level|
    ensures q < |Above(pair, level)|
    ensures Above(pair, level)[q] == pair(level[2 * q], level[Right(|level|, q)])
  {
  }

  function Root<H>(pair: (H, H) -> H, level: seq<H>): H
    requires level != []
    decreases |level|
  {
    if |level| == 1 then level[0] else Root(pair, Above(pair, level))
  }

  /** Levels above the leaves. */
  function Height(n: nat): nat
  {
    if n <= 1 then 0 else 1 + Height((n + 1) / 2)
  }

  /** The sibling path of a leaf. */
  function Siblings<H>(pair: (H, H) -> H, level: seq<H>, i: nat): (r: seq<H>)
    requires i < |level|
    ensures |r| == Height(|level|)
    decreases |level|
  {
    if |level| == 1 then []
    else
      [level[if i % 2 == 0 then Right(|level|, i / 2) else i - 1]] + Siblings(pair, Above(pair, level), i / 2)
  }

  /** Folding a proof from a leaf. */
  function Fold<H>(pair: (H, H) -> H, leaf: H, index: nat, siblings: seq<H>): H
    decreases siblings
  {
    if siblings == [] then leaf
    else
      Fold(pair, if index % 2 == 0 then pair(leaf, siblings[0]) else pair(siblings[0], leaf), index / 2, siblings[1..])
  }

  lemma {:induction false} HeightBound(n: nat, k: nat)
    ensures Height(n) <= k <==> n <= Pow2(k)
    decreases k
  {
    if n <= 1 {
    } else if k > 0 {
      HeightBound((n + 1) / 2, k - 1);
    }
  }

  lemma HeightGuard(n: nat)
    ensures Height(n) <= MAX_TREE_HEIGHT <==> n <= 0x1_0000_0000_0000_0000
  {
    hide Pow2;
    HeightBound(n, 64);
    Pow2Sixty(4);
    SixteenTwos();
  }

  lemma SixteenTwos()
    ensures Pow2(4) == 16
  {
  }

  // ------------------------------------------------------------------------- the code

  /** `next_level`, chunk by chunk. */
  method NextLevel<H>(pair: (H, H) -> H, level: seq<H>) returns (out: seq<H>)
    ensures out == Above(pair, level)
  {
    out := [];
    for q := 0 to (|level| + 1) / 2
      invariant |out| == q && forall k :: 0 <= k < q ==> out[k] == Above(pair, level)[k]
    {
      var left := level[2 * q];
      var right := if 2 * q + 1 < |level| then level[2 * q + 1] else left;
      AboveAt(pair, level, q);
      out := out + [pair(left, right)];
    }
  }

  /** `merkle_root`: the reference root of at most 2^64 leaves. */
  method MerkleRoot<H>(pair: (H, H) -> H, leaves: seq<H>) returns (result: Result<H, MerkleError>)
    ensures leaves == [] ==> result == Err(MerkleMismatch)
    ensures leaves != [] ==>
              result == if |leaves| <= 0x1_0000_0000_0000_0000 then Ok(Root(pair, leaves)) else Err(OutOfRange)
  {
    if leaves == [] {
      return Err(MerkleMismatch);
    }
    HeightGuard(|leaves|);
    var level := leaves;
    var height := 0;
    while |level| > 1
      invariant level != [] && Root(pair, level) == Root(pair, leaves)
      invariant height + Height(|level|) == Height(|leaves|) && height <= MAX_TREE_HEIGHT
      decreases |level|
    {
      height := height + 1;
      if height > MAX_TREE_HEIGHT {
        return Err(OutOfRange);
      }
      level := NextLevel(pair, level);
    }
    return Ok(level[0]);
  }

  /** `compute_root_from_proof`. */
  method ComputeRootFromProof<H>(pair: (H, H) -> H, leaf: H, proof: MerkleProof<H>) returns (result: Result<H, MerkleError>)
    ensures result == if |proof.siblings| > 64 then Err(OutOfRange)
                      else Ok(Fold(pair, leaf, proof.index, proof.siblings))
  {
    if |proof.siblings| > MAX_TREE_HEIGHT {
      return Err(OutOfRange);
    }
    var current := leaf;
    var index := proof.index;
    assert proof.siblings[0..] == proof.siblings;
    for i := 0 to |proof.siblings|
      invariant Fold(pair, current, index, proof.siblings[i..]) == Fold(pair, leaf, proof.index, proof.siblings)
    {
      var sibling := proof.siblings[i];
      assert proof.siblings[i..][1..] == proof.siblings[i + 1..];
      current := if index % 2 == 0 then pair(current, sibling) else pair(sibling, current);
      index := index / 2;
    }
    return Ok(current);
  }

  // ---------------------------------------------------------------------- completeness

  /** Every leaf's own path folds to the root. */
  lemma {:induction false} PathFolds<H>(pair: (H, H) -> H, level: seq<H>, i: nat)
    requires i < |level|
    ensures Fold(pair, level[i], i, Siblings(pair, level, i)) == Root(pair, level)
    decreases |level|
  {
    if |level| > 1 {
      var above := Above(pair, level);
      var siblings := Siblings(pair, level, i);
      assert siblings[1..] == Siblings(pair, above, i / 2);
      PathFolds(pair, above, i / 2);
      assert i % 2 == 0 ==> 2 * (i / 2) == i;
      assert i % 2 == 1 ==> 2 * (i / 2) == i - 1 && Right(|level|, i / 2) == i;
    }
  }

  // ------------------------------------------------------------------------- soundness

  /** The leaf that a proof position stands for: positions past the end fall on self-paired nodes. */
  function Resolve(n: nat, index: nat): (i: nat)
    requires n > 0
    ensures i < n && (index < n ==> i == index)
    decreases n
  {
    if n == 1 then 0
    else
      var q := Resolve((n + 1) / 2, index / 2);
      if index % 2 == 0 then 2 * q else Right(n, q)
  }

  predicate IsCollision<H(==)>(pair: (H, H) -> H, c: ((H, H), (H, H)))
  {
    c.0 != c.1 && pair(c.0.0, c.0.1) == pair(c.1.0, c.1.1)
  }

  /** Two inputs with the same hash, found by comparing a proof with the true path from the leaf up. */
  function ProofCollision<H(==)>(pair: (H, H) -> H, level: seq<H>, leaf: H, index: nat, siblings: seq<H>): ((H, H), (H, H))
    requires level != [] && |siblings| == Height(|level|)
    decreases |level|
  {
    if |level| == 1 then ((leaf, leaf), (leaf, leaf))
    else
      var claimed := if index % 2 == 0 then (leaf, siblings[0]) else (siblings[0], leaf);
      var above := Above(pair, level);
      var q := Resolve(|above|, index / 2);
      if pair(claimed.0, claimed.1) == above[q] then (claimed, (level[2 * q], level[Right(|level|, q)]))
      else ProofCollision(pair, above, pair(claimed.0, claimed.1), index / 2, siblings[1..])
  }

  /** A full-height proof that folds to the root is for a true leaf, or exhibits a hash collision. */
  lemma {:induction false} ProofSound<H>(pair: (H, H) -> H, level: seq<H>, leaf: H, index: nat, siblings: seq<H>)
    requires level != [] && |siblings| == Height(|level|)
    requires Fold(pair, leaf, index, siblings) == Root(pair, level)
    ensures leaf == level[Resolve(|level|, index)] || IsCollision(pair, ProofCollision(pair, level, leaf, index, siblings))
    decreases |level|
  {
    if |level| > 1 {
      var claimed := if index % 2 == 0 then (leaf, siblings[0]) else (siblings[0], leaf);
      ProofSound(pair, Above(pair, level), pair(claimed.0, claimed.1), index / 2, siblings[1..]);
    }
  }

  // --------------------------------------------------- what a proof's length decides

  /** The nodes j levels up. */
  function LevelAt<H>(pair: (H, H) -> H, level: seq<H>, j: nat): (r: seq<H>)
    requires level != [] && j <= Height(|level|)
    ensures r != [] && Height(|r|) == Height(|level|) - j
    decreases j
  {
    if j == 0 then level else LevelAt(pair, Above(pair, level), j - 1)
  }

  /** Short proofs prove inner nodes: each node j levels up has an accepted proof that is j shorter. */
  lemma {:induction false} InnerNodeAccepted<H>(pair: (H, H) -> H, leaves: seq<H>, j: nat, i: nat)
    requires leaves != [] && j <= Height(|leaves|) && i < |LevelAt(pair, leaves, j)|
    ensures var level := LevelAt(pair, leaves, j);
            && |Siblings(pair, level, i)| == Height(|leaves|) - j
            && Fold(pair, level[i], i, Siblings(pair, level, i)) == Root(pair, leaves)
    decreases j
  {
    if j == 0 {
      PathFolds(pair, leaves, i);
    } else {
      InnerNodeAccepted(pair, Above(pair, leaves), j - 1, i);
    }
  }

  /** In general a proof of at most full height is for a node of the level its length names. */
  lemma {:induction false} ShortProofSound<H>(pair: (H, H) -> H, leaves: seq<H>, node: H, index: nat, siblings: seq<H>)
    requires leaves != [] && |siblings| <= Height(|leaves|)
    requires Fold(pair, node, index, siblings) == Root(pair, leaves)
    ensures var level := LevelAt(pair, leaves, Height(|leaves|) - |siblings|);
            node == level[Resolve(|level|, index)] || IsCollision(pair, ProofCollision(pair, level, node, index, siblings))
  {
    var j := Height(|leaves|) - |siblings|;
    LevelRoot(pair, leaves, j);
    ProofSound(pair, LevelAt(pair, leaves, j), node, index, siblings);
  }

  lemma {:induction false} LevelRoot<H>(pair: (H, H) -> H, level: seq<H>, j: nat)
    requires level != [] && j <= Height(|level|)
    ensures Root(pair, LevelAt(pair, level, j)) == Root(pair, level)
    decreases j
  {
    if j > 0 {
      LevelRoot(pair, Above(pair, level), j - 1);
    }
  }

  /** A proof position after k levels. */
  function Raised(index: nat, k: nat): nat
  {
    if k == 0 then index else Raised(index / 2, k - 1)
  }

  lemma {:induction false} FoldSplit<H>(pair: (H, H) -> H, leaf: H, index: nat, siblings: seq<H>, k: nat)
    requires k <= |siblings|
    ensures Fold(pair, leaf, index, siblings) ==
            Fold(pair, Fold(pair, leaf, index, siblings[..k]), Raised(index, k), siblings[k..])
    decreases k
  {
    if k == 0 {
      assert siblings[..0] == [] && siblings[0..] == siblings;
    } else {
      var up := if index % 2 == 0 then pair(leaf, siblings[0]) else pair(siblings[0], leaf);
      FoldSplit(pair, up, index / 2, siblings[1..], k - 1);
      assert siblings[..k][1..] == siblings[1..][..k - 1] && siblings[1..][k - 1..] == siblings[k..];
    }
  }

  /** A proof longer than the tree, which the code accepts up to 64 siblings, folds its excess into a true leaf. */
  lemma LongProofSound<H>(pair: (H, H) -> H, leaves: seq<H>, node: H, index: nat, siblings: seq<H>)
    requires leaves != [] && |siblings| >= Height(|leaves|)
    requires Fold(pair, node, index, siblings) == Root(pair, leaves)
    ensures var k := |siblings| - Height(|leaves|);
            var reached := Fold(pair, node, index, siblings[..k]);
            || reached == leaves[Resolve(|leaves|, Raised(index, k))]
            || IsCollision(pair, ProofCollision(pair, leaves, reached, Raised(index, k), siblings[k..]))
  {
    var k := |siblings| - Height(|leaves|);
    FoldSplit(pair, node, index, siblings, k);
    ProofSound(pair, leaves, Fold(pair, node, index, siblings[..k]), Raised(index, k), siblings[k..]);
  }

  /** And each way of hashing up into a leaf is accepted: the root does not tell a leaf from what it hashes. */
  lemma LongProofAccepted<H>(pair: (H, H) -> H, leaves: seq<H>, node: H, index: nat, excess: seq<H>)
    requires Raised(index, |excess|) < |leaves|
    requires Fold(pair, node, index, excess) == leaves[Raised(index, |excess|)]
    ensures Fold(pair, node, index, excess + Siblings(pair, leaves, Raised(index, |excess|))) == Root(pair, leaves)
  {
    var i := Raised(index, |excess|);
    var all := excess + Siblings(pair, leaves, i);
    FoldSplit(pair, node, index, all, |excess|);
    assert all[..|excess|] == excess && all[|excess|..] == Siblings(pair, leaves, i);
    PathFolds(pair, leaves, i);
  }

  // --------------------------------------------------------------- what a root decides

  /** The first position where two sequences differ. */
  function FirstDiff<H(==)>(a: seq<H>, b: seq<H>): (i: nat)
    requires |a| == |b| && a != b
    ensures i < |a| && a[i] != b[i]
  {
    if a[0] != b[0] then 0
    else
      assert a == [a[0]] + a[1..] && b == [b[0]] + b[1..];
      1 + FirstDiff(a[1..], b[1..])
  }

  function ListCollision<H(==)>(pair: (H, H) -> H, a: seq<H>, b: seq<H>): ((H, H), (H, H))
    requires |a| == |b| && a != b
    decreases |a|
  {
    if |a| == 1 then ((a[0], a[0]), (a[0], a[0]))
    else if Above(pair, a) != Above(pair, b) then ListCollision(pair, Above(pair, a), Above(pair, b))
    else
      var q := FirstDiff(a, b) / 2;
      ((a[2 * q], a[Right(|a|, q)]), (b[2 * q], b[Right(|b|, q)]))
  }

  /** Lists of the same length with the same root are the same list, or exhibit a collision. */
  lemma {:induction false} RootBinds<H>(pair: (H, H) -> H, a: seq<H>, b: seq<H>)
    requires |a| == |b| && a != [] && a != b && Root(pair, a) == Root(pair, b)
    ensures IsCollision(pair, ListCollision(pair, a, b))
    decreases |a|
  {
    if |a| == 1 {
      SinglesDiffer(a, b);
    } else if Above(pair, a) != Above(pair, b) {
      RootBinds(pair, Above(pair, a), Above(pair, b));
    } else {
      var q := FirstDiff(a, b) / 2;
      assert Above(pair, a)[q] == Above(pair, b)[q];
    }
  }

  /** What stands at a position of a level that is filled up by pairing odd ends with themselves. */
  function At<H>(level: seq<H>, i: nat): H
    requires level != []
  {
    level[Resolve(|level|, i)]
  }

  /** The filled-up level above pairs neighbours of the filled-up level. */
  lemma AtAbove<H>(pair: (H, H) -> H, level: seq<H>, q: nat)
    requires |level| > 1
    ensures At(Above(pair, level), q) == pair(At(level, 2 * q), At(level, 2 * q + 1))
  {
    hide Resolve, Above, Right;
    var n := |level|;
    ResolveChildren(n, q);
    AboveAt(pair, level, Resolve((n + 1) / 2, q));
  }

  lemma ResolveChildren(n: nat, q: nat)
    requires n > 1
    ensures 2 * Resolve((n + 1) / 2, q) < n
    ensures Resolve(n, 2 * q) == 2 * Resolve((n + 1) / 2, q)
    ensures Resolve(n, 2 * q + 1) == Right(n, Resolve((n + 1) / 2, q))
  {
    hide Right;
    assert (2 * q) / 2 == q && (2 * q) % 2 == 0;
    assert (2 * q + 1) / 2 == q && (2 * q + 1) % 2 == 1;
  }

  /** The two filled-up levels are the same. */
  ghost predicate Alike<H(!new)>(a: seq<H>, b: seq<H>)
    requires a != [] && b != []
  {
    forall i: nat :: At(a, i) == At(b, i)
  }

  lemma {:induction false} AlikeSameRoot<H(!new)>(pair: (H, H) -> H, a: seq<H>, b: seq<H>)
    requires a != [] && b != [] && Height(|a|) == Height(|b|) && Alike(a, b)
    ensures Root(pair, a) == Root(pair, b)
    decreases |a|
  {
    hide At;
    if |a| == 1 {
      assert At(a, 0) == At(b, 0);
      AtSingle(a);
      AtSingle(b);
    } else {
      forall q: nat
        ensures At(Above(pair, a), q) == At(Above(pair, b), q)
      {
        AtAbove(pair, a, q);
        AtAbove(pair, b, q);
      }
      AlikeSameRoot(pair, Above(pair, a), Above(pair, b));
    }
  }

  lemma AtSingle<H>(s: seq<H>)
    requires |s| == 1
    ensures forall i: nat :: At(s, i) == s[0]
  {
  }

  /** Two inputs with the same hash, found by going up from a position where the filled-up levels differ. */
  function PositionCollision<H(==)>(pair: (H, H) -> H, a: seq<H>, b: seq<H>, i: nat): ((H, H), (H, H))
    requires a != [] && b != [] && Height(|a|) == Height(|b|)
    decreases |a|
  {
    if |a| == 1 then ((a[0], a[0]), (a[0], a[0]))
    else if At(Above(pair, a), i / 2) != At(Above(pair, b), i / 2) then
      PositionCollision(pair, Above(pair, a), Above(pair, b), i / 2)
    else
      var q := i / 2;
      ((At(a, 2 * q), At(a, 2 * q + 1)), (At(b, 2 * q), At(b, 2 * q + 1)))
  }

  lemma {:induction false} UnlikeCollides<H>(pair: (H, H) -> H, a: seq<H>, b: seq<H>, i: nat)
    requires a != [] && b != [] && Height(|a|) == Height(|b|)
    requires Root(pair, a) == Root(pair, b) && At(a, i) != At(b, i)
    ensures IsCollision(pair, PositionCollision(pair, a, b, i))
    decreases |a|
  {
    hide At;
    if |a| == 1 {
      AtSingle(a);
      AtSingle(b);
    } else {
      AtAbove(pair, a, i / 2);
      AtAbove(pair, b, i / 2);
      if At(Above(pair, a), i / 2) != At(Above(pair, b), i / 2) {
        UnlikeCollides(pair, Above(pair, a), Above(pair, b), i / 2);
      } else {
        assert i == 2 * (i / 2) || i == 2 * (i / 2) + 1;
      }
    }
  }

  /** The level of b that is as high as a. */
  function Levelled<H>(pair: (H, H) -> H, a: seq<H>, b: seq<H>): (r: seq<H>)
    requires a != [] && b != [] && Height(|a|) <= Height(|b|)
    ensures r != [] && Height(|r|) == Height(|a|)
  {
    LevelAt(pair, b, Height(|b|) - Height(|a|))
  }

  lemma LevelledRoot<H>(pair: (H, H) -> H, a: seq<H>, b: seq<H>)
    requires a != [] && b != [] && Height(|a|) <= Height(|b|)
    ensures Root(pair, Levelled(pair, a, b)) == Root(pair, b)
  {
    LevelRoot(pair, b, Height(|b|) - Height(|a|));
  }

  /**
   Exactly when two leaf lists, of any lengths, have the same root: the shorter tree's filled-up
   leaves are the filled-up level of the other tree at the same height. Otherwise equal roots
   exhibit a collision, found from any position where they differ.
   */
  lemma SharedRootIff<H(!new)>(pair: (H, H) -> H, a: seq<H>, b: seq<H>)
    requires a != [] && b != [] && Height(|a|) <= Height(|b|)
    ensures Alike(a, Levelled(pair, a, b)) ==> Root(pair, a) == Root(pair, b)
    ensures Root(pair, a) == Root(pair, b) ==>
              forall i: nat :: At(a, i) != At(Levelled(pair, a, b), i) ==>
                IsCollision(pair, PositionCollision(pair, a, Levelled(pair, a, b), i))
  {
    hide At, Alike, IsCollision, PositionCollision, Levelled, Root;
    var c := Levelled(pair, a, b);
    LevelledRoot(pair, a, b);
    if Alike(a, c) {
      AlikeSameRoot(pair, a, c);
    }
    if Root(pair, a) == Root(pair, b) {
      forall i: nat | At(a, i) != At(c, i)
        ensures IsCollision(pair, PositionCollision(pair, a, c, i))
      {
        UnlikeCollides(pair, a, c, i);
      }
    }
  }

  /** For a hash without collisions, lists have the same root exactly when they are alike at the lower height. */
  lemma SharedRootExactly<H(!new)>(pair: (H, H) -> H, a: seq<H>, b: seq<H>)
    requires a != [] && b != [] && Height(|a|) <= Height(|b|)
    requires forall c :: !IsCollision(pair, c)
    ensures Root(pair, a) == Root(pair, b) <==> Alike(a, Levelled(pair, a, b))
  {
    hide At, IsCollision, PositionCollision, Levelled;
    SharedRootIff(pair, a, b);
  }

  lemma SinglesDiffer<H>(a: seq<H>, b: seq<H>)
    requires |a| == |b| == 1 && a != b
    ensures a[0] != b[0]
  {
    assert a == [a[0]] && b == [b[0]];
  }

  /** Across lengths it does not bind: repeating the last leaf of an odd list keeps the root. */
  lemma OddRepeatKeepsRoot<H>(pair: (H, H) -> H, leaves: seq<H>)
    requires |leaves| % 2 == 1 && |leaves| > 1
    ensures Root(pair, leaves + [leaves[|leaves| - 1]]) == Root(pair, leaves)
  {
    SameAbove(pair, leaves, leaves + [leaves[|leaves| - 1]], |leaves| / 2);
  }

  lemma SameAbove<H>(pair: (H, H) -> H, a: seq<H>, b: seq<H>, m: nat)
    requires |a| == 2 * m + 1 && |b| == 2 * m + 2
    requires (forall i :: 0 <= i < |a| ==> b[i] == a[i]) && b[2 * m + 1] == a[2 * m]
    ensures Above(pair, a) == Above(pair, b)
  {
    hide Above;
    forall q | 0 <= q < m + 1
      ensures Above(pair, a)[q] == Above(pair, b)[q]
    {
      AboveAt(pair, a, q);
      AboveAt(pair, b, q);
    }
  }
}
