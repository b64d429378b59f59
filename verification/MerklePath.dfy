/** The Merkle tree generator of source/cclib/src/payspec.cpp and the path
    folding of source/cclib/src/zkhash.hpp. */
module MerklePath {
  import opened Arith
  import opened NodeHash

  const TX_MERKLE_BITS: nat := 254

  /** tx_commit_tree_hash_node: the keyless hash of two child values. */
  function Node(hp: HashParams, left: nat, right: nat, skipFinal: bool): nat
    requires IsField(hp)
  {
    HashOf(hp, NoKey, [HashInput(left, TX_MERKLE_BITS), HashInput(right, TX_MERKLE_BITS)], TX_MERKLE_BITS, skipFinal)
  }

  lemma NodeIsSymmetric(hp: HashParams, x: nat, y: nat, skipFinal: bool)
    requires IsField(hp)
    ensures Node(hp, x, y, skipFinal) == Node(hp, y, x, skipFinal)
  {
    var a := [HashInput(x, TX_MERKLE_BITS), HashInput(y, TX_MERKLE_BITS)];
    var b := [HashInput(y, TX_MERKLE_BITS), HashInput(x, TX_MERKLE_BITS)];
    assert multiset(a) == multiset(b);
    KeylessHashIgnoresOrder(hp, a, b, TX_MERKLE_BITS, skipFinal);
  }

  // ---- Folding a path ----

  /** The value at the top of the path, from the value at level l. */
  function FoldFrom(hp: HashParams, h: nat, path: seq<nat>, l: nat): nat
    requires IsField(hp) && l <= |path|
    decreases |path| - l
  {
    if l == |path| then h else FoldFrom(hp, Node(hp, h, path[l], l < |path| - 1), path, l + 1)
  }

  method Merkle(hp: HashParams, leaf: nat, path: seq<nat>) returns (r: nat)
    requires IsField(hp) && |path| >= 1
    ensures r == FoldFrom(hp, leaf, path, 0)
  {
    r := leaf;
    for i := 0 to |path|
      invariant FoldFrom(hp, leaf, path, 0) == FoldFrom(hp, r, path, i)
    {
      r := Hash(hp, NoKey, [HashInput(r, TX_MERKLE_BITS), HashInput(path[i], TX_MERKLE_BITS)],
                TX_MERKLE_BITS, i < |path| - 1);
    }
  }

  // ---- The tree over the leaves ----

  /** The ancestor of leaf i at level j. */
  function Up(i: nat, j: nat): nat { if j == 0 then i else Up(i, j - 1) / 2 }

  /** i ^ 1. */
  function Sibling(i: nat): nat { if i % 2 == 0 then i + 1 else i - 1 }

  /** The number of nodes at level j above 2^k leaves. */
  function Width(k: nat, j: nat): nat { if j >= k then 1 else Pow2(k - j) }

  /** Node i at level j of the tree that the generator is meant to build: two
      children below each node as long as there are two, and a random right
      sibling beside the only child from level k on. */
  function TreeNode(hp: HashParams, leaves: seq<nat>, k: nat, depth: nat, random: nat -> nat, i: nat, j: nat): nat
    requires IsField(hp) && |leaves| == Pow2(k) && j <= depth && i < Width(k, j)
    decreases j
  {
    if j == 0 then leaves[i]
    else if j <= k then
      WidthStep(k, j - 1);
      Node(hp, TreeNode(hp, leaves, k, depth, random, 2 * i, j - 1),
           TreeNode(hp, leaves, k, depth, random, 2 * i + 1, j - 1), j - 1 < depth - 1)
    else
      Node(hp, TreeNode(hp, leaves, k, depth, random, 0, j - 1), random(j - 1), j - 1 < depth - 1)
  }

  lemma WidthStep(k: nat, j: nat)
    ensures if j < k then Width(k, j) == 2 * Width(k, j + 1) else Width(k, j) == Width(k, j + 1) == 1
  {
  }

  /** The value beside leaf i's ancestor at level l. */
  function PathValue(hp: HashParams, leaves: seq<nat>, k: nat, depth: nat, random: nat -> nat, i: nat, l: nat): nat
    requires IsField(hp) && |leaves| == Pow2(k) && i < |leaves| && l < depth
  {
    UpInWidth(k, i, l);
    if l < k then TreeNode(hp, leaves, k, depth, random, Sibling(Up(i, l)), l) else random(l)
  }

  /** Leaf i's sibling values, one for each level. */
  function TreePath(hp: HashParams, leaves: seq<nat>, k: nat, depth: nat, random: nat -> nat, i: nat): (path: seq<nat>)
    requires IsField(hp) && |leaves| == Pow2(k) && i < |leaves|
    ensures |path| == depth
    ensures forall l :: 0 <= l < depth ==> path[l] == PathValue(hp, leaves, k, depth, random, i, l)
  {
    seq(depth, l requires 0 <= l < depth => PathValue(hp, leaves, k, depth, random, i, l))
  }

  lemma {:induction false} UpInWidth(k: nat, i: nat, l: nat)
    requires i < Pow2(k)
    ensures Up(i, l) < Width(k, l)
    ensures l < k ==> Sibling(Up(i, l)) < Width(k, l)
  {
    if l > 0 {
      UpInWidth(k, i, l - 1);
      WidthStep(k, l - 1);
    }
    WidthStep(k, l);
  }

  lemma {:induction false} UpIsShift(i: nat, j: nat)
    ensures Up(i, j) == i / Pow2(j)
  {
    if j > 0 {
      UpIsShift(i, j - 1);
      DivideThenHalve(i, j - 1);
    } else {
      assert i / 1 == i;
    }
  }

  /** Folding a leaf with its path from any level on ends at the root: at each
      level the hash of a node and its sibling is the hash of their parent,
      whichever of the two the node is. */
  lemma {:induction false} FoldReachesRoot(hp: HashParams, leaves: seq<nat>, k: nat, depth: nat, random: nat -> nat,
                                           i: nat, l: nat)
    requires IsField(hp) && |leaves| == Pow2(k) && i < |leaves| && l <= depth && k <= depth
    ensures Up(i, l) < Width(k, l)
    ensures FoldFrom(hp, TreeNode(hp, leaves, k, depth, random, Up(i, l), l),
                     TreePath(hp, leaves, k, depth, random, i), l)
         == TreeNode(hp, leaves, k, depth, random, 0, depth)
    decreases depth - l
  {
    hide Node, TreeNode, TreePath, PathValue;
    UpInWidth(k, i, l);
    if l < depth {
      UpInWidth(k, i, l + 1);
      ParentHash(hp, leaves, k, depth, random, i, l);
      FoldReachesRoot(hp, leaves, k, depth, random, i, l + 1);
    } else {
      assert Up(i, l) == 0;
    }
  }

  lemma ParentHash(hp: HashParams, leaves: seq<nat>, k: nat, depth: nat, random: nat -> nat, i: nat, l: nat)
    requires IsField(hp) && |leaves| == Pow2(k) && i < |leaves| && l < depth
    ensures Up(i, l) < Width(k, l) && Up(i, l + 1) < Width(k, l + 1)
    ensures Node(hp, TreeNode(hp, leaves, k, depth, random, Up(i, l), l),
                 TreePath(hp, leaves, k, depth, random, i)[l], l < depth - 1)
         == TreeNode(hp, leaves, k, depth, random, Up(i, l + 1), l + 1)
  {
    hide Node;
    UpInWidth(k, i, l);
    UpInWidth(k, i, l + 1);
    if l < k {
      var me, other := Up(i, l), Sibling(Up(i, l));
      NodeIsSymmetric(hp, TreeNode(hp, leaves, k, depth, random, me, l),
                      TreeNode(hp, leaves, k, depth, random, other, l), l < depth - 1);
    }
  }

  // ---- The generator ----

  /** What the generator has put into the arrays when it is about to do level j. */
  ghost predicate Built(hp: HashParams, tree: array2<nat>, path: array2<nat>, leaves: seq<nat>, k: nat, depth: nat,
                        random: nat -> nat, j: nat)
    requires IsField(hp) && |leaves| == Pow2(k) && j <= depth
    requires tree.Length0 == path.Length0 == |leaves| && tree.Length1 == depth + 1 && path.Length1 == depth
    reads tree, path
  {
    && (forall i :: 0 <= i < |leaves| ==> tree[i, 0] == leaves[i])
    && (forall i :: 0 <= i < Width(k, j) && i < |leaves| ==>
          tree[i, j] == TreeNode(hp, leaves, k, depth, random, i, j))
    && (forall i, l :: 0 <= i < |leaves| && 0 <= l < j ==>
          path[i, l] == TreePath(hp, leaves, k, depth, random, i)[l])
  }

  lemma NodeFits(k: nat, i: int, j: nat)
    requires 0 <= i < Width(k, j)
    ensures i < Pow2(k)
  {
    if j < k {
      Pow2Mono(k - j, k);
    }
  }

  /** One more level: from the level's nodes, its random node if there is only
      one other, the recorded siblings and the hashed pairs. */
  lemma BuiltStep(hp: HashParams, tree: array2<nat>, path: array2<nat>, leaves: seq<nat>, k: nat, depth: nat,
                  random: nat -> nat, j: nat)
    requires IsField(hp) && |leaves| == Pow2(k) && 1 <= k && j < depth
    requires tree.Length0 == path.Length0 == |leaves| && tree.Length1 == depth + 1 && path.Length1 == depth
    requires |leaves| >= 2 && forall i :: 0 <= i < |leaves| ==> Sibling(Up(i, j)) < |leaves|
    requires Built(hp, tree, path, leaves, k, depth, random, j)
    requires j >= k ==> tree[1, j] == random(j)
    requires forall i :: 0 <= i < |leaves| ==> path[i, j] == tree[Sibling(Up(i, j)), j]
    requires forall i :: 0 <= i < Width(k, j + 1) && 2 * i + 1 < |leaves| ==>
               tree[i, j + 1] == Node(hp, tree[2 * i, j], tree[2 * i + 1, j], j < depth - 1)
    ensures Built(hp, tree, path, leaves, k, depth, random, j + 1)
  {
    hide Node;
    WidthStep(k, j);
    WidthFits(k, j);
    forall i {:trigger tree[i, j + 1]} | 0 <= i < Width(k, j + 1) && i < |leaves|
      ensures tree[i, j + 1] == TreeNode(hp, leaves, k, depth, random, i, j + 1)
    {
      assert 2 * i + 1 < |leaves|;
    }
    forall i | 0 <= i < |leaves|
      ensures path[i, j] == TreePath(hp, leaves, k, depth, random, i)[j]
    {
      UpInWidth(k, i, j);
      if j >= k {
        assert Up(i, j) == 0;
      }
    }
  }

  /** params[i].path[j] = params[(i / (1 << j)) ^ 1].tree[j], for every i. */
  method RecordSiblings(tree: array2<nat>, path: array2<nat>, j: nat)
    requires j < tree.Length1 && j < path.Length1 && tree.Length0 == path.Length0 && tree != path
    requires forall i :: 0 <= i < path.Length0 ==> Sibling(Up(i, j)) < path.Length0
    modifies path
    ensures forall i :: 0 <= i < path.Length0 ==> path[i, j] == tree[Sibling(Up(i, j)), j]
    ensures forall i, l :: 0 <= i < path.Length0 && 0 <= l < path.Length1 && l != j ==> path[i, l] == old(path[i, l])
  {
    for i := 0 to path.Length0
      invariant forall i' :: 0 <= i' < i ==> path[i', j] == tree[Sibling(Up(i', j)), j]
      invariant forall i', l :: 0 <= i' < path.Length0 && 0 <= l < path.Length1 && l != j ==>
                  path[i', l] == old(path[i', l])
    {
      UpIsShift(i, j);
      path[i, j] := tree[Sibling(i / Pow2(j)), j];
    }
  }

  /** Hashes the pairs of level j into level j + 1. */
  method HashPairs(hp: HashParams, tree: array2<nat>, j: nat, pairs: nat, skipFinal: bool)
    requires IsField(hp) && j + 1 < tree.Length1 && 2 * pairs <= tree.Length0
    modifies tree
    ensures forall i :: 0 <= i < pairs ==> tree[i, j + 1] == Node(hp, tree[2 * i, j], tree[2 * i + 1, j], skipFinal)
    ensures forall i, l :: 0 <= i < tree.Length0 && 0 <= l < tree.Length1 && l != j + 1 ==>
      tree[i, l] == old(tree[i, l])
  {
    hide HashOf;
    for i := 0 to pairs
      invariant forall i' :: 0 <= i' < i ==>
                  tree[i', j + 1] == Node(hp, tree[2 * i', j], tree[2 * i' + 1, j], skipFinal)
      invariant forall i', l :: 0 <= i' < tree.Length0 && 0 <= l < tree.Length1 && l != j + 1 ==>
                  tree[i', l] == old(tree[i', l])
    {
      tree[i, j + 1] := Hash(hp, NoKey, [HashInput(tree[2 * i, j], TX_MERKLE_BITS),
                                         HashInput(tree[2 * i + 1, j], TX_MERKLE_BITS)], TX_MERKLE_BITS, skipFinal);
    }
  }

  /** Builds the tree over the leaves in column 0 and records every leaf's path;
      the last loop checks that every path folds to the root. */
  method GenerateTree(hp: HashParams, tree: array2<nat>, path: array2<nat>, ghost leaves: seq<nat>, ghost k: nat,
                      random: nat -> nat)
    requires IsField(hp) && tree.Length0 == path.Length0 == |leaves| == Pow2(k) && 1 <= k <= path.Length1
    requires tree.Length1 == path.Length1 + 1 && tree != path
    requires forall i :: 0 <= i < |leaves| ==> tree[i, 0] == leaves[i]
    modifies tree, path
    ensures forall i :: 0 <= i < |leaves| ==> tree[i, 0] == leaves[i]
    ensures forall i, l :: 0 <= i < |leaves| && 0 <= l < path.Length1 ==>
              path[i, l] == TreePath(hp, leaves, k, path.Length1, random, i)[l]
    ensures tree[0, path.Length1] == TreeNode(hp, leaves, k, path.Length1, random, 0, path.Length1)
  {
    hide Node, TreeNode, TreePath, PathValue, FoldFrom;
    var n, depth := tree.Length0, path.Length1;
    var width := n;
    LeavesBuilt(hp, tree, path, leaves, k, depth, random);
    for j := 0 to depth
      invariant width == Width(k, j)
      invariant Built(hp, tree, path, leaves, k, depth, random, j)
    {
      WidthStep(k, j);
      WidthFits(k, j);
      if width == 1 {
        tree[1, j] := random(j);
        width := 2;
        assert n >= width;
      }
      RecordSiblings(tree, path, j);
      HashPairs(hp, tree, j, width / 2, j < depth - 1);
      BuiltStep(hp, tree, path, leaves, k, depth, random, j);
      width := width / 2;
    }
    NodeFits(k, 0, depth);
    for i := 0 to n
      invariant Built(hp, tree, path, leaves, k, depth, random, depth)
    {
      FoldReachesRoot(hp, leaves, k, depth, random, i, 0);
      ghost var want := TreePath(hp, leaves, k, depth, random, i);
      var p := seq(depth, l requires 0 <= l < depth reads path => path[i, l]);
      assert p == want;
      LeafIs(hp, leaves, k, depth, random, i);
      var root := Merkle(hp, tree[i, 0], p);
      assert root == tree[0, depth];
    }
  }

  lemma LeafIs(hp: HashParams, leaves: seq<nat>, k: nat, depth: nat, random: nat -> nat, i: nat)
    requires IsField(hp) && |leaves| == Pow2(k) && i < |leaves|
    ensures i < Width(k, 0) && TreeNode(hp, leaves, k, depth, random, i, 0) == leaves[i] && Up(i, 0) == i
  {
    WidthStep(k, 0);
  }

  lemma LeavesBuilt(hp: HashParams, tree: array2<nat>, path: array2<nat>, leaves: seq<nat>, k: nat, depth: nat,
                    random: nat -> nat)
    requires IsField(hp) && |leaves| == Pow2(k)
    requires tree.Length0 == path.Length0 == |leaves| && tree.Length1 == depth + 1 && path.Length1 == depth
    requires forall i :: 0 <= i < |leaves| ==> tree[i, 0] == leaves[i]
    ensures Width(k, 0) == |leaves| && Built(hp, tree, path, leaves, k, depth, random, 0)
  {
    WidthStep(k, 0);
  }

  lemma WidthFits(k: nat, j: nat)
    requires k >= 1
    ensures Pow2(k) >= 2 && 2 * Width(k, j + 1) <= Pow2(k)
    ensures forall i: nat :: i < Pow2(k) ==> Sibling(Up(i, j)) < Pow2(k)
  {
    Pow2Mono(1, k);
    WidthStep(k, j);
    if j < k {
      Pow2Mono(k - j, k);
    }
    forall i: nat | i < Pow2(k)
      ensures Sibling(Up(i, j)) < Pow2(k)
    {
      UpInWidth(k, i, j);
    }
  }
}
