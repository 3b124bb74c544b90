/**
 * The PoseidonMerkleTree object: its lifecycle (constructed, initialised,
 * holding leaves), insertion with a full bottom-up rebuild, the current root,
 * and proof-path extraction, each proved against the definitions of MerkleSpec.
 */
module MerkleTree {
  import opened MerkleSpec

  /** A membership proof: one sibling value and one left/right bit per level,
      leaf to root, and the root the proof is claimed against. */
  datatype Proof = Proof(pathElements: seq<Felt>, pathIndices: seq<nat>, root: Option<Felt>)

  class PoseidonMerkleTree {
    const levels: nat
    /** The permutation the hash library builds; fixed for the tree's lifetime. */
    const poseidon: Poseidon
    /** Whether initialisation has run (the hash library and field are loaded). */
    var initialized: bool
    var leaves: seq<Felt>
    var zeros: seq<Felt>
    /** None until the first insertion (the source's null). */
    var rootHash: Option<Felt>

    ghost predicate Valid()
      reads this
    {
      (initialized ==> zeros == ZeroTable(poseidon, levels)) &&
      (!initialized ==> zeros == [] && leaves == []) &&
      rootHash == (if leaves == [] then None else BuiltRoot(poseidon, leaves, levels))
    }

    constructor (poseidon: Poseidon, levels: nat := 20)
      ensures Valid() && !initialized
      ensures this.levels == levels && this.poseidon == poseidon
      ensures leaves == [] && zeros == [] && rootHash == None
    {
      this.levels := levels;
      this.poseidon := poseidon;
      initialized := false;
      leaves := [];
      zeros := [];
      rootHash := None;
    }

    /** Loads the hash (a flag here) and derives one zero constant per level. */
    method Initialize()
      requires Valid()
      modifies this`initialized, this`zeros
      ensures Valid() && initialized
      ensures zeros == ZeroTable(poseidon, levels)
      ensures |zeros| == levels || (levels == 0 && |zeros| == 1)
    {
      zeros := [FieldZero];
      var i := 1;
      while i < levels
        invariant 1 <= i <= if levels == 0 then 1 else levels
        invariant zeros == ZeroList(poseidon, i)
      {
        zeros := zeros + [H(poseidon, zeros[i - 1], zeros[i - 1])];
        i := i + 1;
      }
      assert i == if levels == 0 then 1 else levels;
      initialized := true;
    }

    /** The variable-arity hash the library exposes to callers; like every use
        of the permutation, it needs the library loaded by initialisation. On
        two values it is the hash the tree gives a pair of children. */
    function Hash(values: seq<Felt>): (h: Felt)
      reads this
      requires initialized
      ensures |values| == 2 ==> h == H(poseidon, values[0], values[1])
    {
      assert |values| == 2 ==> values == [values[0], values[1]];
      poseidon(values)
    }

    /** Appends a leaf and rebuilds the whole tree. */
    method Insert(leaf: Felt)
      requires Valid() && initialized
      modifies this`leaves, this`rootHash
      ensures Valid()
      ensures leaves == old(leaves) + [leaf] && |leaves| == |old(leaves)| + 1
      ensures zeros == old(zeros)
      ensures rootHash == BuiltRoot(poseidon, leaves, levels) && rootHash.Some?
    {
      leaves := leaves + [leaf];
      BuildTree();
    }

    /** Rebuilds the tree bottom-up from the leaves and stores the root. */
    method BuildTree()
      requires initialized && zeros == ZeroTable(poseidon, levels)
      modifies this`rootHash
      ensures rootHash == BuiltRoot(poseidon, leaves, levels)
    {
      var currentLevel := leaves;
      var level := 0;
      while level < levels
        invariant level <= levels
        invariant currentLevel == LevelAt(poseidon, leaves, level)
      {
        var z := zeros[level];
        var nextLevel := [];
        var i := 0;
        while i < |currentLevel|
          invariant i == 2 * |nextLevel| && i <= |currentLevel| + 1
          invariant forall j :: 0 <= j < |nextLevel| ==> nextLevel[j] == PairHash(poseidon, currentLevel, z, j)
        {
          var left := currentLevel[i];
          var right := if i + 1 < |currentLevel| then currentLevel[i + 1] else z;
          nextLevel := nextLevel + [H(poseidon, left, right)];
          i := i + 2;
        }
        forall j | 0 <= j < |nextLevel|
          ensures nextLevel[j] == NextLevel(poseidon, currentLevel, z)[j]
        {
          NextLevelAt(poseidon, currentLevel, z, j);
        }
        currentLevel := nextLevel;
        level := level + 1;
      }
      rootHash := if |currentLevel| > 0 then Some(currentLevel[0])
                  else if levels > 0 then Some(zeros[levels - 1])
                  else None;
    }

    /** The most recently computed root. */
    function GetRoot(): (root: Option<Felt>)
      reads this
      requires Valid()
      ensures leaves == [] ==> root == None
      ensures leaves != [] ==> root == BuiltRoot(poseidon, leaves, levels) && root.Some?
    {
      rootHash
    }

    /** The proof path of leaf `index`, each sibling read from the node list of
        its own level. Reads the tree and changes nothing. */
    method GetProof(index: nat) returns (proof: Proof)
      requires Valid() && initialized
      ensures proof == Proof(CorrectElements(poseidon, leaves, index, levels), PathIndices(index, levels), rootHash)
    {
      var pathElements := [];
      var pathIndices := [];
      var currentIndex := index;
      var currentLevel := leaves;
      var level := 0;
      while level < levels
        invariant level <= levels
        invariant currentIndex == IndexAt(index, level)
        invariant currentLevel == LevelAt(poseidon, leaves, level)
        invariant pathElements == CorrectElements(poseidon, leaves, index, level)
        invariant pathIndices == PathIndices(index, level)
      {
        var z := zeros[level];
        assert z == ZeroAt(poseidon, level);
        var isRight := currentIndex % 2;
        var siblingIndex := if isRight == 1 then currentIndex - 1 else currentIndex + 1;
        var sibling := if siblingIndex < |currentLevel| then currentLevel[siblingIndex] else z;
        var bit := if isRight == 1 then 1 else 0;
        assert pathElements + [sibling] == CorrectElements(poseidon, leaves, index, level + 1) by {
          ElementsStep(poseidon, leaves, index, level);
        }
        assert pathIndices + [bit] == PathIndices(index, level + 1) by {
          IndicesStep(index, level);
        }
        pathIndices := pathIndices + [bit];
        pathElements := pathElements + [sibling];
        currentLevel := NextLevel(poseidon, currentLevel, z);
        currentIndex := currentIndex / 2;
        level := level + 1;
      }
      proof := Proof(pathElements, pathIndices, rootHash);
    }

    /** The proof path as the source computes it: the sibling is looked up in the
        leaf list at every level. Correct only for a tree of one leaf. */
    method GetProofAsWritten(index: nat) returns (proof: Proof)
      requires Valid() && initialized
      ensures proof == Proof(AsWrittenElements(poseidon, leaves, index, levels), PathIndices(index, levels), rootHash)
    {
      var pathElements := [];
      var pathIndices := [];
      var currentIndex := index;
      var level := 0;
      while level < levels
        invariant level <= levels
        invariant currentIndex == IndexAt(index, level)
        invariant pathElements == AsWrittenElements(poseidon, leaves, index, level)
        invariant pathIndices == PathIndices(index, level)
      {
        var isRight := currentIndex % 2;
        var siblingIndex := if isRight == 1 then currentIndex - 1 else currentIndex + 1;
        pathIndices := pathIndices + [if isRight == 1 then 1 else 0];
        pathElements := pathElements + [if siblingIndex < |leaves| then leaves[siblingIndex] else zeros[level]];
        currentIndex := currentIndex / 2;
        level := level + 1;
      }
      proof := Proof(pathElements, pathIndices, rootHash);
    }
  }

  /** Two proofs of the same leaf with no insertion in between are identical,
      and both are claimed against the tree's current root. */
  method ProofIsRepeatable(tree: PoseidonMerkleTree, index: nat) returns (first: Proof, second: Proof)
    requires tree.Valid() && tree.initialized
    ensures first == second
    ensures first.root == tree.GetRoot()
  {
    first := tree.GetProof(index);
    second := tree.GetProof(index);
  }

  /** The proof handed to a circuit for a leaf below both the leaf count and
      2^levels recomputes the root the tree reports. */
  method ProofMatchesRoot(tree: PoseidonMerkleTree, index: nat) returns (proof: Proof)
    requires tree.Valid() && tree.initialized
    requires index < |tree.leaves| && index < Pow2(tree.levels)
    ensures |proof.pathElements| == |proof.pathIndices| == tree.levels
    ensures proof.root == Some(Fold(tree.poseidon, tree.leaves[index], proof.pathElements, proof.pathIndices))
  {
    proof := tree.GetProof(index);
    ProofShape(tree.poseidon, tree.leaves, index, tree.levels);
    ProofReconstructsRoot(tree.poseidon, tree.leaves, index, tree.levels);
  }
}
