# Poseidon Merkle tree — a Dafny model

This project models `PoseidonMerkleTree`, the fixed-depth, append-only Merkle tree
in `scripts/merkle.js`. It is used to prove membership in a set inside a
zero-knowledge circuit. The tree:

- derives one zero constant per level: `zeros[0] = 0`, `zeros[i] = H(zeros[i-1], zeros[i-1])`;
- appends each inserted leaf and rebuilds the whole tree bottom-up. At every level it
  pairs nodes left to right. An odd last node is paired with the zero constant of
  that level;
- keeps the root of the last rebuild (`null` before the first insertion);
- extracts a proof path for a leaf index: one sibling value and one left/right bit
  per level, plus the current root.

Two modules:

- `merkle_spec.dfy`, module `MerkleSpec`. The pure definitions the object is proved
  against:
  - `ZeroAt` / `ZeroTable`: the zero constants;
  - `NextLevel`: one level of the build;
  - `LevelAt`: the node list of each level;
  - `BuiltRoot`: the root after a rebuild;
  - `IndexAt`, `PathIndices`, `SiblingIn`: reading a proof path;
  - `CorrectElements` and `AsWrittenElements`: the sibling values of a path, read
    per level or read from the leaf list;
  - `Fold`: what a circuit does with a path, starting from the leaf.

  It also holds the lemmas about these definitions.
- `merkle_tree.dfy`, module `MerkleTree`. The class `PoseidonMerkleTree`. Its fields
  are `leaves`, `zeros`, `rootHash` and an `initialized` flag. Its methods are
  `Initialize`, `Insert`, `BuildTree`, `GetRoot`, `GetProof` and `GetProofAsWritten`.
  Each loop carries invariants that tie it to the definitions above.

The Poseidon permutation is a parameter of type `seq<Felt> -> Felt`, given to the
constructor. It stands for the function the hash library builds. The tree hashes a
pair `(a, b)` as `poseidon([a, b])`, as the source does. `Hash(values)` is the same
permutation applied to any number of values. Field elements (`Felt`) are natural
numbers; the field's modular reduction is not modelled.

The model keeps these behaviours of the code as written:

- `GetRoot` returns `None` (the source's `null`) before the first insertion.
- Nothing checks the index range or the capacity.
- With depth 0, the zero table still has one entry. Writing index 0 of a
  `new Array(0)` grows the array to length 1.

The one exception is proof extraction; see Findings. `GetProof` is the corrected
lookup. `GetProofAsWritten` keeps the source's lookup beside it.

## Model

| member | source | states |
|---|---|---|
| `MerkleTree.PoseidonMerkleTree.constructor` | scripts/merkle.js:4-11 | A new tree has no leaves, an empty zero table, no root (null) and is not initialised; the depth defaults to 20 |
| `MerkleTree.PoseidonMerkleTree.Initialize` | scripts/merkle.js:13-24 | Marks the tree initialised and leaves `zeros` equal to the zero table: `levels` entries (one when the depth is 0); leaves and root untouched |
| `MerkleSpec.ZeroTable` | scripts/merkle.js:16-19 | The table has `levels` entries (one for depth 0) and its entry 0 is the field zero |
| `MerkleSpec.ZeroTableRecurrence` | scripts/merkle.js:20-23 | Every later entry is `H(zeros[i-1], zeros[i-1])` |
| `MerkleSpec.ZeroList` | scripts/merkle.js:16-23 | The first n constants, entry i being the empty-subtree root of level i |
| `MerkleTree.PoseidonMerkleTree.Hash` | scripts/merkle.js:26-29 | The permutation applied to the values, available only once the tree is initialised; on two values it is the hash the tree gives a pair of children. Coercion and decimal formatting are left out |
| `MerkleTree.PoseidonMerkleTree.Insert` | scripts/merkle.js:31-35 | The leaf count grows by exactly one and the new leaf is last. Earlier leaves and `zeros` are unchanged. The root is then the root rebuilt from the whole leaf list and is never null again |
| `MerkleTree.PoseidonMerkleTree.BuildTree` | scripts/merkle.js:37-49 | The nested loops leave `rootHash` equal to `BuiltRoot` of the current leaves: each outer pass yields the next level's node list, and each inner loop yields the paired hashes |
| `MerkleSpec.NextLevel` | scripts/merkle.js:40-46 | One level of the build maps n nodes to ⌈n/2⌉ nodes |
| `MerkleSpec.NextLevelAt` | scripts/merkle.js:41-45 | Node j of the built level is `H(cur[2j], cur[2j+1])`, or `H(cur[2j], zero of the level)` when `2j+1` is past the end |
| `MerkleSpec.LevelAt` | scripts/merkle.js:38-47 | A level's node list is empty exactly when the leaf list is, and it never has more nodes than there are leaves |
| `MerkleSpec.BuiltRoot` | scripts/merkle.js:48 | With at least one leaf there is always a root |
| `MerkleSpec.LevelLengthBound` | scripts/merkle.js:39-47 | With 1 to 2^levels leaves, the list at `level` has at least 1 and at most 2^(levels-level) nodes |
| `MerkleSpec.RootShape` | scripts/merkle.js:38-48 | With 1 to 2^levels leaves, exactly one node is left after `levels` iterations, and the root is that node |
| `MerkleSpec.EmptyTreeRoot` | scripts/merkle.js:48 | With no leaves, the fallback root is `zeros[levels-1]` |
| `MerkleSpec.SingleLeafLevels` | scripts/merkle.js:39-47 | With one leaf, every level holds exactly one node: the leaf hashed with the zero constants below |
| `MerkleSpec.SingleLeafRoot` | scripts/merkle.js:39-48 | The root of a one-leaf tree is `H(...H(H(L, zeros[0]), zeros[1])..., zeros[levels-1])` |
| `MerkleTree.PoseidonMerkleTree.GetRoot` | scripts/merkle.js:51-53 | The root is null before any insertion; after one, it is the root rebuilt from all leaves |
| `MerkleTree.PoseidonMerkleTree.GetProof` | scripts/merkle.js:55-78 | Returns the bits of the index, the sibling at each level read from that level's node list (or that level's zero), and the current root. It reads the tree and changes nothing |
| `MerkleTree.PoseidonMerkleTree.GetProofAsWritten` | scripts/merkle.js:55-78 | Returns the same bits and root, but reads the sibling at every level from the leaf list (or that level's zero), as the source does |
| `MerkleSpec.PathIndices` | scripts/merkle.js:61-64 | There is one bit per level, and bit k is the parity of the position after k halvings |
| `MerkleSpec.CorrectElements` | scripts/merkle.js:62-69 | There is one sibling per level, and entry k is the sibling of the ancestor position in the level-k node list, or the level-k zero when that position does not exist |
| `MerkleSpec.AsWrittenElements` | scripts/merkle.js:62-69 | There is one sibling per level, and entry k is the sibling position looked up in the leaf list, or the level-k zero when it is past the end |
| `MerkleSpec.IndexAtIsQuotient` | scripts/merkle.js:58-71 | After k halvings the current index is ⌊index / 2^k⌋ |
| `MerkleSpec.IndexAtVanishes` | scripts/merkle.js:71 | Any index below 2^levels has been halved to 0 after `levels` steps |
| `MerkleSpec.ProofShape` | scripts/merkle.js:58-72 | `pathIndices[k] == ⌊index / 2^k⌋ mod 2`: the bits are the binary digits of the index, lowest first |
| `MerkleSpec.PairStep` | scripts/merkle.js:41-45 | The parent of position `pos` is the hash of `cur[pos]` and its sibling, with `cur[pos]` on the left exactly when `pos` is even |
| `MerkleSpec.FoldReachesAncestor` | scripts/merkle.js:60-72 | After the first k steps, folding the intended path from the leaf gives that leaf's ancestor in the level-k node list |
| `MerkleSpec.ProofReconstructsRoot` | scripts/merkle.js:43-48 | For every index below both the leaf count and 2^levels, folding the intended path from the leaf gives exactly the root the tree stores |
| `MerkleSpec.AsWrittenAgreesOnSingleLeaf` | scripts/merkle.js:66-68 | With exactly one leaf, the source's lookup and the intended lookup give the same path for leaf 0 |
| `MerkleSpec.SingleLeafAsWrittenProof` | scripts/merkle.js:60-72 | For one leaf, the source's `getProof(0)` gives `pathElements == zeros[0..levels-1]` and all bits 0, and its fold reproduces the root |
| `MerkleSpec.AsWrittenProofFails` | scripts/merkle.js:66-68 | A depth-2 tree with two leaves, with a concrete stand-in hash. The source's path for leaf 0 folds to a value other than the root. The intended path's sibling at level 1 is the zero constant instead |
| `MerkleTree.ProofIsRepeatable` | scripts/merkle.js:55-78 | Two proof requests with no insertion in between return identical proofs, claimed against the current root |
| `MerkleTree.ProofMatchesRoot` | scripts/merkle.js:74-78 | The proof handed to a circuit has `levels` entries in each list. For a leaf below both the leaf count and 2^levels, its fold equals the root it carries |

## Findings

| source | as written | input that shows it | evidently intended | confidence | as-written member | corrected member |
|---|---|---|---|---|---|---|
| scripts/merkle.js:66-68 | At every level, the sibling is looked up in the leaf list, bounded by the leaf count | Depth 2, leaves `[A, B]`, `getProof(0)`: the level-1 sibling is `B` where `zeros[1]` belongs, so folding gives `H(H(A,B), B)` and not the root `H(H(A,B), zeros[1])` | The level-k sibling is read from the level-k node list built during the rebuild; the level-k zero is used when that position is missing | high (not executed) | `MerkleSpec.AsWrittenProofFails` | `MerkleSpec.ProofReconstructsRoot` |

## Left out

- The Poseidon permutation and `buildPoseidon` (scripts/merkle.js:1, 14). The
  permutation is an arbitrary deterministic function given to the constructor.
  `Initialize` only sets a flag and derives the zero table. Nothing about the
  waiting in `await` is modelled.
- Field coercion and formatting: `F.e`, `F.toObject` and `F.toString(…, 10)`
  (scripts/merkle.js:19, 22, 27-28, 32, 67-68, 77). Leaves, proofs and roots are
  field elements rather than decimal strings. `Hash` applies the permutation to its
  values without the coercion step.
- The field's modular reduction. `Felt` is an unbounded natural number.
- The difference between raw Poseidon outputs and reduced zero constants. Both are
  plain field elements here.
- Calling `hash`, `insert` or `getProof` before `initialize`. The source then fails
  with a TypeError on the missing field object or permutation; here these are
  preconditions (`initialized`).
- PoseidonMerkleTree.constructor / Initialize: a depth that is negative or not an
  integer. `new Array(levels)` (scripts/merkle.js:16) then throws a RangeError; here
  `levels` is a `nat`, so the model has no such depth.
- GetProof (and GetProofAsWritten) on an initialised tree with no leaves: the source
  passes the null root to `F.toString(…, 10)` (scripts/merkle.js:77), which does not
  hand back `null`; the model returns the proof with `root: None` instead of that
  failure.
- The truthiness test in `currentLevel[0] || zeros[levels-1]`. It is modelled as
  "the list is non-empty". Leaves and hash outputs are byte arrays, and those are
  always truthy.
- A leaf index that is negative or not an integer. `getProof` takes a JavaScript
  number; here the index is a `nat`.
- A capacity check and an index range check. The source has neither, and so the
  model has none. `ProofReconstructsRoot` and `ProofMatchesRoot` require the index
  to be below the leaf count and below 2^levels. With more than 2^levels leaves, the
  root covers only the first 2^levels of them.
- scripts/index.js. It is the caller that logs, builds a commitment from fixed test
  secrets, and hands the path to an external prover and verifier. These are I/O and
  foreign calls with no state of the tree's own.
