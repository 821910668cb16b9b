# Merkle tree builder — a Dafny model

This project models the Merkle tree construction in `MerkleTrees.py`: the
`Node` record with its `hash` and `copy` helpers, and the `MerkleTree` class's
`__buildTree`, `__buildTreeRec` and `getRootHash`.

Each input string becomes a leaf whose value is the hash of the string. A
list of odd length is padded with a copy of its last node (a node marked
`is_copied`). The padded list is cut into two equal halves. Each half is built
recursively, and the parent's value is the hash of the two child values
concatenated. The parent's content is the two child contents joined by `"+"`.
Padding is applied again to every odd sub-list, not level by level. So the
leaf count is the least power of two at or above the larger of the input
length and 2: one input gives two leaves, and five inputs give eight.

Modelling choices:

- The hash (SHA-256 hex digest in the source) is a parameter `h: string -> string`.
  Every result holds for any hash function.
- `Node` is an immutable datatype, `Leaf | Inner`. Both variants carry
  `value`, `content` and `isCopied`, because `copy` applies to any node.
- `__buildTreeRec` is the pure function `MerkleTree.BuildRec` on `seq<Node>`.
  Its in-place `append` becomes sequence concatenation (`MerkleTree.Pad`).
  The mutation is not observable: the recursive calls get slices, and the
  top-level list is already even when it is passed in.
- Empty input never finishes in the source. A length of 0 is even and not 2,
  so `__buildTreeRec([])` calls itself on `[]` again until Python raises
  `RecursionError`. `MerkleTree.BuildTree` returns `Err(UnboundedRecursion)`
  for it. `MerkleTree.BuildRec` requires a non-empty list.
  `MerkleTree.EmptyMakesNoProgress` shows the call on `[]` repeats itself.
- Modules follow the source's structure. `MerkleNode` covers the node.
  `MerkleTree` covers construction. `MerkleShape`, `MerkleOrder` and
  `MerkleIntegrity` hold the properties of built trees. `MerkleLevels`
  gives an independent reference for the root hash: the usual Merkle root
  that hashes adjacent pairs level by level, starting from the leaf hashes.
  `MerkleExamples` holds worked examples.

## Model

| member | source | states |
|---|---|---|
| MerkleNode.MakeLeaf | MerkleTrees.py:36 | an input string becomes an unpadded leaf whose value is the hash of that string and whose content is the string |
| MerkleNode.Copy | MerkleTrees.py:23-27 | a copy is marked as padding and keeps the value, the content, the kind of node and the children of the original |
| MerkleNode.CopyLosesOnlyTheFlag | MerkleTrees.py:23-27 | restoring the padding flag of a copy gives back the original node, and copying a copy changes nothing more |
| MerkleTree.Pad | MerkleTrees.py:44-46 | the padded list has even length and starts with the input list; exactly one node is added, and only when the length is odd; that node is a copy of the last node |
| MerkleTree.PadIdempotent | MerkleTrees.py:38-46 | padding an already padded list leaves it unchanged |
| MerkleTree.PadKeepsLeaves | MerkleTrees.py:44-46 | padding a list of leaves gives a list of leaves |
| MerkleTree.HalvesShrink | MerkleTrees.py:44-53 | the base case is reached exactly for inputs of length 1 or 2; for longer inputs each half of the padded list has at least 2 nodes and fewer nodes than the input, so the recursion terminates |
| MerkleTree.EmptyMakesNoProgress | MerkleTrees.py:43-53 | for the empty list the base case is not taken and both recursive calls get the empty list again, so the recursion never ends |
| MerkleTree.SplitFacts | MerkleTrees.py:44-53 | for inputs longer than 2, the two halves of the padded list are equally long (half the padded length, rounded up from the input), each shorter than the input, and both are lists of leaves when the input is |
| MerkleTree.BuildRec | MerkleTrees.py:49-56 | every input of one or more nodes yields an inner node that is not a padding copy |
| MerkleTree.Leaves | MerkleTrees.py:36-37 | one unpadded leaf per input string, in order, each with content equal to its string and value equal to its hash |
| MerkleTree.BuildTree | MerkleTrees.py:31-41 | construction fails exactly when the input is empty; otherwise the root is an inner node |
| MerkleTree.TopLevelPadRedundant | MerkleTrees.py:38-46 | building from the padded list gives the same tree as building from the unpadded list |
| MerkleTree.BuildTreeIsRecursionOnLeaves | MerkleTrees.py:34-41 | the tree of a non-empty input is the recursion applied to its bare leaves, without the top-level padding |
| MerkleShape.BuildRecShape | MerkleTrees.py:43-56 | built from leaves, the tree is perfect: both subtrees of every inner node have the same height; the root's height is `Depth` of the input length |
| MerkleShape.PerfectLeafCount | MerkleTrees.py:43-56 | a perfect tree of height k has exactly 2^k leaves |
| MerkleShape.DepthBounds | MerkleTrees.py:43-53 | 2^Depth(n) is at least n and at least 2, and it is 2 or its half is below n, so it is the least power of two at or above max(n, 2) |
| MerkleShape.BuildTreeShape | MerkleTrees.py:34-56 | the tree of a non-empty input is perfect, and its leaf count is 2^height; that count is at least 2 and at least the input length, and it is the least such power of two |
| MerkleOrder.PadExtends | MerkleTrees.py:44-46 | padding keeps the non-padding nodes, the first node and the payload of the last node, and puts the copy right after its twin |
| MerkleOrder.ExtendsTransitive | MerkleTrees.py:44-53 | inserting padding copies at two levels of the recursion is again an insertion of padding copies |
| MerkleOrder.StripAppend | MerkleTrees.py:52-56 | dropping padding from two joined lists is dropping it from each and joining |
| MerkleOrder.ConcatFollowsTwin | MerkleTrees.py:52-56 | joining two halves keeps every padding node right after a node with the same value and content, including at the seam |
| MerkleOrder.ComposeHalves | MerkleTrees.py:52-56 | if the leaves of each half are that half with padding inserted, the leaves of both are both halves with padding inserted |
| MerkleOrder.HalvesExtend | MerkleTrees.py:44-56 | if the leaves of each half of the padded input are that half with padding inserted, together they are the input with padding inserted |
| MerkleOrder.FringeBase | MerkleTrees.py:44-50 | the leaves of a tree built from one or two leaves are the padded list |
| MerkleOrder.BuildRecFringe | MerkleTrees.py:43-56 | the leaves of a tree built from leaves, read left to right, are the input with padding copies inserted: dropping padding from both gives the same nodes, the first leaf is the first input node, the last leaf has the payload of the last input node, and every padding leaf follows a leaf with the same value and content |
| MerkleOrder.BuildTreeOrder | MerkleTrees.py:36-56 | dropping the padding leaves of the built tree gives exactly the input strings in order; the first leaf is never padding, and every padding leaf immediately follows a leaf with the same value and content |
| MerkleIntegrity.CopyWellFormed | MerkleTrees.py:23-27 | a padding copy keeps the hash rules of the node it copies |
| MerkleIntegrity.PadWellFormed | MerkleTrees.py:44-46 | padding a list of nodes that obey the hash rules keeps every node obeying them |
| MerkleIntegrity.CombineWellFormed | MerkleTrees.py:50-56 | the parent built from two nodes that obey the hash rules obeys them: its value is the hash of the two child values concatenated, its content is the two contents joined by "+", its children are the two nodes, and it is not a padding copy |
| MerkleIntegrity.BuildRecWellFormed | MerkleTrees.py:43-56 | built from nodes that obey the hash rules, every leaf's value is the hash of its content, and every inner node's value is the hash of its children's values; its content is theirs joined by "+" |
| MerkleIntegrity.JoinAppend | MerkleTrees.py:50-55 | joining two lists with "+" equals joining each list and putting "+" between the two results |
| MerkleIntegrity.ContentIsJoinedFringe | MerkleTrees.py:50-55 | the content of a well-formed tree is the contents of its leaves, left to right, joined by "+" |
| MerkleIntegrity.BuildTreeIntegrity | MerkleTrees.py:36-56 | the built tree obeys the hash rules at every node; the root hash is the hash of the two child hashes, and the root content is all leaf contents, padding included, joined by "+" |
| MerkleLevels.LevelRootHalves | MerkleTrees.py:52-56 | for two lists of 2^k hashes, the level-by-level Merkle root of both together is the hash of the two lists' level roots concatenated |
| MerkleLevels.LeavesHashContents | MerkleTrees.py:36-37 | in a tree that obeys the hash rules, every leaf's value is the hash of its content |
| MerkleLevels.PerfectRootIsLevelRoot | MerkleTrees.py:43-56 | a perfect tree that obeys the hash rules has 2^height leaves, and its hash is the level-by-level Merkle root of its leaf hashes |
| MerkleLevels.RootHashIsLevelRoot | MerkleTrees.py:77-78 | the root hash (`MerkleTree.RootHash`, the root's value) of a built tree is the level-by-level Merkle root of its 2^height leaf hashes, padding leaves included, and each leaf hash is the hash of that leaf's input string |
| MerkleExamples.SingleInput | MerkleTrees.py:36-50 | one input e gives root hash h(h(e)+h(e)) and content "e+e" |
| MerkleExamples.TwoInputs | MerkleTrees.py:36-50 | two inputs a, b give root hash h(h(a)+h(b)) and content "a+b" |
| MerkleExamples.ThreeInputs | MerkleTrees.py:36-56 | three inputs a, b, c give root hash h(h(h(a)+h(b)) + h(h(c)+h(c))) and content "a+b+c+c" |
| MerkleExamples.ThreeNodes | MerkleTrees.py:44-56 | three nodes x, y, z give the parent of (x, y) and (z, copy of z) |
| MerkleExamples.FiveNodes | MerkleTrees.py:44-56 | five nodes are padded to six and split into the triples (v, w, x) and (y, z, copy of z) |
| MerkleExamples.FiveInputs | MerkleTrees.py:36-56 | five inputs give eight leaves with content "a+b+c+c+d+e+e+e": the last input appears three times |

## Left out

- SHA-256 and the hexadecimal encoding of `Node.hash`: the hash is an arbitrary function parameter.
- `printTree` and `__printTreeRec`: they only print to standard output.
- `visualizeTree`: it draws the tree with external plotting libraries.
- `mixmerkletree` and the `__main__` entry point: they read interactive input and print.
- `Node.__str__`: it only formats a value for printing.
- The interpreter's recursion limit. The model does not run the empty-input recursion; it returns `Err(UnboundedRecursion)` where Python would raise `RecursionError`.
- The voting system's contracts, their deployment script and their tests: the contracts' source is not part of this model, so there is nothing to model them from.
- MerkleTree.BuildRec: its own contract states only that the result is an inner node that is not a padding copy; the hash rules, the shape and the leaf order of the result are stated by `MerkleIntegrity.BuildRecWellFormed`, `MerkleShape.BuildRecShape` and `MerkleOrder.BuildRecFringe`.
- MerkleNode.Combine: the parent construction has no contract of its own; its hash and content rules are stated by `MerkleIntegrity.CombineWellFormed` and, for whole trees, `MerkleIntegrity.BuildRecWellFormed`.
- MerkleTree.RootHash: `getRootHash` has no contract of its own; what the root hash is follows from `MerkleLevels.RootHashIsLevelRoot` and `MerkleIntegrity.BuildTreeIntegrity`.
- Input strings are sequences of Unicode scalar values, because a Dafny `char` cannot be a surrogate. `Node.hash` encodes its argument as UTF-8, which raises `UnicodeEncodeError` in Python for a string holding a lone surrogate; that failure is not modelled, so `MerkleTree.BuildTree` failing exactly on the empty input holds for such strings only.
