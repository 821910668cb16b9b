/**
 Building a Merkle tree from a list of strings. Each string becomes a leaf; a
 list of odd length is padded with a copy of its last node; the padded list is
 cut into two equal halves, each half is built recursively, and the parent
 hashes the concatenation of the two child hashes. Padding is applied again to
 every odd sub-list, so the leaf count is always a power of two.
 */
module MerkleTree {
  import opened MerkleNode

  /** Building from an empty list never finishes: the recursion calls itself
      on the empty list again until the interpreter's recursion limit. */
  datatype BuildError = UnboundedRecursion

  datatype Result<T> = Ok(tree: T) | Err(error: BuildError)

  datatype Tree = Tree(root: Node)

  /** Append a copy of the last node when the length is odd. */
  function Pad(nodes: seq<Node>): (p: seq<Node>)
    ensures |p| % 2 == 0
    ensures |p| == |nodes| + |nodes| % 2
    ensures p[..|nodes|] == nodes
    ensures |nodes| % 2 == 1 ==> p[|nodes|] == Copy(nodes[|nodes| - 1])
  {
    if |nodes| % 2 == 1 then nodes + [Copy(nodes[|nodes| - 1])] else nodes
  }

  /** Padding an already padded list changes nothing. */
  lemma PadIdempotent(nodes: seq<Node>)
    ensures Pad(Pad(nodes)) == Pad(nodes)
  {
  }

  /** A list of leaves stays a list of leaves when padded. */
  lemma PadKeepsLeaves(nodes: seq<Node>)
    requires AllLeaves(nodes)
    ensures AllLeaves(Pad(nodes))
  {
    var p := Pad(nodes);
    forall i | 0 <= i < |p|
      ensures p[i].Leaf?
    {
      if i < |nodes| {
        assert p[i] == p[..|nodes|][i];
      } else {
        assert p[i] == Copy(nodes[|nodes| - 1]);
      }
    }
  }

  /** Every input length above 2 is cut into two halves of the padded list,
      each strictly shorter than the input; lengths 1 and 2 are the base case. */
  lemma HalvesShrink(nodes: seq<Node>)
    requires |nodes| >= 1
    ensures |Pad(nodes)| == 2 <==> |nodes| <= 2
    ensures |nodes| > 2 ==> 2 <= |Pad(nodes)| / 2 < |nodes|
  {
  }

  /** The empty list is even and not of length 2, so its recursive call is on
      the empty list again: the recursion makes no progress. */
  lemma EmptyMakesNoProgress(nodes: seq<Node>)
    requires |nodes| == 0
    ensures |Pad(nodes)| != 2
    ensures Pad(nodes)[..|Pad(nodes)| / 2] == nodes
    ensures Pad(nodes)[|Pad(nodes)| / 2..] == nodes
  {
  }

  /** The length of each half of a padded list of length `n`. */
  function HalfLen(n: nat): nat {
    (n + n % 2) / 2
  }

  /** The height the recursion gives to a tree built from `n` leaves. */
  function Depth(n: nat): (d: nat)
    requires n >= 1
    ensures d >= 1
  {
    if n <= 2 then 1 else 1 + Depth(HalfLen(n))
  }

  /** The two halves of a padded list longer than 2: equally long, each
      shorter than the input, and leaves when the input is. */
  lemma SplitFacts(nodes: seq<Node>)
    requires |nodes| > 2
    ensures var p := Pad(nodes); var half := |p| / 2;
      half == |p[..half]| == |p[half..]| == HalfLen(|nodes|) < |nodes|
      && (AllLeaves(nodes) ==> AllLeaves(p[..half]) && AllLeaves(p[half..]))
  {
    if AllLeaves(nodes) {
      PadKeepsLeaves(nodes);
    }
  }

  /** Build a tree from a non-empty list of nodes. */
  function BuildRec(h: HashFn, nodes: seq<Node>): (t: Node)
    requires |nodes| >= 1
    ensures t.Inner? && !t.isCopied
    decreases |nodes|
  {
    var p := Pad(nodes);
    if |p| == 2 then
      Combine(h, p[0], p[1])
    else
      var half := |p| / 2;
      SplitFacts(nodes);
      Combine(h, BuildRec(h, p[..half]), BuildRec(h, p[half..]))
  }

  /** The base case of the recursion, for a list of one or two nodes. */
  lemma BuildRecBase(h: HashFn, nodes: seq<Node>)
    requires 1 <= |nodes| <= 2
    ensures |Pad(nodes)| == 2
    ensures BuildRec(h, nodes) == Combine(h, Pad(nodes)[0], Pad(nodes)[1])
  {
  }

  /** One step of the recursion, for a list longer than 2. */
  lemma BuildRecStep(h: HashFn, nodes: seq<Node>)
    requires |nodes| > 2
    ensures var p := Pad(nodes); var half := |p| / 2;
      BuildRec(h, nodes) == Combine(h, BuildRec(h, p[..half]), BuildRec(h, p[half..]))
  {
  }

  /** The leaves made from the input strings, in order. */
  function Leaves(h: HashFn, values: seq<string>): (leaves: seq<Node>)
    ensures |leaves| == |values|
    ensures forall i :: 0 <= i < |values| ==>
      HashedLeaf(h, leaves[i]) && !leaves[i].isCopied && leaves[i].content == values[i]
  {
    seq(|values|, i requires 0 <= i < |values| => MakeLeaf(h, values[i]))
  }

  /** Build the tree of a list of strings; the empty list has none. */
  function BuildTree(h: HashFn, values: seq<string>): (r: Result<Tree>)
    ensures r.Err? <==> |values| == 0
    ensures r.Ok? ==> r.tree.root.Inner?
  {
    if |values| == 0 then Err(UnboundedRecursion)
    else Ok(Tree(BuildRec(h, Pad(Leaves(h, values)))))
  }

  /** The hash a tree is identified by: its root's value. */
  function RootHash(t: Tree): string {
    t.root.value
  }

  /** The padding before the first recursive call is redundant: the recursion
      pads an odd list itself, so building with or without it gives one tree. */
  lemma TopLevelPadRedundant(h: HashFn, nodes: seq<Node>)
    requires |nodes| >= 1
    ensures BuildRec(h, Pad(nodes)) == BuildRec(h, nodes)
  {
    PadIdempotent(nodes);
  }

  /** The tree of a non-empty list is the recursion applied to the bare leaves. */
  lemma BuildTreeIsRecursionOnLeaves(h: HashFn, values: seq<string>)
    requires |values| >= 1
    ensures BuildTree(h, values) == Ok(Tree(BuildRec(h, Leaves(h, values))))
  {
    TopLevelPadRedundant(h, Leaves(h, values));
  }
}
