/**
 The node of a Merkle tree: a leaf holding one input string, or an inner node
 holding two children. Every node carries its hash (`value`), the text it
 stands for (`content`) and whether it is a padding copy of a sibling.
 */
module MerkleNode {

  /** The hash a tree is built with. The repository uses the hexadecimal
      SHA-256 digest of the UTF-8 encoding (FIPS 180-4); the model treats it as
      an arbitrary function of strings, so every result holds for any hash. */
  type HashFn = string -> string

  datatype Node =
    | Leaf(value: string, content: string, isCopied: bool)
    | Inner(left: Node, right: Node, value: string, content: string, isCopied: bool)

  /** Two nodes carry the same hash and the same content, whatever their padding flags. */
  predicate SamePayload(a: Node, b: Node) {
    a.value == b.value && a.content == b.content
  }

  /** A leaf whose hash is the hash of its own content. */
  predicate HashedLeaf(h: HashFn, n: Node) {
    n.Leaf? && n.value == h(n.content)
  }

  /** The leaf made for one input string. */
  function MakeLeaf(h: HashFn, e: string): (n: Node)
    ensures HashedLeaf(h, n) && n.content == e && !n.isCopied
  {
    Leaf(h(e), e, false)
  }

  /** The padding copy of a node: everything kept, marked as copied. */
  function Copy(n: Node): (c: Node)
    ensures c.isCopied
    ensures SamePayload(c, n)
    ensures c.Leaf? <==> n.Leaf?
    ensures c.Inner? ==> c.left == n.left && c.right == n.right
  {
    n.(isCopied := true)
  }

  /** Copying loses nothing but the flag: restoring it gives the original back. */
  lemma CopyLosesOnlyTheFlag(n: Node)
    ensures Copy(n).(isCopied := n.isCopied) == n
    ensures Copy(Copy(n)) == Copy(n)
  {
  }

  /** The parent of two nodes: the hash of the two hashes, the two contents joined by "+". */
  function Combine(h: HashFn, l: Node, r: Node): Node {
    Inner(l, r, h(l.value + r.value), l.content + "+" + r.content, false)
  }

  function Height(t: Node): nat {
    match t
    case Leaf(_, _, _) => 0
    case Inner(l, r, _, _, _) =>
      1 + (if Height(l) < Height(r) then Height(r) else Height(l))
  }

  /** Every inner node has two subtrees of the same height, all the way down. */
  predicate Perfect(t: Node) {
    match t
    case Leaf(_, _, _) => true
    case Inner(l, r, _, _, _) => Perfect(l) && Perfect(r) && Height(l) == Height(r)
  }

  /** The leaves of a tree, left to right. */
  function Fringe(t: Node): (f: seq<Node>)
    ensures |f| >= 1
  {
    match t
    case Leaf(_, _, _) => [t]
    case Inner(l, r, _, _, _) => Fringe(l) + Fringe(r)
  }

  predicate AllLeaves(s: seq<Node>) {
    forall i :: 0 <= i < |s| ==> s[i].Leaf?
  }

  function Contents(s: seq<Node>): (cs: seq<string>)
    ensures |cs| == |s|
    ensures forall i :: 0 <= i < |s| ==> cs[i] == s[i].content
  {
    seq(|s|, i requires 0 <= i < |s| => s[i].content)
  }

  function Pow2(k: nat): (p: nat)
    ensures p >= 1
  {
    if k == 0 then 1 else 2 * Pow2(k - 1)
  }
}
