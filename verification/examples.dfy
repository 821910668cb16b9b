/**
 Worked examples: the root hash and root content for one, two, three and
 five inputs, for any hash function.
 */
module MerkleExamples {
  import opened MerkleNode
  import opened MerkleTree
  import opened MerkleShape

  /** One input is padded to two leaves: the root hashes the leaf hash twice. */
  lemma SingleInput(h: HashFn, e: string)
    ensures BuildTree(h, [e]).Ok?
    ensures var t := BuildTree(h, [e]).tree;
      RootHash(t) == h(h(e) + h(e)) && t.root.content == e + "+" + e
  {
    var leaves := Leaves(h, [e]);
    assert Pad(leaves) == [MakeLeaf(h, e), Copy(MakeLeaf(h, e))];
  }

  /** Two inputs need no padding. */
  lemma TwoInputs(h: HashFn, a: string, b: string)
    ensures BuildTree(h, [a, b]).Ok?
    ensures var t := BuildTree(h, [a, b]).tree;
      RootHash(t) == h(h(a) + h(b)) && t.root.content == a + "+" + b
  {
    var leaves := Leaves(h, [a, b]);
    assert leaves == [MakeLeaf(h, a), MakeLeaf(h, b)];
  }

  /** Three inputs: the third is paired with its own copy. */
  lemma ThreeInputs(h: HashFn, a: string, b: string, c: string)
    ensures BuildTree(h, [a, b, c]).Ok?
    ensures var t := BuildTree(h, [a, b, c]).tree;
      RootHash(t) == h(h(h(a) + h(b)) + h(h(c) + h(c)))
      && t.root.content == a + "+" + b + "+" + c + "+" + c
  {
    var la, lb, lc := MakeLeaf(h, a), MakeLeaf(h, b), MakeLeaf(h, c);
    assert Leaves(h, [a, b, c]) == [la, lb, lc];
    BuildTreeIsRecursionOnLeaves(h, [a, b, c]);
    ThreeNodes(h, la, lb, lc);
  }

  /** Three nodes: the third is paired with its own copy. */
  lemma ThreeNodes(h: HashFn, x: Node, y: Node, z: Node)
    ensures var t := BuildRec(h, [x, y, z]);
      t == Combine(h, Combine(h, x, y), Combine(h, z, Copy(z)))
      && t.content == x.content + "+" + y.content + "+" + z.content + "+" + z.content
  {
    var s := [x, y, z];
    BuildRecStep(h, s);
    assert Pad(s) == [x, y, z, Copy(z)];
    assert Pad(s)[..2] == [x, y] && Pad(s)[2..] == [z, Copy(z)];
  }

  /** Five nodes are padded to six and split into two triples, the second
      ending with a copy of the last node. */
  lemma FiveNodes(h: HashFn, v: Node, w: Node, x: Node, y: Node, z: Node)
    ensures BuildRec(h, [v, w, x, y, z])
      == Combine(h, BuildRec(h, [v, w, x]), BuildRec(h, [y, z, Copy(z)]))
  {
    var s := [v, w, x, y, z];
    var p := Pad(s);
    assert p == [v, w, x, y, z, Copy(z)];
    assert p[..3] == [v, w, x] && p[3..] == [y, z, Copy(z)];
    BuildRecStep(h, s);
  }

  /** Five inputs give eight leaves: padding is applied again to every odd
      sub-list, so the last input appears three times. */
  lemma FiveInputs(h: HashFn, a: string, b: string, c: string, d: string, e: string)
    ensures BuildTree(h, [a, b, c, d, e]).Ok?
    ensures var t := BuildTree(h, [a, b, c, d, e]).tree;
      t.root.content == (a + "+" + b + "+" + c + "+" + c) + "+" + (d + "+" + e + "+" + e + "+" + e)
      && |Fringe(t.root)| == 8
  {
    BuildTreeShape(h, [a, b, c, d, e]);
    assert Depth(5) == 3;
    var la, lb, lc, ld, le := MakeLeaf(h, a), MakeLeaf(h, b), MakeLeaf(h, c), MakeLeaf(h, d), MakeLeaf(h, e);
    assert Leaves(h, [a, b, c, d, e]) == [la, lb, lc, ld, le];
    BuildTreeIsRecursionOnLeaves(h, [a, b, c, d, e]);
    FiveNodes(h, la, lb, lc, ld, le);
    ThreeNodes(h, la, lb, lc);
    ThreeNodes(h, ld, le, Copy(le));
  }
}
