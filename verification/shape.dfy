/**
 The shape of a built tree: perfect, with a power-of-two number of leaves that
 is the least power of two covering the input (and at least 2).
 */
module MerkleShape {
  import opened MerkleNode
  import opened MerkleTree

  /** A perfect tree of height k has exactly 2^k leaves. */
  lemma {:induction false} PerfectLeafCount(t: Node)
    requires Perfect(t)
    ensures |Fringe(t)| == Pow2(Height(t))
  {
    match t
    case Leaf(_, _, _) =>
    case Inner(l, r, _, _, _) =>
      PerfectLeafCount(l);
      PerfectLeafCount(r);
  }

  /** Built from leaves, the recursion gives a perfect tree whose height is
      Depth of the input length; in particular both subtrees of every inner
      node have the same shape and height. */
  lemma {:induction false} BuildRecShape(h: HashFn, nodes: seq<Node>)
    requires |nodes| >= 1
    requires AllLeaves(nodes)
    ensures Perfect(BuildRec(h, nodes)) && Height(BuildRec(h, nodes)) == Depth(|nodes|)
    decreases |nodes|
  {
    var p := Pad(nodes);
    PadKeepsLeaves(nodes);
    if |nodes| <= 2 {
      BuildRecBase(h, nodes);
      assert p[0].Leaf? && p[1].Leaf?;
    } else {
      var half := |p| / 2;
      var a, b := p[..half], p[half..];
      SplitFacts(nodes);
      BuildRecShape(h, a);
      BuildRecShape(h, b);
      var l, r := BuildRec(h, a), BuildRec(h, b);
      assert Height(l) == Height(r) == Depth(HalfLen(|nodes|));
      BuildRecStep(h, nodes);
    }
  }

  /** 2^Depth(n) covers n, is at least 2, and halving it would not cover n
      (unless it is 2 already): it is the least power of two at or above max(n, 2). */
  lemma {:induction false} DepthBounds(n: nat)
    requires n >= 1
    ensures Pow2(Depth(n)) >= n
    ensures Pow2(Depth(n)) >= 2
    ensures Pow2(Depth(n)) == 2 || Pow2(Depth(n)) / 2 < n
  {
    if n > 2 {
      var m := HalfLen(n);
      DepthBounds(m);
      var q := Pow2(Depth(m));
      assert Pow2(Depth(n)) == 2 * q;
      assert q == 2 * Pow2(Depth(m) - 1);
      assert q < 2 * m;
      assert q % 2 == 0;
      assert q < n;
    }
  }

  /** The tree of a non-empty input is perfect and has 2^height leaves, a
      power of two that is at least 2, at least the number of inputs, and the
      least such power. */
  lemma BuildTreeShape(h: HashFn, values: seq<string>)
    requires |values| >= 1
    ensures BuildTree(h, values).Ok?
    ensures var t := BuildTree(h, values).tree.root;
      var k := |Fringe(t)|;
      Perfect(t)
      && k == Pow2(Height(t))
      && Height(t) == Depth(|values|)
      && k >= 2
      && k >= |values|
      && (k == 2 || k / 2 < |values|)
  {
    var leaves := Leaves(h, values);
    BuildTreeIsRecursionOnLeaves(h, values);
    var t := BuildRec(h, leaves);
    BuildRecShape(h, leaves);
    PerfectLeafCount(t);
    DepthBounds(|values|);
  }
}
