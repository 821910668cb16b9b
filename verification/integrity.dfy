/**
 The hash and content rules of a built tree: every leaf hashes its content,
 every inner node hashes the concatenation of its children's hashes, and the
 root's content is the leaf contents joined by "+".
 */
module MerkleIntegrity {
  import opened MerkleNode
  import opened MerkleTree

  /** Every leaf's value is the hash of its content; every inner node's value
      is the hash of its children's values and its content is theirs joined by "+". */
  predicate WellFormed(h: HashFn, t: Node) {
    match t
    case Leaf(v, c, _) => v == h(c)
    case Inner(l, r, v, c, _) =>
      v == h(l.value + r.value) && c == l.content + "+" + r.content
      && WellFormed(h, l) && WellFormed(h, r)
  }

  /** The parent of two nodes that obey the hash rules obeys them too: its
      value hashes the two child values and its content joins theirs by "+". */
  lemma CombineWellFormed(h: HashFn, l: Node, r: Node)
    requires WellFormed(h, l) && WellFormed(h, r)
    ensures var p := Combine(h, l, r);
      WellFormed(h, p) && p.left == l && p.right == r && !p.isCopied
  {
  }

  predicate AllWellFormed(h: HashFn, s: seq<Node>) {
    forall i :: 0 <= i < |s| ==> WellFormed(h, s[i])
  }

  /** A padding copy keeps the hash rules of the node it copies. */
  lemma CopyWellFormed(h: HashFn, n: Node)
    requires WellFormed(h, n)
    ensures WellFormed(h, Copy(n))
  {
  }

  lemma PadWellFormed(h: HashFn, nodes: seq<Node>)
    requires AllWellFormed(h, nodes)
    ensures AllWellFormed(h, Pad(nodes))
  {
    var p := Pad(nodes);
    forall i | 0 <= i < |p|
      ensures WellFormed(h, p[i])
    {
      if i < |nodes| {
        assert p[i] == p[..|nodes|][i];
      } else {
        CopyWellFormed(h, nodes[|nodes| - 1]);
      }
    }
  }

  /** Building from well-formed nodes (in particular from hashed leaves)
      gives a well-formed tree. */
  lemma {:induction false} BuildRecWellFormed(h: HashFn, nodes: seq<Node>)
    requires |nodes| >= 1
    requires AllWellFormed(h, nodes)
    ensures WellFormed(h, BuildRec(h, nodes))
    decreases |nodes|
  {
    var p := Pad(nodes);
    PadWellFormed(h, nodes);
    if |p| != 2 {
      var half := |p| / 2;
      SplitFacts(nodes);
      BuildRecStep(h, nodes);
      assert AllWellFormed(h, p[..half]) by {
        forall i | 0 <= i < half
          ensures WellFormed(h, p[..half][i])
        {
          assert p[..half][i] == p[i];
        }
      }
      assert AllWellFormed(h, p[half..]) by {
        forall i | 0 <= i < |p| - half
          ensures WellFormed(h, p[half..][i])
        {
          assert p[half..][i] == p[half + i];
        }
      }
      BuildRecWellFormed(h, p[..half]);
      BuildRecWellFormed(h, p[half..]);
    }
  }

  /** The strings joined with "+" between consecutive ones. */
  function Join(xs: seq<string>): string
    requires |xs| >= 1
  {
    if |xs| == 1 then xs[0] else xs[0] + "+" + Join(xs[1..])
  }

  lemma {:induction false} JoinAppend(a: seq<string>, b: seq<string>)
    requires |a| >= 1 && |b| >= 1
    ensures Join(a + b) == Join(a) + "+" + Join(b)
    decreases |a|
  {
    assert (a + b)[0] == a[0];
    if |a| == 1 {
      assert (a + b)[1..] == b;
    } else {
      assert (a + b)[1..] == a[1..] + b;
      JoinAppend(a[1..], b);
    }
  }

  lemma ContentsAppend(a: seq<Node>, b: seq<Node>)
    ensures Contents(a + b) == Contents(a) + Contents(b)
  {
  }

  /** The content of a well-formed tree is its leaf contents, left to right, joined by "+". */
  lemma {:induction false} ContentIsJoinedFringe(h: HashFn, t: Node)
    requires WellFormed(h, t)
    ensures t.content == Join(Contents(Fringe(t)))
  {
    match t
    case Leaf(_, _, _) =>
      assert Contents(Fringe(t)) == [t.content];
    case Inner(l, r, _, _, _) =>
      ContentIsJoinedFringe(h, l);
      ContentIsJoinedFringe(h, r);
      ContentsAppend(Fringe(l), Fringe(r));
      JoinAppend(Contents(Fringe(l)), Contents(Fringe(r)));
  }

  /** The tree of a non-empty input obeys the hash rules at every node; its
      root hash is the hash of its two children's hashes, and the root's
      content is every leaf's content, padding included, joined by "+". */
  lemma BuildTreeIntegrity(h: HashFn, values: seq<string>)
    requires |values| >= 1
    ensures BuildTree(h, values).Ok?
    ensures var t := BuildTree(h, values).tree;
      WellFormed(h, t.root)
      && t.root.Inner?
      && RootHash(t) == h(t.root.left.value + t.root.right.value)
      && t.root.content == Join(Contents(Fringe(t.root)))
  {
    var leaves := Leaves(h, values);
    BuildTreeIsRecursionOnLeaves(h, values);
    BuildRecWellFormed(h, leaves);
    ContentIsJoinedFringe(h, BuildRec(h, leaves));
  }
}
