/**
 Order preservation: read left to right, the leaves of a built tree are the
 input strings in order, with padding copies inserted only directly after a
 leaf of the same hash and content.
 */
module MerkleOrder {
  import opened MerkleNode
  import opened MerkleTree

  /** The nodes that are not padding copies, in order. */
  function Strip(s: seq<Node>): seq<Node> {
    if |s| == 0 then []
    else (if s[0].isCopied then [] else [s[0]]) + Strip(s[1..])
  }

  function Last(s: seq<Node>): Node
    requires |s| >= 1
  {
    s[|s| - 1]
  }

  /** Every padding copy (past the first position) repeats the payload of the node before it. */
  predicate CopiesFollowTwin(s: seq<Node>) {
    forall i :: 0 < i < |s| ==> FollowsTwin(s, i)
  }

  /** The node at position i is not a copy, or repeats the payload of its predecessor. */
  predicate FollowsTwin(s: seq<Node>, i: nat)
    requires 0 < i < |s|
  {
    s[i].isCopied ==> SamePayload(s[i - 1], s[i])
  }

  /** `f` is `s` with padding copies inserted: the same nodes once copies are
      dropped, the same first node, the same payload at the end, and every
      copy in `f` right after its twin. */
  predicate Extends(f: seq<Node>, s: seq<Node>) {
    |f| >= 1 && |s| >= 1
    && Strip(f) == Strip(s)
    && f[0] == s[0]
    && SamePayload(Last(f), Last(s))
    && CopiesFollowTwin(f)
  }

  lemma {:induction false} StripAppend(a: seq<Node>, b: seq<Node>)
    ensures Strip(a + b) == Strip(a) + Strip(b)
  {
    if |a| == 0 {
      assert a + b == b;
    } else {
      assert (a + b)[1..] == a[1..] + b;
      StripAppend(a[1..], b);
    }
  }

  /** A list with no copies strips to itself. */
  lemma {:induction false} StripNoCopies(s: seq<Node>)
    requires forall i :: 0 <= i < |s| ==> !s[i].isCopied
    ensures Strip(s) == s
  {
    if |s| > 0 {
      StripNoCopies(s[1..]);
    }
  }

  /** Inserting copies twice is inserting copies once. */
  lemma ExtendsTransitive(f: seq<Node>, p: seq<Node>, s: seq<Node>)
    requires Extends(f, p) && Extends(p, s)
    ensures Extends(f, s)
  {
  }

  /** Padding only inserts a copy after its twin. */
  lemma PadExtends(s: seq<Node>)
    requires |s| >= 1
    requires CopiesFollowTwin(s)
    ensures Extends(Pad(s), s)
  {
    var p := Pad(s);
    assert p[0] == p[..|s|][0];
    if |s| % 2 == 1 {
      StripAppend(s, [Copy(s[|s| - 1])]);
      assert Strip([Copy(s[|s| - 1])]) == [];
      forall i | 0 < i < |p|
        ensures FollowsTwin(p, i)
      {
        if i < |s| {
          assert FollowsTwin(s, i);
          assert p[i] == s[i] && p[i - 1] == s[i - 1];
        } else {
          assert p[i] == Copy(s[|s| - 1]) && p[i - 1] == s[|s| - 1];
        }
      }
    }
  }

  /** Two lists that place copies after their twins still do so when
      concatenated, provided the seam does: the first node of the second
      list is a copy only of a payload the first list ends with. */
  lemma ConcatFollowsTwin(fa: seq<Node>, fb: seq<Node>, a: seq<Node>, b: seq<Node>)
    requires |fa| >= 1 && |fb| >= 1 && |a| >= 1 && |b| >= 1
    requires fb[0] == b[0]
    requires SamePayload(Last(fa), Last(a))
    requires CopiesFollowTwin(fa) && CopiesFollowTwin(fb) && CopiesFollowTwin(a + b)
    ensures CopiesFollowTwin(fa + fb)
  {
    var f, p := fa + fb, a + b;
    forall i | 0 < i < |f|
      ensures FollowsTwin(f, i)
    {
      if i < |fa| {
        assert FollowsTwin(fa, i);
        assert f[i] == fa[i] && f[i - 1] == fa[i - 1];
      } else if i == |fa| {
        assert FollowsTwin(p, |a|);
        assert f[i] == p[|a|] && f[i - 1] == Last(fa) && p[|a| - 1] == Last(a);
      } else {
        assert FollowsTwin(fb, i - |fa|);
        assert f[i] == fb[i - |fa|] && f[i - 1] == fb[i - |fa| - 1];
      }
    }
  }

  /** The recursive step of the order proof: if the leaves of each half
      extend that half, together they extend both halves. */
  lemma ComposeHalves(a: seq<Node>, b: seq<Node>, fa: seq<Node>, fb: seq<Node>)
    requires CopiesFollowTwin(a + b)
    requires Extends(fa, a) && Extends(fb, b)
    ensures Extends(fa + fb, a + b)
  {
    StripAppend(fa, fb);
    StripAppend(a, b);
    assert Last(fa + fb) == Last(fb);
    assert Last(a + b) == Last(b);
    ConcatFollowsTwin(fa, fb, a, b);
  }

  /** A prefix of a list keeps the copies-follow-twin property. */
  lemma PrefixFollowsTwin(p: seq<Node>, k: nat)
    requires k <= |p|
    requires CopiesFollowTwin(p)
    ensures CopiesFollowTwin(p[..k])
  {
    var a := p[..k];
    forall i | 0 < i < |a|
      ensures FollowsTwin(a, i)
    {
      assert FollowsTwin(p, i);
      assert a[i] == p[i] && a[i - 1] == p[i - 1];
    }
  }

  /** A suffix of a list keeps the copies-follow-twin property. */
  lemma SuffixFollowsTwin(p: seq<Node>, k: nat)
    requires k <= |p|
    requires CopiesFollowTwin(p)
    ensures CopiesFollowTwin(p[k..])
  {
    var b := p[k..];
    forall i | 0 < i < |b|
      ensures FollowsTwin(b, i)
    {
      assert FollowsTwin(p, k + i);
      assert b[i] == p[k + i] && b[i - 1] == p[k + i - 1];
    }
  }

  /** The leaves of a tree built from at most two leaves are the padded list. */
  lemma FringeBase(h: HashFn, s: seq<Node>)
    requires 1 <= |s| <= 2 && AllLeaves(s)
    ensures Fringe(BuildRec(h, s)) == Pad(s)
  {
    PadKeepsLeaves(s);
    BuildRecBase(h, s);
    var p := Pad(s);
    assert p[0].Leaf? && p[1].Leaf?;
    assert Fringe(Combine(h, p[0], p[1])) == [p[0]] + [p[1]];
    assert p == [p[0]] + [p[1]];
  }

  /** The leaves of a tree built from more than two nodes are those of the two halves. */
  lemma FringeStep(h: HashFn, s: seq<Node>)
    requires |s| > 2
    ensures var p := Pad(s); var half := |p| / 2;
      Fringe(BuildRec(h, s)) == Fringe(BuildRec(h, p[..half])) + Fringe(BuildRec(h, p[half..]))
  {
    BuildRecStep(h, s);
  }

  /** The recursive step of the order proof, for an input longer than 2:
      lists that extend the two halves of the padded input together extend
      the input. */
  lemma HalvesExtend(s: seq<Node>, fa: seq<Node>, fb: seq<Node>)
    requires |s| > 2 && CopiesFollowTwin(s)
    requires var p := Pad(s); var half := |p| / 2;
      Extends(fa, p[..half]) && Extends(fb, p[half..])
    ensures Extends(fa + fb, s)
  {
    var p := Pad(s);
    var half := |p| / 2;
    var a, b := p[..half], p[half..];
    PadExtends(s);
    assert a + b == p;
    ComposeHalves(a, b, fa, fb);
    ExtendsTransitive(fa + fb, p, s);
  }

  /** The leaves of a tree built from leaves, read left to right, are the
      input with padding copies inserted right after their twins. */
  lemma {:induction false} BuildRecFringe(h: HashFn, s: seq<Node>)
    requires |s| >= 1
    requires AllLeaves(s)
    requires CopiesFollowTwin(s)
    ensures Extends(Fringe(BuildRec(h, s)), s)
    decreases |s|
  {
    if |s| <= 2 {
      PadExtends(s);
      FringeBase(h, s);
    } else {
      var p := Pad(s);
      var half := |p| / 2;
      PadExtends(s);
      SplitFacts(s);
      PrefixFollowsTwin(p, half);
      SuffixFollowsTwin(p, half);
      BuildRecFringe(h, p[..half]);
      BuildRecFringe(h, p[half..]);
      HalvesExtend(s, Fringe(BuildRec(h, p[..half])), Fringe(BuildRec(h, p[half..])));
      FringeStep(h, s);
    }
  }

  /** A list that extends copy-free leaves made from `values` meets the order
      promise: without copies it is `values`, and every copy follows its twin. */
  lemma FringeMeetsOrder(f: seq<Node>, leaves: seq<Node>, values: seq<string>)
    requires |leaves| == |values|
    requires forall i :: 0 <= i < |values| ==> leaves[i].content == values[i] && !leaves[i].isCopied
    requires Extends(f, leaves)
    ensures Contents(Strip(f)) == values
    ensures forall i :: 0 <= i < |f| && f[i].isCopied ==> i > 0 && SamePayload(f[i - 1], f[i])
  {
    StripNoCopies(leaves);
    assert Contents(leaves) == values;
    forall i | 0 <= i < |f| && f[i].isCopied
      ensures i > 0 && SamePayload(f[i - 1], f[i])
    {
      assert i != 0;
      assert FollowsTwin(f, i);
    }
  }

  /** Dropping the padding leaves of a built tree gives back exactly the
      input strings, in order; the first leaf is never padding, and every
      padding leaf directly follows a leaf of the same hash and content. */
  lemma BuildTreeOrder(h: HashFn, values: seq<string>)
    requires |values| >= 1
    ensures BuildTree(h, values).Ok?
    ensures var f := Fringe(BuildTree(h, values).tree.root);
      Contents(Strip(f)) == values
      && (forall i :: 0 <= i < |f| && f[i].isCopied ==>
            i > 0 && SamePayload(f[i - 1], f[i]))
  {
    var leaves := Leaves(h, values);
    BuildTreeIsRecursionOnLeaves(h, values);
    BuildRecFringe(h, leaves);
    FringeMeetsOrder(Fringe(BuildRec(h, leaves)), leaves, values);
  }
}
