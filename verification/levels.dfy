/**
 An independent reference for the root hash: the level-by-level Merkle root.
 Starting from the leaf hashes, each level hashes adjacent pairs until one
 hash is left. The recursive halving of the builder gives the same hash.
 */
module MerkleLevels {
  import opened MerkleNode
  import opened MerkleTree
  import opened MerkleShape
  import opened MerkleIntegrity

  /** The hashes of a list of nodes, in order. */
  function Values(s: seq<Node>): (vs: seq<string>)
    ensures |vs| == |s|
    ensures forall i :: 0 <= i < |s| ==> vs[i] == s[i].value
  {
    seq(|s|, i requires 0 <= i < |s| => s[i].value)
  }

  /** One level up: the hash of each adjacent pair, in order. */
  function PairUp(h: HashFn, vs: seq<string>): (r: seq<string>)
    requires |vs| % 2 == 0
    ensures |r| == |vs| / 2
    ensures forall i :: 0 <= i < |r| ==> r[i] == h(vs[2 * i] + vs[2 * i + 1])
    decreases |vs|
  {
    if |vs| == 0 then [] else [h(vs[0] + vs[1])] + PairUp(h, vs[2..])
  }

  /** The Merkle root of 2^k hashes, computed one level at a time. */
  function LevelRoot(h: HashFn, vs: seq<string>, k: nat): string
    requires |vs| == Pow2(k)
    decreases k
  {
    if k == 0 then vs[0] else LevelRoot(h, PairUp(h, vs), k - 1)
  }

  lemma {:induction false} PairUpAppend(h: HashFn, a: seq<string>, b: seq<string>)
    requires |a| % 2 == 0 && |b| % 2 == 0
    ensures PairUp(h, a + b) == PairUp(h, a) + PairUp(h, b)
    decreases |a|
  {
    if |a| == 0 {
      assert a + b == b;
    } else {
      assert (a + b)[2..] == a[2..] + b;
      PairUpAppend(h, a[2..], b);
    }
  }

  /** The level root of two equal halves hashes the level roots of the halves:
      level by level and half by half are the same computation. */
  lemma {:induction false} LevelRootHalves(h: HashFn, a: seq<string>, b: seq<string>, k: nat)
    requires |a| == Pow2(k) && |b| == Pow2(k)
    ensures |a + b| == Pow2(k + 1)
    ensures LevelRoot(h, a + b, k + 1) == h(LevelRoot(h, a, k) + LevelRoot(h, b, k))
    decreases k
  {
    if k == 0 {
      assert PairUp(h, a + b) == [h(a[0] + b[0])];
    } else {
      PairUpAppend(h, a, b);
      LevelRootHalves(h, PairUp(h, a), PairUp(h, b), k - 1);
    }
  }

  lemma ValuesAppend(a: seq<Node>, b: seq<Node>)
    ensures Values(a + b) == Values(a) + Values(b)
  {
  }

  /** The hash of a perfect tree that obeys the hash rules is the level root of its leaf hashes. */
  lemma {:induction false} PerfectRootIsLevelRoot(h: HashFn, t: Node)
    requires Perfect(t) && WellFormed(h, t)
    ensures |Values(Fringe(t))| == Pow2(Height(t))
    ensures t.value == LevelRoot(h, Values(Fringe(t)), Height(t))
  {
    PerfectLeafCount(t);
    match t
    case Leaf(_, _, _) =>
    case Inner(l, r, _, _, _) =>
      PerfectRootIsLevelRoot(h, l);
      PerfectRootIsLevelRoot(h, r);
      ValuesAppend(Fringe(l), Fringe(r));
      LevelRootHalves(h, Values(Fringe(l)), Values(Fringe(r)), Height(l));
  }

  /** The root hash of a built tree is the level-by-level Merkle root of its
      leaf hashes, padding leaves included; each leaf hash is the hash of the
      leaf's input string. */
  lemma RootHashIsLevelRoot(h: HashFn, values: seq<string>)
    requires |values| >= 1
    ensures BuildTree(h, values).Ok?
    ensures var t := BuildTree(h, values).tree;
      var f := Fringe(t.root);
      |f| == Pow2(Height(t.root))
      && (forall i :: 0 <= i < |f| ==> f[i].value == h(f[i].content))
      && RootHash(t) == LevelRoot(h, Values(f), Height(t.root))
  {
    var t := BuildTree(h, values).tree;
    BuildTreeShape(h, values);
    BuildTreeIntegrity(h, values);
    PerfectRootIsLevelRoot(h, t.root);
    LeavesHashContents(h, t.root);
  }

  /** Every leaf of a tree that obeys the hash rules hashes its own content. */
  lemma {:induction false} LeavesHashContents(h: HashFn, t: Node)
    requires WellFormed(h, t)
    ensures forall i :: 0 <= i < |Fringe(t)| ==> Fringe(t)[i].value == h(Fringe(t)[i].content)
  {
    match t
    case Leaf(_, _, _) =>
    case Inner(l, r, _, _, _) =>
      LeavesHashContents(h, l);
      LeavesHashContents(h, r);
      var fl, fr := Fringe(l), Fringe(r);
      forall i | 0 <= i < |Fringe(t)|
        ensures Fringe(t)[i].value == h(Fringe(t)[i].content)
      {
        if i < |fl| {
          assert Fringe(t)[i] == fl[i];
        } else {
          assert Fringe(t)[i] == fr[i - |fl|];
        }
      }
  }
}
