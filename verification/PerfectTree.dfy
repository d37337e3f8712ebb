/** Binary trees over any pair hash: the RFC 6962 shape, and the perfect tree over a power of two of leaves, which is
    the same tree.
 */
module PerfectTree {
  import opened Bytes
  import opened SplitPoint
  import opened Rfc6962

  datatype PathStep<T> = PathStep(sibling: T, onLeft: bool)

  /** The RFC 6962 shape over leaves already hashed. */
  function TreeRoot<T>(pair: (T, T) -> T, xs: seq<T>): T
    requires xs != []
    decreases |xs|
  {
    if |xs| == 1 then xs[0]
    else pair(TreeRoot(pair, xs[..Split(|xs|)]), TreeRoot(pair, xs[Split(|xs|)..]))
  }

  function TreePath<T>(pair: (T, T) -> T, xs: seq<T>, i: int): seq<PathStep<T>>
    requires 0 <= i < |xs|
    decreases |xs|
  {
    if |xs| == 1 then []
    else
      var k := Split(|xs|);
      if i < k then TreePath(pair, xs[..k], i) + [PathStep(TreeRoot(pair, xs[k..]), false)]
      else TreePath(pair, xs[k..], i - k) + [PathStep(TreeRoot(pair, xs[..k]), true)]
  }

  function NodePair(H: Hash): (Digest, Digest) -> Digest {
    (l: Digest, r: Digest) => HashChildren(H, l, r)
  }

  function HashLeaves(H: Hash, D: seq<ByteSeq>): seq<Digest> {
    seq(|D|, j requires 0 <= j < |D| => HashLeaf(H, D[j]))
  }

  function Steps(path: seq<PathStep<Digest>>): seq<Step> {
    seq(|path|, j requires 0 <= j < |path| => Step(path[j].sibling, path[j].onLeft))
  }

  /** MTH is the tree over the leaf hashes. */
  lemma {:induction false} MthIsTreeRoot(H: Hash, D: seq<ByteSeq>)
    requires D != []
    ensures Mth(H, D) == TreeRoot(NodePair(H), HashLeaves(H, D))
    decreases |D|
  {
    if |D| > 1 {
      var k, L := Split(|D|), HashLeaves(H, D);
      MthIsTreeRoot(H, D[..k]);
      MthIsTreeRoot(H, D[k..]);
      assert L[..k] == HashLeaves(H, D[..k]) && L[k..] == HashLeaves(H, D[k..]);
    }
  }

  lemma {:induction false} AuditPathIsTreePath(H: Hash, i: int, D: seq<ByteSeq>)
    requires 0 <= i < |D|
    ensures AuditPath(H, i, D) == Steps(TreePath(NodePair(H), HashLeaves(H, D), i))
    decreases |D|
  {
    if |D| > 1 {
      var k, L := Split(|D|), HashLeaves(H, D);
      assert L[..k] == HashLeaves(H, D[..k]) && L[k..] == HashLeaves(H, D[k..]);
      MthIsTreeRoot(H, D[..k]);
      MthIsTreeRoot(H, D[k..]);
      if i < k {
        AuditPathIsTreePath(H, i, D[..k]);
      } else {
        AuditPathIsTreePath(H, i - k, D[k..]);
      }
    }
  }

  // ---------- Perfect trees ----------

  /** Element j of a list padded without end by repeating its last element. */
  function At<T>(xs: seq<T>, j: nat): (x: T)
    requires xs != []
    ensures x in xs
  {
    if j < |xs| then xs[j] else xs[|xs| - 1]
  }

  /** The p-th node, from the left, at height e of the tree over the padded list. */
  function NodeAt<T>(pair: (T, T) -> T, xs: seq<T>, e: nat, p: nat): T
    requires xs != []
  {
    if e == 0 then At(xs, p) else pair(NodeAt(pair, xs, e - 1, 2 * p), NodeAt(pair, xs, e - 1, 2 * p + 1))
  }

  /** The position at height e above leaf i. */
  function Ancestor(i: nat, e: nat): nat {
    if e == 0 then i else Ancestor(i, e - 1) / 2
  }

  /** The other child of the same parent. */
  function Sibling(p: nat): nat {
    if p % 2 == 1 then p - 1 else p + 1
  }

  /** The path of leaf i up to height e, leaf to root. */
  function PerfectPath<T>(pair: (T, T) -> T, xs: seq<T>, e: nat, i: nat): (path: seq<PathStep<T>>)
    requires xs != []
    ensures |path| == e
  {
    if e == 0 then []
    else
      var p := Ancestor(i, e - 1);
      PerfectPath(pair, xs, e - 1, i) + [PathStep(NodeAt(pair, xs, e - 1, Sibling(p)), p % 2 == 1)]
  }

  lemma {:induction false} TopAncestor(i: nat, e: nat, d: nat)
    requires i < Exp2(e + d)
    ensures Ancestor(i, e) < Exp2(d)
    decreases e
  {
    if e > 0 {
      TopAncestor(i, e - 1, d + 1);
    }
  }

  // ---------- Walking a path ----------

  function StepUp<T>(pair: (T, T) -> T, current: T, step: PathStep<T>): T {
    if step.onLeft then pair(step.sibling, current) else pair(current, step.sibling)
  }

  function WalkUp<T>(pair: (T, T) -> T, leaf: T, path: seq<PathStep<T>>): T {
    if path == [] then leaf else StepUp(pair, WalkUp(pair, leaf, path[..|path| - 1]), path[|path| - 1])
  }

  lemma WalkOneMore<T>(pair: (T, T) -> T, leaf: T, path: seq<PathStep<T>>, step: PathStep<T>)
    ensures WalkUp(pair, leaf, path + [step]) == StepUp(pair, WalkUp(pair, leaf, path), step)
  {
    assert (path + [step])[..|path|] == path;
  }

  /** A walk may stop anywhere and go on from there. */
  lemma {:induction false} WalkSplit<T>(pair: (T, T) -> T, leaf: T, path: seq<PathStep<T>>, j: nat)
    requires j <= |path|
    ensures WalkUp(pair, leaf, path) == WalkUp(pair, WalkUp(pair, leaf, path[..j]), path[j..])
    decreases |path|
  {
    if j == |path| {
      assert path[..j] == path && path[j..] == [];
    } else {
      var n := |path| - 1;
      WalkSplit(pair, leaf, path[..n], j);
      assert path[..n][..j] == path[..j] && path[..n][j..] == path[j..][..n - j];
      assert path[j..][n - j] == path[n];
    }
  }

  /** The nodes at height k as a list, for a tree of k + d levels above its leaves. */
  function LevelNodes<T>(pair: (T, T) -> T, xs: seq<T>, k: nat, d: nat): seq<T>
    requires xs != []
  {
    seq(Exp2(d), p requires 0 <= p < Exp2(d) => NodeAt(pair, xs, k, p))
  }

  /** They are the leaves of the upper part of the tree. */
  lemma {:induction false} UpperPart<T>(pair: (T, T) -> T, xs: seq<T>, k: nat, d: nat, e: nat, p: nat)
    requires xs != [] && e <= d && p < Exp2(d - e)
    ensures |LevelNodes(pair, xs, k, d)| == Exp2(d) >= 1
    ensures NodeAt(pair, LevelNodes(pair, xs, k, d), e, p) == NodeAt(pair, xs, k + e, p)
    decreases e
  {
    Exp2Monotone(0, d);
    if e > 0 {
      UpperPart(pair, xs, k, d, e - 1, 2 * p);
      UpperPart(pair, xs, k, d, e - 1, 2 * p + 1);
      NodeStep(pair, LevelNodes(pair, xs, k, d), e - 1, p);
      NodeStep(pair, xs, k + e - 1, p);
    }
  }

  /** Every path leads from its leaf to the node above it. */
  lemma {:induction false} PathReachesNode<T>(pair: (T, T) -> T, xs: seq<T>, e: nat, i: nat)
    requires xs != []
    ensures WalkUp(pair, At(xs, i), PerfectPath(pair, xs, e, i)) == NodeAt(pair, xs, e, Ancestor(i, e))
  {
    if e > 0 {
      var p := Ancestor(i, e - 1);
      PathReachesNode(pair, xs, e - 1, i);
      PathStepFrom(pair, xs, e - 1, i, p / 2, p % 2 == 1);
      WalkOneMore(pair, At(xs, i), PerfectPath(pair, xs, e - 1, i), PathStep(NodeAt(pair, xs, e - 1, Sibling(p)), p % 2 == 1));
    }
  }

  /** In particular a leaf's path of the full height leads to the root. */
  lemma PathReachesTop<T>(pair: (T, T) -> T, xs: seq<T>, e: nat, i: nat)
    requires i < |xs| <= Exp2(e)
    ensures WalkUp(pair, xs[i], PerfectPath(pair, xs, e, i)) == NodeAt(pair, xs, e, 0)
  {
    TopAncestor(i, e, 0);
    PathReachesNode(pair, xs, e, i);
  }

  lemma NodeStep<T>(pair: (T, T) -> T, xs: seq<T>, e: nat, p: nat)
    requires xs != []
    ensures NodeAt(pair, xs, e + 1, p) == pair(NodeAt(pair, xs, e, 2 * p), NodeAt(pair, xs, e, 2 * p + 1))
  {
  }

  /** The position of the left or right child of p, one level down. */
  function Child(p: nat, right: bool): nat {
    if right then 2 * p + 1 else 2 * p
  }

  /** The leaf that the sides of a path lead down to from the p-th node. */
  function IndexBelow<T>(path: seq<PathStep<T>>, p: nat): nat {
    if path == [] then p else IndexBelow(path[..|path| - 1], Child(p, path[|path| - 1].onLeft))
  }

  /** The path is that of the leaf its sides lead to, and starts from that leaf. */
  ghost predicate Pinned<T>(pair: (T, T) -> T, x: T, path: seq<PathStep<T>>, xs: seq<T>, p: nat)
    requires xs != []
  {
    var i := IndexBelow(path, p);
    Ancestor(i, |path|) == p && At(xs, i) == x && path == PerfectPath(pair, xs, |path|, i)
  }

  lemma PinnedByNothing<T>(pair: (T, T) -> T, x: T, xs: seq<T>, p: nat)
    requires xs != [] && x == NodeAt(pair, xs, 0, p)
    ensures Pinned(pair, x, [], xs, p)
  {
  }

  lemma PinnedOneMore<T>(pair: (T, T) -> T, x: T, path: seq<PathStep<T>>, xs: seq<T>, e: nat, p: nat)
    requires xs != [] && |path| == e + 1
    requires path[e].sibling == NodeAt(pair, xs, e, Child(p, !path[e].onLeft))
    requires Pinned(pair, x, path[..e], xs, Child(p, path[e].onLeft))
    ensures Pinned(pair, x, path, xs, p)
  {
    PathStepFrom(pair, xs, e, IndexBelow(path, p), p, path[e].onLeft);
    assert path == path[..e] + [path[e]];
  }

  // ---------- What a walk to a node shows ----------

  /** Two different pairs that hash alike. */
  datatype PairEvidence<T> = PairEvidence(a: T, b: T, c: T, d: T)

  predicate PairsCollide<T(==)>(pair: (T, T) -> T, ev: PairEvidence<T>) {
    (ev.a != ev.c || ev.b != ev.d) && pair(ev.a, ev.b) == pair(ev.c, ev.d)
  }

  /** What the last step of a walk hashes, and what the p-th node of that height hashes. */
  function TopEvidence<T>(pair: (T, T) -> T, x: T, path: seq<PathStep<T>>, xs: seq<T>, p: nat): PairEvidence<T>
    requires xs != [] && path != []
  {
    var e := |path| - 1;
    var top, below := path[e], WalkUp(pair, x, path[..e]);
    PairEvidence(if top.onLeft then top.sibling else below, if top.onLeft then below else top.sibling,
                 NodeAt(pair, xs, e, 2 * p), NodeAt(pair, xs, e, 2 * p + 1))
  }

  /** The highest place where the two differ. */
  function WalkEvidence<T(==)>(pair: (T, T) -> T, x: T, path: seq<PathStep<T>>, xs: seq<T>, p: nat): PairEvidence<T>
    requires xs != [] && path != []
  {
    var ev, e := TopEvidence(pair, x, path, xs, p), |path| - 1;
    if ev.a != ev.c || ev.b != ev.d || e == 0 then ev
    else WalkEvidence(pair, x, path[..e], xs, Child(p, path[e].onLeft))
  }

  /** A walk that reaches a node of height |path| is the path of a leaf below that node, or two pairs collide. */
  lemma {:induction false} WalkSound<T>(pair: (T, T) -> T, x: T, path: seq<PathStep<T>>, xs: seq<T>, p: nat)
    requires xs != [] && WalkUp(pair, x, path) == NodeAt(pair, xs, |path|, p)
    ensures Pinned(pair, x, path, xs, p) || (path != [] && PairsCollide(pair, WalkEvidence(pair, x, path, xs, p)))
    decreases |path|
  {
    if path == [] {
      PinnedByNothing(pair, x, xs, p);
    } else {
      var e, ev := |path| - 1, TopEvidence(pair, x, path, xs, p);
      NodeStep(pair, xs, e, p);
      assert pair(ev.a, ev.b) == pair(ev.c, ev.d);
      if ev.a == ev.c && ev.b == ev.d {
        WalkSound(pair, x, path[..e], xs, Child(p, path[e].onLeft));
        if Pinned(pair, x, path[..e], xs, Child(p, path[e].onLeft)) {
          PinnedOneMore(pair, x, path, xs, e, p);
        }
      }
    }
  }

  /** The evidence compares a step of the walk with two neighbouring nodes. */
  lemma {:induction false} WalkEvidenceParts<T>(pair: (T, T) -> T, x: T, path: seq<PathStep<T>>, xs: seq<T>, p: nat, d: nat)
    returns (e: nat, q: nat)
    requires xs != [] && path != [] && p < Exp2(d)
    ensures e < |path| && q < Exp2(d + |path| - 1 - e)
    ensures var ev, below := WalkEvidence(pair, x, path, xs, p), WalkUp(pair, x, path[..e]);
            && (ev.a == below || ev.b == below)
            && ev.c == NodeAt(pair, xs, e, 2 * q) && ev.d == NodeAt(pair, xs, e, 2 * q + 1)
    decreases |path|
  {
    var ev := TopEvidence(pair, x, path, xs, p);
    e, q := |path| - 1, p;
    if ev.a == ev.c && ev.b == ev.d && e > 0 {
      var below := path[..e];
      e, q := WalkEvidenceParts(pair, x, below, xs, Child(p, path[e].onLeft), d + 1);
      assert below[..e] == path[..e];
    }
  }

  /** Whatever hashes to the parent of leaf i with some sibling goes on like the path of leaf i. */
  lemma {:induction false} FromParent<T>(pair: (T, T) -> T, xs: seq<T>, first: PathStep<T>, x: T, e: nat, i: nat) returns (path: seq<PathStep<T>>)
    requires xs != [] && e >= 1 && StepUp(pair, x, first) == NodeAt(pair, xs, 1, Ancestor(i, 1))
    ensures |path| == e && WalkUp(pair, x, path) == NodeAt(pair, xs, e, Ancestor(i, e))
    decreases e
  {
    if e == 1 {
      path := [first];
      assert path[..0] == [];
    } else {
      var below := FromParent(pair, xs, first, x, e - 1, i);
      var p := Ancestor(i, e - 1);
      PathStepFrom(pair, xs, e - 1, i, p / 2, p % 2 == 1);
      var step := PathStep(NodeAt(pair, xs, e - 1, Sibling(p)), p % 2 == 1);
      WalkOneMore(pair, x, below, step);
      path := below + [step];
    }
  }

  lemma {:induction false} BelowTop(i: nat, e: nat, d: nat)
    requires Ancestor(i, e) < Exp2(d)
    ensures i < Exp2(e + d)
    decreases e
  {
    if e > 0 {
      BelowTop(i, e - 1, d + 1);
    }
  }

  // ---------- The perfect tree is the RFC 6962 tree of as many leaves ----------

  /** The first leaf below the p-th node at height e. */
  function Start(p: nat, e: nat): nat
    decreases e
  {
    if e == 0 then p else Start(2 * p, e - 1)
  }

  lemma {:induction false} StartOfRight(p: nat, e: nat)
    ensures Start(p + 1, e) == Start(p, e) + Exp2(e)
    decreases e
  {
    if e > 0 {
      StartOfRight(2 * p, e - 1);
      StartOfRight(2 * p + 1, e - 1);
    }
  }

  lemma {:induction false} StartOfTree(e: nat)
    ensures Start(0, e) == 0
  {
    if e > 0 {
      StartOfTree(e - 1);
    }
  }

  lemma TreeByHalves<T>(pair: (T, T) -> T, s: seq<T>, h: nat)
    requires |s| == 2 * h && PowerOfTwo(h)
    ensures TreeRoot(pair, s) == pair(TreeRoot(pair, s[..h]), TreeRoot(pair, s[h..]))
  {
    SplitUnique(2 * h, h);
  }

  lemma PathByHalves<T>(pair: (T, T) -> T, s: seq<T>, h: nat, j: nat)
    requires |s| == 2 * h && PowerOfTwo(h) && j < 2 * h
    ensures TreePath(pair, s, j)
         == if j < h then TreePath(pair, s[..h], j) + [PathStep(TreeRoot(pair, s[h..]), false)]
            else TreePath(pair, s[h..], j - h) + [PathStep(TreeRoot(pair, s[..h]), true)]
  {
    SplitUnique(2 * h, h);
  }

  lemma SliceHalves<T>(xs: seq<T>, lo: nat, mid: nat, hi: nat)
    requires lo <= mid <= hi <= |xs|
    ensures xs[lo..hi][..mid - lo] == xs[lo..mid] && xs[lo..hi][mid - lo..] == xs[mid..hi]
  {
  }

  lemma JoinNodes<T>(pair: (T, T) -> T, xs: seq<T>, e: nat, p: nat, h: nat, lo: nat, mid: nat, hi: nat)
    requires PowerOfTwo(h) && mid == lo + h && hi == mid + h <= |xs|
    requires NodeAt(pair, xs, e, 2 * p) == TreeRoot(pair, xs[lo..mid])
    requires NodeAt(pair, xs, e, 2 * p + 1) == TreeRoot(pair, xs[mid..hi])
    ensures NodeAt(pair, xs, e + 1, p) == TreeRoot(pair, xs[lo..hi])
  {
    NodeStep(pair, xs, e, p);
    SliceHalves(xs, lo, mid, hi);
    TreeByHalves(pair, xs[lo..hi], h);
  }

  /** A node is the tree over the stretch of leaves below it. */
  lemma {:induction false} NodeIsTree<T>(pair: (T, T) -> T, xs: seq<T>, e: nat, p: nat, lo: nat, hi: nat)
    requires lo == Start(p, e) && hi == lo + Exp2(e) <= |xs|
    ensures NodeAt(pair, xs, e, p) == TreeRoot(pair, xs[lo..hi])
    decreases e
  {
    if e > 0 {
      var h := Exp2(e - 1);
      StartOfRight(2 * p, e - 1);
      NodeIsTree(pair, xs, e - 1, 2 * p, lo, lo + h);
      NodeIsTree(pair, xs, e - 1, 2 * p + 1, lo + h, hi);
      Exp2IsPower(e - 1);
      JoinNodes(pair, xs, e - 1, p, h, lo, lo + h, hi);
    }
  }

  lemma {:induction false} AncestorOfRange(i: nat, e: nat, p: nat)
    requires Start(p, e) <= i < Start(p, e) + Exp2(e)
    ensures Ancestor(i, e) == p
    decreases e
  {
    if e > 0 {
      StartOfRight(2 * p, e - 1);
      AncestorOfRange(i, e - 1, if i < Start(2 * p + 1, e - 1) then 2 * p else 2 * p + 1);
    }
  }

  lemma PathStepFrom<T>(pair: (T, T) -> T, xs: seq<T>, e: nat, i: nat, p: nat, right: bool)
    requires xs != [] && Ancestor(i, e) == Child(p, right)
    ensures PerfectPath(pair, xs, e + 1, i)
         == PerfectPath(pair, xs, e, i) + [PathStep(NodeAt(pair, xs, e, Child(p, !right)), right)]
  {
  }

  lemma TreePathSlices<T>(pair: (T, T) -> T, xs: seq<T>, h: nat, lo: nat, mid: nat, hi: nat, j: nat)
    requires PowerOfTwo(h) && mid == lo + h && hi == mid + h <= |xs| && j < 2 * h
    ensures TreePath(pair, xs[lo..hi], j)
         == if j < h then TreePath(pair, xs[lo..mid], j) + [PathStep(TreeRoot(pair, xs[mid..hi]), false)]
            else TreePath(pair, xs[mid..hi], j - h) + [PathStep(TreeRoot(pair, xs[lo..mid]), true)]
  {
    var s := xs[lo..hi];
    SliceHalves(xs, lo, mid, hi);
    PathByHalves(pair, s, h, j);
  }

  lemma JoinLeftPath<T>(pair: (T, T) -> T, xs: seq<T>, e: nat, p: nat, h: nat, lo: nat, mid: nat, hi: nat, i: nat)
    requires PowerOfTwo(h) && mid == lo + h && hi == mid + h <= |xs| && lo <= i < mid && Ancestor(i, e) == 2 * p
    requires NodeAt(pair, xs, e, 2 * p + 1) == TreeRoot(pair, xs[mid..hi])
    requires PerfectPath(pair, xs, e, i) == TreePath(pair, xs[lo..mid], i - lo)
    ensures PerfectPath(pair, xs, e + 1, i) == TreePath(pair, xs[lo..hi], i - lo)
  {
    PathStepFrom(pair, xs, e, i, p, false);
    TreePathSlices(pair, xs, h, lo, mid, hi, i - lo);
  }

  lemma JoinRightPath<T>(pair: (T, T) -> T, xs: seq<T>, e: nat, p: nat, h: nat, lo: nat, mid: nat, hi: nat, i: nat)
    requires PowerOfTwo(h) && mid == lo + h && hi == mid + h <= |xs| && mid <= i < hi && Ancestor(i, e) == 2 * p + 1
    requires NodeAt(pair, xs, e, 2 * p) == TreeRoot(pair, xs[lo..mid])
    requires PerfectPath(pair, xs, e, i) == TreePath(pair, xs[mid..hi], i - mid)
    ensures PerfectPath(pair, xs, e + 1, i) == TreePath(pair, xs[lo..hi], i - lo)
  {
    var j := i - mid;
    assert i - lo == h + j;
    PathStepFrom(pair, xs, e, i, p, true);
    TreePathSlices(pair, xs, h, lo, mid, hi, h + j);
  }

  lemma ChildStarts(p: nat, e: nat)
    ensures Start(2 * p, e) == Start(p, e + 1) && Start(2 * p + 1, e) == Start(p, e + 1) + Exp2(e)
    ensures Exp2(e + 1) == Exp2(e) + Exp2(e)
  {
    StartOfRight(2 * p, e);
  }

  lemma {:induction false} PathIsTreePath<T>(pair: (T, T) -> T, xs: seq<T>, e: nat, p: nat, lo: nat, hi: nat, i: nat)
    requires lo == Start(p, e) && hi == lo + Exp2(e) <= |xs| && lo <= i < hi
    ensures PerfectPath(pair, xs, e, i) == TreePath(pair, xs[lo..hi], i - lo)
    decreases e, 1
  {
    if e > 0 {
      ChildStarts(p, e - 1);
      var mid := lo + Exp2(e - 1);
      if i < mid {
        LeftPathIsTreePath(pair, xs, e - 1, p, lo, mid, hi, i);
      } else {
        RightPathIsTreePath(pair, xs, e - 1, p, lo, mid, hi, i);
      }
    }
  }

  lemma {:induction false} LeftPathIsTreePath<T>(pair: (T, T) -> T, xs: seq<T>, e: nat, p: nat, lo: nat, mid: nat, hi: nat, i: nat)
    requires lo == Start(2 * p, e) && mid == Start(2 * p + 1, e) && mid - lo == hi - mid == Exp2(e) && hi <= |xs| && lo <= i < mid
    ensures PerfectPath(pair, xs, e + 1, i) == TreePath(pair, xs[lo..hi], i - lo)
    decreases e + 1, 0
  {
    AncestorOfRange(i, e, 2 * p);
    NodeIsTree(pair, xs, e, 2 * p + 1, mid, hi);
    PathIsTreePath(pair, xs, e, 2 * p, lo, mid, i);
    Exp2IsPower(e);
    JoinLeftPath(pair, xs, e, p, Exp2(e), lo, mid, hi, i);
  }

  lemma {:induction false} RightPathIsTreePath<T>(pair: (T, T) -> T, xs: seq<T>, e: nat, p: nat, lo: nat, mid: nat, hi: nat, i: nat)
    requires lo == Start(2 * p, e) && mid == Start(2 * p + 1, e) && mid - lo == hi - mid == Exp2(e) && hi <= |xs| && mid <= i < hi
    ensures PerfectPath(pair, xs, e + 1, i) == TreePath(pair, xs[lo..hi], i - lo)
    decreases e + 1, 0
  {
    AncestorOfRange(i, e, 2 * p + 1);
    NodeIsTree(pair, xs, e, 2 * p, lo, mid);
    PathIsTreePath(pair, xs, e, 2 * p + 1, mid, hi, i);
    Exp2IsPower(e);
    JoinRightPath(pair, xs, e, p, Exp2(e), lo, mid, hi, i);
  }

  lemma WholeTree<T>(pair: (T, T) -> T, xs: seq<T>, e: nat, i: nat)
    requires |xs| == Exp2(e) && i < |xs|
    ensures NodeAt(pair, xs, e, 0) == TreeRoot(pair, xs)
    ensures PerfectPath(pair, xs, e, i) == TreePath(pair, xs, i)
  {
    StartOfTree(e);
    NodeIsTree(pair, xs, e, 0, 0, |xs|);
    PathIsTreePath(pair, xs, e, 0, 0, |xs|, i);
    assert xs[0..|xs|] == xs;
  }
}
