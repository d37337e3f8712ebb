/** The original proof tree: leaves padded to a power of two by repeating the last one, hashed level by level as hex
    text, without domain separation.  The algorithms work for any hash of two texts.
 */
module LegacyMerkle {
  import opened Bytes
  import opened JsText
  import opened SplitPoint
  import opened PerfectTree

  type PairHash = (JsString, JsString) -> JsString

  type Proof = seq<PathStep<JsString>>

  // ---------- Levels ----------

  /** The least power of two that is not below n. */
  method PaddedSize(n: int) returns (size: int)
    requires 0 < n <= MAX_LEAVES
    ensures size == Exp2(CeilLog2(n))
  {
    size := 1;
    ghost var e := 0;
    MaxLeavesIsPower();
    while size < n
      invariant size == Exp2(e) && 1 <= size <= MAX_LEAVES && (e > 0 ==> Exp2(e - 1) < n)
      decreases n - size
    {
      if e >= 30 {
        Exp2Monotone(30, e);
      }
      Exp2Monotone(e + 1, 30);
      ShiftCases();
      size := ShiftLeft(size);
      e := e + 1;
    }
    CeilLog2Exact(n, e);
  }

  /** A list of the first nodes at height e. */
  ghost predicate AreNodes(pair: PairHash, leaves: seq<JsString>, e: nat, level: seq<JsString>)
    requires leaves != []
  {
    forall p :: 0 <= p < |level| ==> level[p] == NodeAt(pair, leaves, e, p)
  }

  /** All nodes at height e of a tree of the given height: its levels, from the padded leaves to the root. */
  ghost predicate IsLevel(pair: PairHash, leaves: seq<JsString>, height: nat, e: nat, level: seq<JsString>)
    requires leaves != [] && e <= height
  {
    |level| == Exp2(height - e) && AreNodes(pair, leaves, e, level)
  }

  ghost predicate AreLevels(pair: PairHash, leaves: seq<JsString>, levels: seq<seq<JsString>>)
    requires leaves != []
  {
    var height := CeilLog2(|leaves|);
    |levels| == height + 1 && forall e :: 0 <= e <= height ==> IsLevel(pair, leaves, height, e, levels[e])
  }

  /** The list with its last element repeated until it is as long as the least power of two that is not below its
      length. */
  ghost function Padded(hashes: seq<JsString>): (r: seq<JsString>)
    requires hashes != []
    ensures |r| == Exp2(CeilLog2(|hashes|)) && hashes <= r
    ensures forall p :: |hashes| <= p < |r| ==> r[p] == hashes[|hashes| - 1]
  {
    CeilLog2Bounds(|hashes|);
    hashes + seq(Exp2(CeilLog2(|hashes|)) - |hashes|, _ => hashes[|hashes| - 1])
  }

  method Pad(hashes: seq<JsString>) returns (out: seq<JsString>)
    requires 0 < |hashes| <= MAX_LEAVES
    ensures |out| == Exp2(CeilLog2(|hashes|))
    ensures forall p :: 0 <= p < |out| ==> out[p] == At(hashes, p)
    ensures out == Padded(hashes)
  {
    var size := PaddedSize(|hashes|);
    CeilLog2Bounds(|hashes|);
    out := hashes;
    while |out| < size
      invariant |hashes| <= |out| <= size
      invariant forall p :: 0 <= p < |out| ==> out[p] == At(hashes, p)
    {
      out := out + [hashes[|hashes| - 1]];
    }
  }

  method BuildNextLevel(pair: PairHash, ghost leaves: seq<JsString>, ghost e: nat, ghost h: nat, current: seq<JsString>)
    returns (next: seq<JsString>)
    requires leaves != [] && AreNodes(pair, leaves, e, current) && |current| == 2 * h
    ensures AreNodes(pair, leaves, e + 1, next) && |next| == h
  {
    next := [];
    var i := 0;
    while i < |current|
      invariant i == 2 * |next| && i <= |current|
      invariant AreNodes(pair, leaves, e + 1, next)
    {
      NodeStep(pair, leaves, e, |next|);
      next := next + [pair(current[i], current[i + 1])];
      i := i + 2;
    }
  }

  method BuildLevels(pair: PairHash, leaves: seq<JsString>) returns (levels: seq<seq<JsString>>)
    requires 0 < |leaves| <= MAX_LEAVES
    ensures AreLevels(pair, leaves, levels)
  {
    var padded := Pad(leaves);
    levels := [padded];
    var current := padded;
    ghost var height, e := CeilLog2(|leaves|), 0;
    while |current| > 1
      invariant e <= height && |levels| == e + 1 && current == levels[e]
      invariant forall d :: 0 <= d <= e ==> IsLevel(pair, leaves, height, d, levels[d])
      decreases |current|
    {
      assert e < height;
      var next := BuildNextLevel(pair, leaves, e, Exp2(height - (e + 1)), current);
      levels := levels + [next];
      current := next;
      e := e + 1;
    }
  }

  // ---------- Root and proofs ----------

  /** '0' sixty-four times. */
  function ZeroRoot(): JsString {
    seq(64, i => 0x30)
  }

  /** The root by definition: the recursive tree over the padded leaves. */
  function LegacyRoot(pair: PairHash, leaves: seq<JsString>): JsString {
    if leaves == [] then ZeroRoot() else NodeAt(pair, leaves, CeilLog2(|leaves|), 0)
  }

  method ComputeRoot(pair: PairHash, leaves: seq<JsString>) returns (root: JsString)
    requires |leaves| <= MAX_LEAVES
    ensures root == LegacyRoot(pair, leaves)
  {
    if |leaves| == 0 {
      return ZeroRoot();
    }
    var levels := BuildLevels(pair, leaves);
    assert IsLevel(pair, leaves, CeilLog2(|leaves|), CeilLog2(|leaves|), levels[|levels| - 1]);
    root := levels[|levels| - 1][0];
  }

  /** The proof by definition: the siblings on the way up from a leaf. */
  function LegacyProof(pair: PairHash, leaves: seq<JsString>, index: int): Proof
    requires 0 <= index < |leaves|
  {
    PerfectPath(pair, leaves, CeilLog2(|leaves|), index)
  }

  method BuildProof(pair: PairHash, leaves: seq<JsString>, index: int) returns (proof: Option<Proof>)
    requires |leaves| <= MAX_LEAVES
    ensures proof == if 0 <= index < |leaves| then Some(LegacyProof(pair, leaves, index)) else None
  {
    if index < 0 || index >= |leaves| {
      return None;
    }
    var levels := BuildLevels(pair, leaves);
    ghost var height := CeilLog2(|leaves|);
    CeilLog2Bounds(|leaves|);
    var nodes: Proof := [];
    var idx := index;
    for level := 0 to |levels| - 1
      invariant idx == Ancestor(index, level) && nodes == PerfectPath(pair, leaves, level, index)
    {
      assert IsLevel(pair, leaves, height, level, levels[level]);
      TopAncestor(index, level, height - level);
      SiblingInRange(idx, Exp2(height - level - 1));
      var isRightChild := idx % 2 == 1;
      var siblingIdx := if isRightChild then idx - 1 else idx + 1;
      nodes := nodes + [PathStep(levels[level][siblingIdx], isRightChild)];
      idx := idx / 2;
    }
    return Some(nodes);
  }

  lemma SiblingInRange(p: nat, h: nat)
    requires p < 2 * h
    ensures Sibling(p) < 2 * h
  {
  }

  predicate LegacyAccepts(pair: PairHash, leafHash: JsString, proof: Proof, root: JsString) {
    WalkUp(pair, leafHash, proof) == root
  }

  method VerifyProof(pair: PairHash, leafHash: JsString, proof: Proof, root: JsString) returns (accepted: bool)
    ensures accepted <==> LegacyAccepts(pair, leafHash, proof, root)
  {
    var current := leafHash;
    for j := 0 to |proof|
      invariant current == WalkUp(pair, leafHash, proof[..j])
    {
      var node := proof[j];
      current := if node.onLeft then pair(node.sibling, current) else pair(current, node.sibling);
      assert proof[..j + 1][..j] == proof[..j];
    }
    assert proof[..|proof|] == proof;
    return current == root;
  }

  /** A built proof verifies, for every list and index. */
  lemma LegacyComplete(pair: PairHash, leaves: seq<JsString>, index: int)
    requires 0 <= index < |leaves|
    ensures LegacyAccepts(pair, leaves[index], LegacyProof(pair, leaves, index), LegacyRoot(pair, leaves))
  {
    CeilLog2Bounds(|leaves|);
    PathReachesTop(pair, leaves, CeilLog2(|leaves|), index);
  }

  /** Over a power of two of leaves nothing is padded: root and proofs are those of the RFC 6962 shape for the same
      pair hash. */
  lemma SameTreeOnPowers(pair: PairHash, leaves: seq<JsString>, e: nat, index: int)
    requires |leaves| == Exp2(e) && 0 <= index < |leaves|
    ensures LegacyRoot(pair, leaves) == TreeRoot(pair, leaves)
    ensures LegacyProof(pair, leaves, index) == TreePath(pair, leaves, index)
  {
    CeilLog2Exact(Exp2(e), e);
    WholeTree(pair, leaves, e, index);
  }

  lemma {:induction false} SameElementsSameNodes(pair: PairHash, xs: seq<JsString>, ys: seq<JsString>, e: nat, p: nat)
    requires xs != [] && ys != [] && forall j: nat :: At(xs, j) == At(ys, j)
    ensures NodeAt(pair, xs, e, p) == NodeAt(pair, ys, e, p)
    decreases e
  {
    if e > 0 {
      SameElementsSameNodes(pair, xs, ys, e - 1, 2 * p);
      SameElementsSameNodes(pair, xs, ys, e - 1, 2 * p + 1);
    }
  }

  lemma {:induction false} SameElementsSamePath(pair: PairHash, xs: seq<JsString>, ys: seq<JsString>, e: nat, i: nat)
    requires xs != [] && ys != [] && forall j: nat :: At(xs, j) == At(ys, j)
    ensures PerfectPath(pair, xs, e, i) == PerfectPath(pair, ys, e, i)
  {
    if e > 0 {
      SameElementsSamePath(pair, xs, ys, e - 1, i);
      SameElementsSameNodes(pair, xs, ys, e - 1, Sibling(Ancestor(i, e - 1)));
    }
  }

  /** For every list, root and proofs are those of the RFC 6962 shape over the padded list; without leaves the root is
      sixty-four zeros. */
  lemma PaddedTree(pair: PairHash, leaves: seq<JsString>, index: int)
    ensures LegacyRoot(pair, []) == seq(64, i => Text("0")[0])
    ensures leaves != [] ==> LegacyRoot(pair, leaves) == TreeRoot(pair, Padded(leaves))
    ensures 0 <= index < |leaves| ==> LegacyProof(pair, leaves, index) == TreePath(pair, Padded(leaves), index)
  {
    if leaves != [] {
      var e, padded, i := CeilLog2(|leaves|), Padded(leaves), if 0 <= index < |leaves| then index else 0;
      Exp2Monotone(0, e);
      if e > 0 {
        Exp2Monotone(e - 1, e);
      }
      CeilLog2Exact(Exp2(e), e);
      SameElementsSameNodes(pair, leaves, padded, e, 0);
      SameElementsSamePath(pair, leaves, padded, e, i);
      SameTreeOnPowers(pair, padded, e, i);
    }
  }

  // ---------- What an accepted proof shows ----------

  /** sha256(left + right) over the concatenated text. */
  function HashPair(H: Hash, left: JsString, right: JsString): JsString {
    HexEncode(H(Utf8(left + right)))
  }

  function TextPair(H: Hash): PairHash {
    (l: JsString, r: JsString) => HashPair(H, l, r)
  }

  /** Sixty-four ASCII characters, as every hexadecimal hash is. */
  predicate HashText(s: JsString) {
    |s| == 64 && forall c :: c in s ==> c < 0x80
  }

  ghost predicate MakesHashTexts(pair: PairHash) {
    forall l, r :: HashText(pair(l, r))
  }

  lemma TextPairMakesHashTexts(H: Hash)
    ensures MakesHashTexts(TextPair(H))
  {
    forall l: JsString, r: JsString
      ensures HashText(TextPair(H)(l, r))
    {
      HexEncodeDigits(H(Utf8(l + r)));
    }
  }

  /** Two pairs of texts, hashed alike, when one half of the first and both of the second have 64 characters. */
  lemma CutInTheMiddle(a: JsString, b: JsString, l: JsString, r: JsString)
    requires HashText(l) && HashText(r) && (|a| == 64 || |b| == 64)
    requires Utf8(a + b) == Utf8(l + r)
    ensures a == l && b == r
  {
    AsciiPinned(a + b, l + r);
    assert |a + b| == 128;
    assert a == (a + b)[..64] && b == (a + b)[64..];
    assert l == (l + r)[..64] && r == (l + r)[64..];
  }

  lemma NodeIsHashText(pair: PairHash, leaves: seq<JsString>, e: nat, p: nat)
    requires MakesHashTexts(pair) && leaves != [] && forall x :: x in leaves ==> HashText(x)
    ensures HashText(NodeAt(pair, leaves, e, p))
  {
    if e > 0 {
      NodeStep(pair, leaves, e - 1, p);
    }
  }

  lemma WalkedIs64(pair: PairHash, x: JsString, proof: Proof)
    requires MakesHashTexts(pair) && proof != []
    ensures |WalkUp(pair, x, proof)| == 64
  {
    var top, below := proof[|proof| - 1], WalkUp(pair, x, proof[..|proof| - 1]);
    assert HashText(pair(top.sibling, below)) && HashText(pair(below, top.sibling));
  }

  lemma WalkIs64(pair: PairHash, x: JsString, proof: Proof)
    requires MakesHashTexts(pair) && |x| == 64
    ensures |WalkUp(pair, x, proof)| == 64
  {
    if proof != [] {
      WalkedIs64(pair, x, proof);
    }
  }

  /** For any pair hash with such results: an accepted walk is the path of a leaf, or two pairs collide of which one
      half of the first and both of the second have 64 characters. */
  lemma PinnedOrPairsCollide(pair: PairHash, x: JsString, proof: Proof, leaves: seq<JsString>)
    requires MakesHashTexts(pair) && leaves != [] && |x| == 64 && forall y :: y in leaves ==> HashText(y)
    requires WalkUp(pair, x, proof) == NodeAt(pair, leaves, |proof|, 0)
    ensures Pinned(pair, x, proof, leaves, 0) ||
            (proof != [] && var ev := WalkEvidence(pair, x, proof, leaves, 0);
             PairsCollide(pair, ev) && HashText(ev.c) && HashText(ev.d) && (|ev.a| == 64 || |ev.b| == 64))
  {
    WalkSound(pair, x, proof, leaves, 0);
    if !Pinned(pair, x, proof, leaves, 0) {
      var e, q := WalkEvidenceParts(pair, x, proof, leaves, 0, 0);
      NodeIsHashText(pair, leaves, e, 2 * q);
      NodeIsHashText(pair, leaves, e, 2 * q + 1);
      WalkIs64(pair, x, proof[..e]);
    }
  }

  function LegacyEvidence(H: Hash, x: JsString, proof: Proof, leaves: seq<JsString>): Evidence
    requires leaves != []
  {
    if proof == [] then NO_EVIDENCE
    else
      var ev := WalkEvidence(TextPair(H), x, proof, leaves, 0);
      Evidence(Utf8(ev.a + ev.b), Utf8(ev.c + ev.d))
  }

  /** Different pairs with the same hash are a collision of the hash function itself. */
  lemma PairCollisionIsCollision(H: Hash, ev: PairEvidence<JsString>)
    requires PairsCollide(TextPair(H), ev) && HashText(ev.c) && HashText(ev.d) && (|ev.a| == 64 || |ev.b| == 64)
    ensures Collides(H, Evidence(Utf8(ev.a + ev.b), Utf8(ev.c + ev.d)))
  {
    HexRoundTrip(H(Utf8(ev.a + ev.b)));
    HexRoundTrip(H(Utf8(ev.c + ev.d)));
    if Utf8(ev.a + ev.b) == Utf8(ev.c + ev.d) {
      CutInTheMiddle(ev.a, ev.b, ev.c, ev.d);
    }
  }

  /** An accepted proof of exactly the tree's height, for a leaf text of 64 characters, starts from an element of the
      list and is the path of that element's position in the padded list. */
  lemma LegacySound(H: Hash, x: JsString, proof: Proof, leaves: seq<JsString>)
    requires leaves != [] && |x| == 64 && forall y :: y in leaves ==> HashText(y)
    requires |proof| == CeilLog2(|leaves|)
    requires LegacyAccepts(TextPair(H), x, proof, LegacyRoot(TextPair(H), leaves))
    ensures || Collides(H, LegacyEvidence(H, x, proof, leaves))
            || (x in leaves && var i := IndexBelow(proof, 0); x == At(leaves, i) && proof == PerfectPath(TextPair(H), leaves, |proof|, i))
  {
    TextPairMakesHashTexts(H);
    PinnedOrPairsCollide(TextPair(H), x, proof, leaves);
    if !Pinned(TextPair(H), x, proof, leaves, 0) {
      PairCollisionIsCollision(H, WalkEvidence(TextPair(H), x, proof, leaves, 0));
    }
  }

  // ---------- Texts of any length ----------

  /** A text with which another begins or ends. */
  predicate Cut(x: JsString, text: JsString) {
    x <= text || (|x| <= |text| && x == text[|text| - |x|..])
  }

  function PairText(leaves: seq<JsString>, q: nat): JsString
    requires leaves != []
  {
    At(leaves, 2 * q) + At(leaves, 2 * q + 1)
  }

  /** Where two neighbouring padded leaves, written one after the other, begin or end. */
  ghost predicate CutOfPair(x: JsString, leaves: seq<JsString>)
    requires leaves != []
  {
    exists q: nat :: 2 * q + 1 < Exp2(CeilLog2(|leaves|)) && Cut(x, PairText(leaves, q))
  }

  lemma HashTextOfPair(a: JsString, b: JsString, leaves: seq<JsString>, q: nat)
    requires leaves != [] && forall y :: y in leaves ==> HashText(y)
    requires Utf8(a + b) == Utf8(PairText(leaves, q))
    ensures a + b == PairText(leaves, q) && Cut(a, PairText(leaves, q)) && Cut(b, PairText(leaves, q))
  {
    AsciiPinned(a + b, PairText(leaves, q));
    assert b == (a + b)[|a + b| - |b|..];
  }

  /** A collision of pairs at the lowest level is one of the hash function, or splits the same text in two places. */
  lemma LowestCollision(H: Hash, ev: PairEvidence<JsString>, x: JsString, leaves: seq<JsString>, q: nat)
    requires leaves != [] && forall y :: y in leaves ==> HashText(y)
    requires PairsCollide(TextPair(H), ev) && (ev.a == x || ev.b == x)
    requires ev.c == At(leaves, 2 * q) && ev.d == At(leaves, 2 * q + 1)
    ensures Collides(H, Evidence(Utf8(ev.a + ev.b), Utf8(ev.c + ev.d))) || Cut(x, PairText(leaves, q))
  {
    HexRoundTrip(H(Utf8(ev.a + ev.b)));
    HexRoundTrip(H(Utf8(ev.c + ev.d)));
    if Utf8(ev.a + ev.b) == Utf8(ev.c + ev.d) {
      HashTextOfPair(ev.a, ev.b, leaves, q);
    }
  }

  lemma LeafIsCut(leaves: seq<JsString>, i: nat)
    requires leaves != [] && i < Exp2(CeilLog2(|leaves|)) && CeilLog2(|leaves|) > 0
    ensures CutOfPair(At(leaves, i), leaves)
  {
    var q := i / 2;
    assert Exp2(CeilLog2(|leaves|)) == 2 * Exp2(CeilLog2(|leaves|) - 1);
    assert Cut(At(leaves, i), PairText(leaves, q));
  }

  /** A collision of pairs in a walk is at the lowest level, or one half of it has 64 characters. */
  lemma WhereCollides(pair: PairHash, x: JsString, proof: Proof, leaves: seq<JsString>) returns (q: nat)
    requires MakesHashTexts(pair) && leaves != [] && proof != [] && forall y :: y in leaves ==> HashText(y)
    ensures var ev := WalkEvidence(pair, x, proof, leaves, 0);
            || (HashText(ev.c) && HashText(ev.d) && (|ev.a| == 64 || |ev.b| == 64))
            || ((ev.a == x || ev.b == x) && 2 * q + 1 < Exp2(|proof|) && ev.c == At(leaves, 2 * q) && ev.d == At(leaves, 2 * q + 1))
  {
    var e: nat;
    e, q := WalkEvidenceParts(pair, x, proof, leaves, 0, 0);
    if e == 0 {
      assert proof[..0] == [];
    } else {
      NodeIsHashText(pair, leaves, e, 2 * q);
      NodeIsHashText(pair, leaves, e, 2 * q + 1);
      WalkedIs64(pair, x, proof[..e]);
    }
  }

  lemma PinnedIsCut(pair: PairHash, x: JsString, proof: Proof, leaves: seq<JsString>)
    requires |leaves| >= 2 && |proof| == CeilLog2(|leaves|) && Pinned(pair, x, proof, leaves, 0)
    ensures CutOfPair(x, leaves)
  {
    CeilLog2Bounds(|leaves|);
    BelowTop(IndexBelow(proof, 0), |proof|, 0);
    LeafIsCut(leaves, IndexBelow(proof, 0));
  }

  /** Whatever its length, a text with an accepted proof of exactly the tree's height is cut from a pair of
      neighbouring leaves. */
  lemma AcceptedTextIsCut(H: Hash, x: JsString, proof: Proof, leaves: seq<JsString>)
    requires |leaves| >= 2 && forall y :: y in leaves ==> HashText(y)
    requires |proof| == CeilLog2(|leaves|) && LegacyAccepts(TextPair(H), x, proof, LegacyRoot(TextPair(H), leaves))
    ensures Collides(H, LegacyEvidence(H, x, proof, leaves)) || CutOfPair(x, leaves)
  {
    CeilLog2Bounds(|leaves|);
    WalkSound(TextPair(H), x, proof, leaves, 0);
    if Pinned(TextPair(H), x, proof, leaves, 0) {
      PinnedIsCut(TextPair(H), x, proof, leaves);
    } else {
      var ev := WalkEvidence(TextPair(H), x, proof, leaves, 0);
      TextPairMakesHashTexts(H);
      var q := WhereCollides(TextPair(H), x, proof, leaves);
      CollisionOrCut(H, ev, x, leaves, q);
    }
  }

  lemma CollisionOrCut(H: Hash, ev: PairEvidence<JsString>, x: JsString, leaves: seq<JsString>, q: nat)
    requires |leaves| >= 2 && forall y :: y in leaves ==> HashText(y)
    requires PairsCollide(TextPair(H), ev)
    requires || (HashText(ev.c) && HashText(ev.d) && (|ev.a| == 64 || |ev.b| == 64))
             || ((ev.a == x || ev.b == x) && 2 * q + 1 < Exp2(CeilLog2(|leaves|)) && ev.c == At(leaves, 2 * q) && ev.d == At(leaves, 2 * q + 1))
    ensures Collides(H, Evidence(Utf8(ev.a + ev.b), Utf8(ev.c + ev.d))) || CutOfPair(x, leaves)
  {
    if HashText(ev.c) && HashText(ev.d) && (|ev.a| == 64 || |ev.b| == 64) {
      PairCollisionIsCollision(H, ev);
    } else {
      LowestCollision(H, ev, x, leaves, q);
    }
  }

  lemma CutStep(H: Hash, x: JsString, l: JsString, r: JsString) returns (first: PathStep<JsString>)
    requires Cut(x, l + r)
    ensures StepUp(TextPair(H), x, first) == TextPair(H)(l, r)
  {
    var text := l + r;
    if x <= text {
      first := PathStep(text[|x|..], false);
      assert x + text[|x|..] == text;
    } else {
      first := PathStep(text[..|text| - |x|], true);
      assert text[..|text| - |x|] + x == text;
    }
  }

  lemma ClimbFromPair(pair: PairHash, x: JsString, leaves: seq<JsString>, first: PathStep<JsString>, q: nat) returns (proof: Proof)
    requires |leaves| >= 2 && 2 * q + 1 < Exp2(CeilLog2(|leaves|))
    requires StepUp(pair, x, first) == pair(At(leaves, 2 * q), At(leaves, 2 * q + 1))
    ensures |proof| == CeilLog2(|leaves|) && LegacyAccepts(pair, x, proof, LegacyRoot(pair, leaves))
  {
    var e := CeilLog2(|leaves|);
    CeilLog2Bounds(|leaves|);
    NodeStep(pair, leaves, 0, q);
    assert Ancestor(2 * q, 1) == q;
    TopAncestor(2 * q, e, 0);
    proof := FromParent(pair, leaves, first, x, e, 2 * q);
  }

  /** And every such text has one, because the pair hash does not mark where its left text ends.  With
      AcceptedTextIsCut: proofs of the tree's height are accepted for exactly these texts.  Those of 64 characters are
      leaves; the others, the empty text among them, need not be. */
  lemma CutTextIsAccepted(H: Hash, x: JsString, leaves: seq<JsString>) returns (proof: Proof)
    requires |leaves| >= 2 && CutOfPair(x, leaves)
    ensures |proof| == CeilLog2(|leaves|)
    ensures LegacyAccepts(TextPair(H), x, proof, LegacyRoot(TextPair(H), leaves))
  {
    var q: nat :| 2 * q + 1 < Exp2(CeilLog2(|leaves|)) && Cut(x, PairText(leaves, q));
    var first := CutStep(H, x, At(leaves, 2 * q), At(leaves, 2 * q + 1));
    proof := ClimbFromPair(TextPair(H), x, leaves, first, q);
  }

  lemma EmptyTextIsCut(leaves: seq<JsString>)
    requires |leaves| >= 2
    ensures CutOfPair([], leaves)
  {
    CeilLog2Bounds(|leaves|);
    assert Cut([], PairText(leaves, 0));
  }

  lemma CutOf64IsLeaf(x: JsString, leaves: seq<JsString>)
    requires |leaves| >= 2 && |x| == 64 && CutOfPair(x, leaves) && forall y :: y in leaves ==> HashText(y)
    ensures x in leaves
  {
    var q: nat :| 2 * q + 1 < Exp2(CeilLog2(|leaves|)) && Cut(x, PairText(leaves, q));
    var l, r := At(leaves, 2 * q), At(leaves, 2 * q + 1);
    assert |l| == 64 && |r| == 64;
    if x <= l + r {
      assert x == (l + r)[..64] == l;
    } else {
      assert x == (l + r)[64..] == r;
    }
  }

  // ---------- Proofs of any length ----------

  function Height(leaves: seq<JsString>): nat
    requires leaves != []
  {
    CeilLog2(|leaves|)
  }

  /** A proof that is k steps short is a proof of the full height in the tree over the nodes at height k. */
  lemma ShorterProof(pair: PairHash, leaves: seq<JsString>, k: nat, d: nat)
    requires leaves != [] && Height(leaves) == k + d
    ensures var nodes := LevelNodes(pair, leaves, k, d);
            nodes != [] && Height(nodes) == d && LegacyRoot(pair, nodes) == LegacyRoot(pair, leaves)
  {
    Exp2Monotone(0, d);
    if d > 0 {
      Exp2Monotone(d - 1, d);
    }
    CeilLog2Exact(Exp2(d), d);
    UpperPart(pair, leaves, k, d, d, 0);
  }

  lemma NodesAreHashTexts(pair: PairHash, leaves: seq<JsString>, k: nat, d: nat)
    requires MakesHashTexts(pair) && leaves != [] && k >= 1
    ensures forall y :: y in LevelNodes(pair, leaves, k, d) ==> HashText(y)
  {
    var nodes := LevelNodes(pair, leaves, k, d);
    forall p | 0 <= p < |nodes|
      ensures HashText(nodes[p])
    {
      NodeStep(pair, leaves, k - 1, p);
    }
  }

  lemma TopIsRoot(pair: PairHash, leaves: seq<JsString>, k: nat)
    requires leaves != [] && Height(leaves) == k
    ensures LevelNodes(pair, leaves, k, 0) == [LegacyRoot(pair, leaves)]
  {
  }

  /** So the texts with an accepted proof that is too short are exactly those cut from two neighbouring nodes of its
      lowest level; on the top level, where no step is left, only the root. */
  lemma ShortProofsExactly(H: Hash, x: JsString, leaves: seq<JsString>, k: nat, d: nat)
    requires leaves != [] && Height(leaves) == k + d && k >= 1
    ensures var pair := TextPair(H);
            var nodes := LevelNodes(pair, leaves, k, d);
            && nodes != []
            && (d == 0 ==> (LegacyAccepts(pair, x, [], LegacyRoot(pair, leaves)) <==> nodes == [x]))
    ensures d >= 1 ==>
            var pair := TextPair(H);
            var nodes := LevelNodes(pair, leaves, k, d);
            && nodes != []
            && (forall proof: Proof :: |proof| == d && LegacyAccepts(pair, x, proof, LegacyRoot(pair, leaves)) ==>
                  Collides(H, LegacyEvidence(H, x, proof, nodes)) || CutOfPair(x, nodes))
            && (CutOfPair(x, nodes) ==>
                  exists proof: Proof :: |proof| == d && LegacyAccepts(pair, x, proof, LegacyRoot(pair, leaves)))
  {
    var pair := TextPair(H);
    var nodes := LevelNodes(pair, leaves, k, d);
    ShorterProof(pair, leaves, k, d);
    if d == 0 {
      TopIsRoot(pair, leaves, k);
      return;
    }
    TextPairMakesHashTexts(H);
    NodesAreHashTexts(pair, leaves, k, d);
    Exp2Monotone(1, d);
    forall proof: Proof | |proof| == d && LegacyAccepts(pair, x, proof, LegacyRoot(pair, leaves))
      ensures Collides(H, LegacyEvidence(H, x, proof, nodes)) || CutOfPair(x, nodes)
    {
      AcceptedTextIsCut(H, x, proof, nodes);
    }
    if CutOfPair(x, nodes) {
      var proof := CutTextIsAccepted(H, x, nodes);
      assert |proof| == d && LegacyAccepts(pair, x, proof, LegacyRoot(pair, leaves));
    }
  }

  ghost predicate PathOfSome(pair: PairHash, y: JsString, proof: Proof, leaves: seq<JsString>)
    requires leaves != []
  {
    exists i: nat :: i < Exp2(Height(leaves)) && At(leaves, i) == y && proof == PerfectPath(pair, leaves, Height(leaves), i)
  }

  lemma PathOfSomeAccepted(pair: PairHash, y: JsString, proof: Proof, leaves: seq<JsString>)
    requires leaves != [] && PathOfSome(pair, y, proof, leaves)
    ensures LegacyAccepts(pair, y, proof, LegacyRoot(pair, leaves))
  {
    var i: nat :| i < Exp2(Height(leaves)) && At(leaves, i) == y && proof == PerfectPath(pair, leaves, Height(leaves), i);
    TopAncestor(i, Height(leaves), 0);
    PathReachesNode(pair, leaves, Height(leaves), i);
  }

  lemma PathFrom(pair: PairHash, y: JsString, proof: Proof, leaves: seq<JsString>, i: nat)
    requires leaves != [] && i < Exp2(Height(leaves))
    requires At(leaves, i) == y && proof == PerfectPath(pair, leaves, Height(leaves), i)
    ensures PathOfSome(pair, y, proof, leaves)
  {
  }

  lemma FullPathSound(H: Hash, y: JsString, proof: Proof, leaves: seq<JsString>)
    requires leaves != [] && |y| == 64 && forall z :: z in leaves ==> HashText(z)
    requires |proof| == Height(leaves) && LegacyAccepts(TextPair(H), y, proof, LegacyRoot(TextPair(H), leaves))
    ensures Collides(H, LegacyEvidence(H, y, proof, leaves)) || PathOfSome(TextPair(H), y, proof, leaves)
  {
    TextPairMakesHashTexts(H);
    PinnedOrPairsCollide(TextPair(H), y, proof, leaves);
    if Pinned(TextPair(H), y, proof, leaves, 0) {
      BelowTop(IndexBelow(proof, 0), |proof|, 0);
      PathFrom(TextPair(H), y, proof, leaves, IndexBelow(proof, 0));
    } else {
      PairCollisionIsCollision(H, WalkEvidence(TextPair(H), y, proof, leaves, 0));
    }
  }

  lemma FirstSteps(pair: PairHash, x: JsString, proof: Proof, j: nat, root: JsString)
    requires MakesHashTexts(pair) && 1 <= j <= |proof|
    ensures |WalkUp(pair, x, proof[..j])| == 64
    ensures LegacyAccepts(pair, x, proof, root) <==> LegacyAccepts(pair, WalkUp(pair, x, proof[..j]), proof[j..], root)
  {
    WalkSplit(pair, x, proof, j);
    WalkedIs64(pair, x, proof[..j]);
  }

  /** A proof that is j steps too long is accepted exactly when its first j steps lead to the text of a leaf and the
      others are that leaf's path: a leaf that is itself the hash of two texts can be opened further. */
  lemma LongProofsExactly(H: Hash, x: JsString, proof: Proof, leaves: seq<JsString>, j: nat)
    requires leaves != [] && |proof| == j + Height(leaves) && j >= 1 && forall z :: z in leaves ==> HashText(z)
    ensures var y, rest := WalkUp(TextPair(H), x, proof[..j]), proof[j..];
            || Collides(H, LegacyEvidence(H, y, rest, leaves))
            || (LegacyAccepts(TextPair(H), x, proof, LegacyRoot(TextPair(H), leaves)) <==> PathOfSome(TextPair(H), y, rest, leaves))
  {
    var y, rest := WalkUp(TextPair(H), x, proof[..j]), proof[j..];
    TextPairMakesHashTexts(H);
    FirstSteps(TextPair(H), x, proof, j, LegacyRoot(TextPair(H), leaves));
    if LegacyAccepts(TextPair(H), y, rest, LegacyRoot(TextPair(H), leaves)) {
      FullPathSound(H, y, rest, leaves);
    } else if PathOfSome(TextPair(H), y, rest, leaves) {
      PathOfSomeAccepted(TextPair(H), y, rest, leaves);
    }
  }
}
