/** What the RFC 6962 verifiers accept: everything the provers make, and nothing else unless the hash is broken. */
module Rfc6962Proofs {
  import opened Bytes
  import opened JsText
  import opened SplitPoint
  import opened Rfc6962

  // ---------- The definitions of RFC 6962, byte for byte ----------

  /** MTH of section 2.1, for any power of two k with k < n <= 2k. */
  lemma TreeHash(H: Hash, D: seq<ByteSeq>, k: int)
    ensures D == [] ==> Mth(H, D) == H([])
    ensures |D| == 1 ==> Mth(H, D) == H([0x00] + D[0])
    ensures PowerOfTwo(k) && 0 < k < |D| <= 2 * k ==> Mth(H, D) == H([0x01] + Mth(H, D[..k]) + Mth(H, D[k..]))
  {
    if PowerOfTwo(k) && 0 < k < |D| <= 2 * k {
      SplitUnique(|D|, k);
    }
  }

  /** PATH of section 2.1.1, from the leaf up, with the side of each sibling. */
  lemma AuditPathEquations(H: Hash, i: int, D: seq<ByteSeq>, k: int)
    requires 0 <= i < |D|
    ensures |D| == 1 ==> AuditPath(H, i, D) == []
    ensures PowerOfTwo(k) && 0 < k < |D| <= 2 * k ==>
              AuditPath(H, i, D) == if i < k then AuditPath(H, i, D[..k]) + [Step(Mth(H, D[k..]), false)]
                                    else AuditPath(H, i - k, D[k..]) + [Step(Mth(H, D[..k]), true)]
  {
    if PowerOfTwo(k) && 0 < k < |D| <= 2 * k {
      SplitUnique(|D|, k);
    }
  }

  /** PROOF and SUBPROOF of section 2.1.2. */
  lemma ConsistencyProofEquations(H: Hash, m: int, D: seq<ByteSeq>, b: bool, k: int)
    requires 0 < m <= |D|
    ensures m < |D| ==> ConsistencyProof(H, m, D) == Subproof(H, m, D, true)
    ensures m == |D| ==> Subproof(H, m, D, b) == if b then [] else [Mth(H, D)]
    ensures PowerOfTwo(k) && 0 < k < |D| <= 2 * k && m < |D| ==>
              Subproof(H, m, D, b) == if m <= k then Subproof(H, m, D[..k], b) + [Mth(H, D[k..])]
                                      else Subproof(H, m - k, D[k..], false) + [Mth(H, D[..k])]
  {
    if PowerOfTwo(k) && 0 < k < |D| <= 2 * k {
      SplitUnique(|D|, k);
    }
  }

  // ---------- The root determines the leaves ----------

  /** What is hashed to give the root. */
  function RootInput(H: Hash, D: seq<ByteSeq>): (r: ByteSeq)
    ensures H(r) == Mth(H, D)
  {
    if |D| == 0 then []
    else if |D| == 1 then LeafInput(D[0])
    else NodeInput(Mth(H, D[..Split(|D|)]), Mth(H, D[Split(|D|)..]))
  }

  lemma NodeInputInjective(a: Digest, b: Digest, c: Digest, d: Digest)
    requires NodeInput(a, b) == NodeInput(c, d)
    ensures a == c && b == d
  {
    assert a == NodeInput(a, b)[1..33] && b == NodeInput(a, b)[33..];
    assert c == NodeInput(c, d)[1..33] && d == NodeInput(c, d)[33..];
  }

  lemma MthStep(H: Hash, D: seq<ByteSeq>)
    requires |D| >= 2
    ensures Mth(H, D) == HashChildren(H, Mth(H, D[..Split(|D|)]), Mth(H, D[Split(|D|)..]))
  {
  }

  /** A collision between two lists of leaves, of any two sizes, with the same root. */
  function RootEvidence(H: Hash, D: seq<ByteSeq>, E: seq<ByteSeq>): Evidence
    decreases |D|
  {
    if |D| < 2 || |E| < 2 || RootInput(H, D) != RootInput(H, E) then Evidence(RootInput(H, D), RootInput(H, E))
    else
      var j, k := Split(|D|), Split(|E|);
      if D[..j] != E[..k] then RootEvidence(H, D[..j], E[..k]) else RootEvidence(H, D[j..], E[k..])
  }

  lemma {:induction false} RootPinsLeaves(H: Hash, D: seq<ByteSeq>, E: seq<ByteSeq>)
    requires Mth(H, D) == Mth(H, E)
    ensures D == E || Collides(H, RootEvidence(H, D, E))
    decreases |D|
  {
    if D != E {
      if |D| < 2 || |E| < 2 {
        SmallRootsDiffer(H, D, E);
      } else if RootInput(H, D) == RootInput(H, E) {
        var j, k := Split(|D|), Split(|E|);
        NodeInputInjective(Mth(H, D[..j]), Mth(H, D[j..]), Mth(H, E[..k]), Mth(H, E[k..]));
        assert D == D[..j] + D[j..] && E == E[..k] + E[k..];
        if D[..j] != E[..k] {
          RootPinsLeaves(H, D[..j], E[..k]);
        } else {
          RootPinsLeaves(H, D[j..], E[k..]);
        }
      }
    }
  }

  /** The prefix bytes keep the empty tree, a leaf and an inner node apart. */
  lemma SmallRootsDiffer(H: Hash, D: seq<ByteSeq>, E: seq<ByteSeq>)
    requires D != E && (|D| < 2 || |E| < 2)
    ensures RootInput(H, D) != RootInput(H, E)
  {
    if |D| == 1 && |E| == 1 {
      assert D == [D[0]] && E == [E[0]];
      assert RootInput(H, D)[1..] == D[0] && RootInput(H, E)[1..] == E[0];
    }
    if |D| == 0 || |E| == 0 {
      assert |D| + |E| > 0;
    }
  }

  // ---------- Consistency: completeness ----------

  lemma SplitSlices<T>(D: seq<T>, m: int, k: int)
    requires 0 <= k <= |D| && 0 <= m <= |D|
    ensures m <= k ==> D[..k][..m] == D[..m]
    ensures k <= m ==> D[..m][..k] == D[..k] && D[..m][k..] == D[k..][..m - k]
  {
  }

  /** The root of a prefix that reaches into the right part. */
  lemma MthOfPrefix(H: Hash, D: seq<ByteSeq>, m: int)
    requires |D| >= 2 && Split(|D|) < m <= |D|
    ensures var k := Split(|D|);
            Mth(H, D[..m]) == HashChildren(H, Mth(H, D[..k]), Mth(H, D[k..][..m - k]))
  {
    SplitOfPrefix(m, |D|);
    SplitSlices(D, m, Split(|D|));
  }

  /** The side of an inner node that holds the edge of the old tree, and the old tree's size and flag there. */
  function BelowLeaves(m: int, D: seq<ByteSeq>): (r: seq<ByteSeq>)
    requires 0 < m < |D|
    ensures |r| == BelowTotal(m, |D|)
  {
    if m <= Split(|D|) then D[..Split(|D|)] else D[Split(|D|)..]
  }

  function BelowTotal(m: int, n: int): (r: int)
    requires 0 < m < n
    ensures BelowSize(m, n) <= r < n
  {
    if m <= Split(n) then Split(n) else n - Split(n)
  }

  function BelowSize(m: int, n: int): (r: int)
    requires 0 < m < n
    ensures 0 < r
  {
    if m <= Split(n) then m else m - Split(n)
  }

  predicate BelowFlag(m: int, n: int, b: bool)
    requires 0 < m < n
  {
    b && m <= Split(n)
  }

  /** The root of the other side, which the proof pins. */
  function Pinned(H: Hash, m: int, D: seq<ByteSeq>): Digest
    requires 0 < m < |D|
  {
    if m <= Split(|D|) then Mth(H, D[Split(|D|)..]) else Mth(H, D[..Split(|D|)])
  }

  lemma ProofStep(H: Hash, m: int, D: seq<ByteSeq>, b: bool)
    requires 0 < m < |D|
    ensures Subproof(H, m, D, b)
         == Subproof(H, BelowSize(m, |D|), BelowLeaves(m, D), BelowFlag(m, |D|, b)) + [Pinned(H, m, D)]
  {
  }

  /** The cursor walk at an inner node: the walk below it, then one more node. */
  function BelowWalk(H: Hash, m: int, n: int, b: bool, items: seq<ByteSeq>, i: nat, firstRoot: Digest): (w: Walk)
    requires 0 < m < n && i <= |items|
    ensures w.Roots? ==> i <= w.next <= |items|
  {
    Subverify(H, BelowSize(m, n), BelowTotal(m, n), BelowFlag(m, n, b), items, i, firstRoot)
  }

  function Join(H: Hash, m: int, n: int, w: Walk, node: Digest): Walk
    requires 0 < m < n && w.Roots?
  {
    if m <= Split(n) then Roots(w.oldRoot, HashChildren(H, w.newRoot, node), w.next + 1)
    else Roots(HashChildren(H, node, w.oldRoot), HashChildren(H, node, w.newRoot), w.next + 1)
  }

  lemma WalkStep(H: Hash, m: int, n: int, b: bool, items: seq<ByteSeq>, i: nat, firstRoot: Digest)
    requires 0 < m < n && i <= |items|
    ensures var w := BelowWalk(H, m, n, b, items, i, firstRoot);
              Subverify(H, m, n, b, items, i, firstRoot)
              == if w.Thrown? || w.next == |items| || |items[w.next]| != 32 then Thrown
                 else Join(H, m, n, w, items[w.next])
  {
  }

  /** The roots of the old and the new tree at a node, from those on the side below it and the pinned root. */
  lemma OldRootStep(H: Hash, m: int, D: seq<ByteSeq>)
    requires 0 < m < |D|
    ensures var below := Mth(H, BelowLeaves(m, D)[..BelowSize(m, |D|)]);
            Mth(H, D[..m]) == if m <= Split(|D|) then below else HashChildren(H, Pinned(H, m, D), below)
  {
    if m <= Split(|D|) {
      SplitSlices(D, m, Split(|D|));
    } else {
      MthOfPrefix(H, D, m);
    }
  }

  lemma NewRootStep(H: Hash, m: int, D: seq<ByteSeq>)
    requires 0 < m < |D|
    ensures var below := Mth(H, BelowLeaves(m, D));
              Mth(H, D) == if m <= Split(|D|) then HashChildren(H, below, Pinned(H, m, D))
                           else HashChildren(H, Pinned(H, m, D), below)
  {
    MthStep(H, D);
  }

  lemma JoinRoots(H: Hash, m: int, D: seq<ByteSeq>, next: nat)
    requires 0 < m < |D|
    ensures var E := BelowLeaves(m, D);
              Join(H, m, |D|, Roots(Mth(H, E[..BelowSize(m, |D|)]), Mth(H, E), next), Pinned(H, m, D))
              == Roots(Mth(H, D[..m]), Mth(H, D), next + 1)
  {
    OldRootStep(H, m, D);
    NewRootStep(H, m, D);
  }

  lemma PrefixAt<T>(p: seq<T>, x: T, items: seq<T>, i: nat)
    requires i <= |items| && p + [x] <= items[i..]
    ensures p <= items[i..] && i + |p| < |items| && items[i + |p|] == x
  {
    assert (p + [x])[|p|] == items[i..][|p|];
    assert p == (p + [x])[..|p|] == items[i..][..|p|];
  }

  /** Run on the prover's output followed by anything, the cursor walk consumes exactly that output and returns
      both roots. */
  lemma {:induction false} SubverifyComplete(H: Hash, m: int, D: seq<ByteSeq>, b: bool, items: seq<ByteSeq>, i: nat,
                                             firstRoot: Digest)
    requires 0 < m <= |D|
    requires b ==> firstRoot == Mth(H, D[..m])
    requires i <= |items| && Subproof(H, m, D, b) <= items[i..]
    ensures Subverify(H, m, |D|, b, items, i, firstRoot)
         == Roots(Mth(H, D[..m]), Mth(H, D), i + |Subproof(H, m, D, b)|)
    decreases |D|
  {
    if m == |D| {
      assert D[..m] == D;
      assert !b ==> [Mth(H, D)][0] == items[i..][0];
    } else {
      ProofStep(H, m, D, b);
      WalkStep(H, m, |D|, b, items, i, firstRoot);
      var E, k, f := BelowLeaves(m, D), BelowSize(m, |D|), BelowFlag(m, |D|, b);
      PrefixAt(Subproof(H, k, E, f), Pinned(H, m, D), items, i);
      if f {
        SplitSlices(D, m, Split(|D|));
      }
      SubverifyComplete(H, k, E, f, items, i, firstRoot);
      JoinRoots(H, m, D, i + |Subproof(H, k, E, f)|);
    }
  }

  lemma {:induction false} SubproofLength(H: Hash, m: int, D: seq<ByteSeq>, b: bool)
    requires 0 < m <= |D|
    ensures |Subproof(H, m, D, b)| <= CeilLog2(|D|) + 1
    decreases |D|
  {
    if m < |D| {
      var k := Split(|D|);
      CeilLog2OfSplit(|D|);
      if m <= k {
        SubproofLength(H, m, D[..k], b);
      } else {
        SubproofLength(H, m - k, D[k..], false);
      }
    }
  }

  // ---------- Consistency: soundness ----------

  /** What the walk hashes to get the new root of an inner node. */
  function WalkInput(m: int, n: int, w: Walk, node: Digest): ByteSeq
    requires 0 < m < n && w.Roots?
  {
    if m <= Split(n) then NodeInput(w.newRoot, node) else NodeInput(node, w.newRoot)
  }

  /** A collision found by comparing what the verifier hashed with what the tree over D hashes. */
  function SubverifyEvidence(H: Hash, m: int, D: seq<ByteSeq>, b: bool, items: seq<ByteSeq>, i: nat, firstRoot: Digest): Evidence
    requires 0 < m <= |D| && i <= |items|
    decreases |D|
  {
    if m == |D| then NO_EVIDENCE
    else
      var w := BelowWalk(H, m, |D|, b, items, i, firstRoot);
      if w.Thrown? || w.next == |items| || |items[w.next]| != 32 then NO_EVIDENCE
      else if WalkInput(m, |D|, w, items[w.next]) != RootInput(H, D) then
        Evidence(WalkInput(m, |D|, w, items[w.next]), RootInput(H, D))
      else SubverifyEvidence(H, BelowSize(m, |D|), BelowLeaves(m, D), BelowFlag(m, |D|, b), items, i, firstRoot)
  }

  lemma EqualInputs(H: Hash, m: int, D: seq<ByteSeq>, w: Walk, node: Digest)
    requires 0 < m < |D| && w.Roots? && WalkInput(m, |D|, w, node) == RootInput(H, D)
    ensures node == Pinned(H, m, D) && w.newRoot == Mth(H, BelowLeaves(m, D))
  {
    var k := Split(|D|);
    if m <= k {
      NodeInputInjective(w.newRoot, node, Mth(H, D[..k]), Mth(H, D[k..]));
    } else {
      NodeInputInjective(node, w.newRoot, Mth(H, D[..k]), Mth(H, D[k..]));
    }
  }

  lemma SliceStep<T>(items: seq<T>, i: int, j: int)
    requires 0 <= i <= j < |items|
    ensures items[i..j + 1] == items[i..j] + [items[j]]
  {
  }

  /** A walk that ends in the root of D consumed the prover's proof and rebuilt the root of the first m leaves, or the
      hash is broken. */
  lemma {:induction false} SubverifySound(H: Hash, m: int, D: seq<ByteSeq>, b: bool, items: seq<ByteSeq>, i: nat,
                                          firstRoot: Digest)
    requires 0 < m <= |D| && i <= |items|
    requires var w := Subverify(H, m, |D|, b, items, i, firstRoot); w.Roots? && w.newRoot == Mth(H, D)
    ensures var w := Subverify(H, m, |D|, b, items, i, firstRoot);
            || Collides(H, SubverifyEvidence(H, m, D, b, items, i, firstRoot))
            || (items[i..w.next] == Subproof(H, m, D, b) && w.oldRoot == Mth(H, D[..m]))
    decreases |D|
  {
    if m == |D| {
      assert D[..m] == D;
    } else {
      WalkStep(H, m, |D|, b, items, i, firstRoot);
      var w := BelowWalk(H, m, |D|, b, items, i, firstRoot);
      var node: Digest := items[w.next];
      if WalkInput(m, |D|, w, node) == RootInput(H, D) {
        EqualInputs(H, m, D, w, node);
        SubverifySound(H, BelowSize(m, |D|), BelowLeaves(m, D), BelowFlag(m, |D|, b), items, i, firstRoot);
        SliceStep(items, i, w.next);
        ProofStep(H, m, D, b);
        JoinRoots(H, m, D, w.next);
      } else {
        assert H(WalkInput(m, |D|, w, node)) == H(RootInput(H, D));
      }
    }
  }

  // ---------- Consistency on the wire ----------

  lemma DecodeEncodeAll(digests: seq<Digest>)
    ensures DecodeAll(EncodeAll(digests)) == digests
  {
    forall j | 0 <= j < |digests|
      ensures DecodeAll(EncodeAll(digests))[j] == digests[j]
    {
      HexRoundTrip(digests[j]);
    }
  }

  function ConsistencyEvidence(H: Hash, first: int, D: seq<ByteSeq>, firstRootHex: JsString, proofHex: seq<HexArg>): Evidence
  {
    if 0 < first < |D| && |HexDecode(firstRootHex)| == 32 then
      SubverifyEvidence(H, first, D, true, DecodeArgs(proofHex), 0, HexDecode(firstRootHex))
    else NO_EVIDENCE
  }

  /** What the first root must be: anything for the empty tree, the text of the second one for the same tree, and else
      the root of the first leaves. */
  ghost predicate FirstRootFits(H: Hash, first: int, D: seq<ByteSeq>, firstRootHex: JsString, secondRootHex: JsString)
    requires 0 <= first <= |D|
  {
    if first == 0 then true
    else if first == |D| then firstRootHex == secondRootHex
    else HexDecode(firstRootHex) == Mth(H, D[..first])
  }

  /** Consistency verification is exact: against the root of D, precisely the root of the first leaves and the bytes
      of the prover's proof are accepted, for all sizes. */
  lemma ConsistencyExact(H: Hash, first: int, D: seq<ByteSeq>, firstRootHex: JsString, secondRootHex: JsString,
                         proofHex: seq<HexArg>)
    requires 0 <= first <= |D|
    requires HexDecode(secondRootHex) == Mth(H, D)
    ensures || Collides(H, ConsistencyEvidence(H, first, D, firstRootHex, proofHex))
            || (ConsistencyAccepts(H, first, |D|, firstRootHex, secondRootHex, proofHex)
                <==> FirstRootFits(H, first, D, firstRootHex, secondRootHex) && DecodeArgs(proofHex) == ConsistencyProof(H, first, D))
  {
    if 0 < first < |D| {
      InnerConsistencyExact(H, first, D, firstRootHex, secondRootHex, proofHex);
    } else {
      assert |DecodeArgs(proofHex)| == |proofHex|;
    }
  }

  lemma InnerConsistencyExact(H: Hash, first: int, D: seq<ByteSeq>, firstRootHex: JsString, secondRootHex: JsString,
                              proofHex: seq<HexArg>)
    requires 0 < first < |D|
    requires HexDecode(secondRootHex) == Mth(H, D)
    ensures || Collides(H, ConsistencyEvidence(H, first, D, firstRootHex, proofHex))
            || (ConsistencyAccepts(H, first, |D|, firstRootHex, secondRootHex, proofHex)
                <==> HexDecode(firstRootHex) == Mth(H, D[..first]) && DecodeArgs(proofHex) == ConsistencyProof(H, first, D))
  {
    var items := DecodeArgs(proofHex);
    if ConsistencyAccepts(H, first, |D|, firstRootHex, secondRootHex, proofHex) {
      SubverifySound(H, first, D, true, items, 0, HexDecode(firstRootHex));
      assert items[0..|items|] == items;
    }
    if HexDecode(firstRootHex) == Mth(H, D[..first]) && items == ConsistencyProof(H, first, D) {
      assert items[0..] == items;
      SubverifyComplete(H, first, D, true, items, 0, HexDecode(firstRootHex));
    }
  }

  /** The walk takes only nodes of 32 bytes. */
  lemma {:induction false} SubverifyTakesDigests(H: Hash, m: int, n: int, b: bool, items: seq<ByteSeq>, i: nat, firstRoot: Digest)
    requires 0 < m <= n && i <= |items| && Subverify(H, m, n, b, items, i, firstRoot).Roots?
    ensures forall j :: i <= j < Subverify(H, m, n, b, items, i, firstRoot).next ==> |items[j]| == 32
    decreases n
  {
    if m < n {
      WalkStep(H, m, n, b, items, i, firstRoot);
      SubverifyTakesDigests(H, BelowSize(m, n), BelowTotal(m, n), BelowFlag(m, n, b), items, i, firstRoot);
    }
  }

  /** Whatever the roots are: sizes out of order, a proof where none is due, a root or a node that is not 32 bytes, and
      more nodes than the tree has levels and one are never accepted. */
  lemma AcceptedConsistencyShape(H: Hash, first: int, second: int, firstRootHex: JsString, secondRootHex: JsString,
                                 proofHex: seq<HexArg>)
    requires ConsistencyAccepts(H, first, second, firstRootHex, secondRootHex, proofHex)
    ensures 0 <= first <= second
    ensures first == 0 || first == second ==> proofHex == []
    ensures 0 < first == second ==> firstRootHex == secondRootHex
    ensures 0 < first < second ==> && |HexDecode(firstRootHex)| == 32 && |HexDecode(secondRootHex)| == 32
                                   && (forall j :: 0 <= j < |proofHex| ==> |BufferFrom(proofHex[j])| == 32)
                                   && 1 <= |proofHex| <= CeilLog2(second) + 1
  {
    if 0 < first < second {
      var items := DecodeArgs(proofHex);
      SubverifyTakesDigests(H, first, second, true, items, 0, HexDecode(firstRootHex));
      SubverifyLength(H, first, second, true, items, 0, HexDecode(firstRootHex));
      forall j | 0 <= j < |proofHex|
        ensures |BufferFrom(proofHex[j])| == 32
      {
        assert items[j] == BufferFrom(proofHex[j]);
      }
    }
  }

  lemma {:induction false} SubverifyLength(H: Hash, m: int, n: int, b: bool, items: seq<ByteSeq>, i: nat, firstRoot: Digest)
    requires 0 < m <= n && i <= |items| && Subverify(H, m, n, b, items, i, firstRoot).Roots?
    ensures Subverify(H, m, n, b, items, i, firstRoot).next <= i + CeilLog2(n) + 1
    ensures m < n ==> Subverify(H, m, n, b, items, i, firstRoot).next > i
    decreases n
  {
    if m < n {
      WalkStep(H, m, n, b, items, i, firstRoot);
      SubverifyLength(H, BelowSize(m, n), BelowTotal(m, n), BelowFlag(m, n, b), items, i, firstRoot);
      CeilLog2OfSplit(n);
    }
  }

  /** What the prover makes from the leaves is accepted, for every pair of sizes. */
  lemma ConsistencyComplete(H: Hash, first: int, leafHexes: seq<JsString>)
    requires 0 <= first <= |leafHexes|
    ensures ConsistencyProofHex(H, first, leafHexes).Ok?
    ensures ConsistencyAccepts(H, first, |leafHexes|, RootHex(H, leafHexes[..first]), RootHex(H, leafHexes),
                               Texts(ConsistencyProofHex(H, first, leafHexes).value))
  {
    var D := DecodeAll(leafHexes);
    assert DecodeAll(leafHexes[..first]) == D[..first];
    assert leafHexes[..|leafHexes|] == leafHexes;
    HexRoundTrip(Mth(H, D[..first]));
    HexRoundTrip(Mth(H, D));
    DecodeEncodeAll(ConsistencyProof(H, first, D));
    if 0 < first < |D| {
      var items := ConsistencyProof(H, first, D);
      assert items[0..] == items;
      SubverifyComplete(H, first, D, true, items, 0, Mth(H, D[..first]));
    }
  }

  function PrefixEvidence(H: Hash, older: seq<ByteSeq>, D: seq<ByteSeq>, firstRootHex: JsString, proofHex: seq<HexArg>): Evidence {
    if |older| <= |D| then
      Either(H, ConsistencyEvidence(H, |older|, D, firstRootHex, proofHex), RootEvidence(H, older, D[..|older|]))
    else NO_EVIDENCE
  }

  /** An accepted older tree is a prefix of the newer one: no leaf was rewritten, dropped or reordered. */
  lemma AcceptedOlderTreeIsPrefix(H: Hash, older: seq<ByteSeq>, D: seq<ByteSeq>, firstRootHex: JsString,
                                  secondRootHex: JsString, proofHex: seq<HexArg>)
    requires HexEncode(Mth(H, older)) == firstRootHex && HexEncode(Mth(H, D)) == secondRootHex
    requires ConsistencyAccepts(H, |older|, |D|, firstRootHex, secondRootHex, proofHex)
    ensures older <= D || Collides(H, PrefixEvidence(H, older, D, firstRootHex, proofHex))
  {
    HexRoundTrip(Mth(H, older));
    HexRoundTrip(Mth(H, D));
    var m := |older|;
    assert D[..|D|] == D;
    if m > 0 {
      if m < |D| {
        ConsistencyExact(H, m, D, firstRootHex, secondRootHex, proofHex);
      }
      if HexDecode(firstRootHex) == Mth(H, D[..m]) {
        RootPinsLeaves(H, older, D[..m]);
      }
    }
  }

  // ---------- Inclusion ----------

  lemma {:induction false} ClimbAuditPath(H: Hash, i: int, D: seq<ByteSeq>)
    requires 0 <= i < |D|
    ensures Climb(H, HashLeaf(H, D[i]), AuditPath(H, i, D)) == Mth(H, D)
    decreases |D|
  {
    if |D| > 1 {
      var k := Split(|D|);
      var path := AuditPath(H, i, D);
      if i < k {
        assert path[..|path| - 1] == AuditPath(H, i, D[..k]);
        ClimbAuditPath(H, i, D[..k]);
      } else {
        assert path[..|path| - 1] == AuditPath(H, i - k, D[k..]);
        ClimbAuditPath(H, i - k, D[k..]);
      }
    }
  }

  lemma {:induction false} AuditPathLength(H: Hash, i: int, D: seq<ByteSeq>)
    requires 0 <= i < |D|
    ensures |AuditPath(H, i, D)| <= CeilLog2(|D|)
    decreases |D|
  {
    if |D| > 1 {
      var k := Split(|D|);
      CeilLog2OfSplit(|D|);
      if i < k {
        AuditPathLength(H, i, D[..k]);
      } else {
        AuditPathLength(H, i - k, D[k..]);
      }
    }
  }

  /** What is hashed last when climbing a path from the hash of a leaf. */
  function ClimbInput(H: Hash, x: ByteSeq, path: seq<Step>): (r: ByteSeq)
    ensures H(r) == Climb(H, HashLeaf(H, x), path)
  {
    if path == [] then LeafInput(x)
    else
      var top := path[|path| - 1];
      var below := Climb(H, HashLeaf(H, x), path[..|path| - 1]);
      if top.onLeft then NodeInput(top.sibling, below) else NodeInput(below, top.sibling)
  }

  /** The leaf position that the sides of a path encode in a tree of the given size. */
  function PathIndex(path: seq<Step>, n: int): (i: int)
    requires n >= 1
    ensures 0 <= i < n
    decreases n
  {
    if n == 1 || path == [] then 0
    else
      var below := path[..|path| - 1];
      if path[|path| - 1].onLeft then Split(n) + PathIndex(below, n - Split(n)) else PathIndex(below, Split(n))
  }

  function ClimbEvidence(H: Hash, x: ByteSeq, path: seq<Step>, D: seq<ByteSeq>): Evidence
    decreases |D|
  {
    if ClimbInput(H, x, path) != RootInput(H, D) then Evidence(ClimbInput(H, x, path), RootInput(H, D))
    else if |D| < 2 || path == [] then NO_EVIDENCE
    else
      var below := path[..|path| - 1];
      if path[|path| - 1].onLeft then ClimbEvidence(H, x, below, D[Split(|D|)..]) else ClimbEvidence(H, x, below, D[..Split(|D|)])
  }

  ghost predicate ClimbPinned(H: Hash, x: ByteSeq, path: seq<Step>, D: seq<ByteSeq>) {
    || Collides(H, ClimbEvidence(H, x, path, D))
    || (D != [] && D[PathIndex(path, |D|)] == x && path == AuditPath(H, PathIndex(path, |D|), D))
  }

  lemma ClimbSoundAtNode(H: Hash, x: ByteSeq, path: seq<Step>, D: seq<ByteSeq>)
    requires |D| >= 2 && path != [] && ClimbInput(H, x, path) == RootInput(H, D)
    ensures var k, top, under := Split(|D|), path[|path| - 1], Climb(H, HashLeaf(H, x), path[..|path| - 1]);
            if top.onLeft then top.sibling == Mth(H, D[..k]) && under == Mth(H, D[k..])
            else top.sibling == Mth(H, D[k..]) && under == Mth(H, D[..k])
  {
    var k, top, under := Split(|D|), path[|path| - 1], Climb(H, HashLeaf(H, x), path[..|path| - 1]);
    if top.onLeft {
      NodeInputInjective(top.sibling, under, Mth(H, D[..k]), Mth(H, D[k..]));
    } else {
      NodeInputInjective(under, top.sibling, Mth(H, D[..k]), Mth(H, D[k..]));
    }
  }

  lemma PathStep(H: Hash, path: seq<Step>, D: seq<ByteSeq>)
    requires |D| >= 2 && path != []
    requires path[|path| - 1].sibling == if path[|path| - 1].onLeft then Mth(H, D[..Split(|D|)]) else Mth(H, D[Split(|D|)..])
    ensures var k, below := Split(|D|), path[..|path| - 1];
            var E := if path[|path| - 1].onLeft then D[k..] else D[..k];
            && PathIndex(path, |D|) == PathIndex(below, |E|) + (if path[|path| - 1].onLeft then k else 0)
            && D[PathIndex(path, |D|)] == E[PathIndex(below, |E|)]
            && (below == AuditPath(H, PathIndex(below, |E|), E) ==> path == AuditPath(H, PathIndex(path, |D|), D))
  {
    assert path == path[..|path| - 1] + [path[|path| - 1]];
  }

  lemma ClimbPinnedStep(H: Hash, x: ByteSeq, path: seq<Step>, D: seq<ByteSeq>)
    requires |D| >= 2 && path != [] && ClimbInput(H, x, path) == RootInput(H, D)
    requires ClimbPinned(H, x, path[..|path| - 1], if path[|path| - 1].onLeft then D[Split(|D|)..] else D[..Split(|D|)])
    ensures ClimbPinned(H, x, path, D)
  {
    ClimbSoundAtNode(H, x, path, D);
    PathStep(H, path, D);
  }

  /** A path that reaches the root is the audit path of the leaf it starts from.  The prefix bytes rule out stopping
      early or walking past a leaf, although the verifier knows neither index nor size. */
  lemma {:induction false} ClimbSound(H: Hash, x: ByteSeq, path: seq<Step>, D: seq<ByteSeq>)
    requires Climb(H, HashLeaf(H, x), path) == Mth(H, D)
    ensures ClimbPinned(H, x, path, D)
    decreases |D|
  {
    if ClimbInput(H, x, path) == RootInput(H, D) {
      assert |D| > 0 && (|D| == 1 <==> path == []) by {
        assert |D| > 0 ==> RootInput(H, D)[0] == if |D| == 1 then 0x00 else 0x01;
      }
      if |D| == 1 {
        assert LeafInput(x)[1..] == x && LeafInput(D[0])[1..] == D[0];
      } else {
        ClimbSoundAtNode(H, x, path, D);
        ClimbSound(H, x, path[..|path| - 1], if path[|path| - 1].onLeft then D[Split(|D|)..] else D[..Split(|D|)]);
        ClimbPinnedStep(H, x, path, D);
      }
    }
  }

  /** A node of a path on the wire, read byte for byte: the sibling on the stated side. */
  ghost predicate LeadsTo(H: Hash, below: Digest, node: PathNode, rootHex: JsString) {
    var sibling := BufferFrom(node.sibling);
    && |sibling| == 32 && |HexDecode(rootHex)| == 32
    && (|| (node.position == Left && HexDecode(rootHex) == H([0x01] + sibling + below))
        || (node.position == Right && HexDecode(rootHex) == H([0x01] + below + sibling)))
  }

  /** The inclusion verifier on all arguments: without nodes the root is the leaf hash, and each node is one hash, of
      the prefix byte and the two sides. */
  lemma InclusionByNodes(H: Hash, leafHashHex: JsString, nodes: seq<PathNode>, rootHex: JsString)
    ensures InclusionAccepts(H, leafHashHex, nodes, rootHex) <==>
            if nodes == [] then |HexDecode(leafHashHex)| == 32 && HexDecode(leafHashHex) == HexDecode(rootHex)
            else var n := |nodes| - 1;
                 exists below: Digest :: InclusionAccepts(H, leafHashHex, nodes[..n], HexEncode(below)) && LeadsTo(H, below, nodes[n], rootHex)
  {
    if nodes == [] {
      assert DecodePath(nodes) == [];
    } else {
      var n := |nodes| - 1;
      if InclusionAccepts(H, leafHashHex, nodes, rootHex) {
        var below := Climb(H, HexDecode(leafHashHex), DecodePath(nodes[..n]));
        OneNodeMore(H, leafHashHex, nodes, below, rootHex);
        HexRoundTrip(below);
        assert InclusionAccepts(H, leafHashHex, nodes[..n], HexEncode(below)) && LeadsTo(H, below, nodes[n], rootHex);
      }
      if below: Digest :| InclusionAccepts(H, leafHashHex, nodes[..n], HexEncode(below)) && LeadsTo(H, below, nodes[n], rootHex) {
        HexRoundTrip(below);
        assert ValidPath(nodes) by {
          assert nodes == nodes[..n] + [nodes[n]];
        }
        OneNodeMore(H, leafHashHex, nodes, below, rootHex);
      }
    }
  }

  lemma OneNodeMore(H: Hash, leafHashHex: JsString, nodes: seq<PathNode>, below: Digest, rootHex: JsString)
    requires nodes != [] && ValidPath(nodes) && |HexDecode(leafHashHex)| == 32 && |HexDecode(rootHex)| == 32
    requires ValidPath(nodes[..|nodes| - 1]) && Climb(H, HexDecode(leafHashHex), DecodePath(nodes[..|nodes| - 1])) == below
    ensures Climb(H, HexDecode(leafHashHex), DecodePath(nodes)) == HexDecode(rootHex) <==> LeadsTo(H, below, nodes[|nodes| - 1], rootHex)
  {
    var n := |nodes| - 1;
    assert DecodePath(nodes)[..n] == DecodePath(nodes[..n]) && DecodePath(nodes)[n] == DecodeNode(nodes[n]);
  }

  /** The provers refuse exactly what is out of range. */
  lemma ProofsExist(H: Hash, first: int, index: int, leafHexes: seq<JsString>)
    ensures ConsistencyProofHex(H, first, leafHexes).Ok? <==> 0 <= first <= |leafHexes|
    ensures InclusionProofHex(H, index, leafHexes).Ok? <==> 0 <= index < |leafHexes|
  {
  }

  lemma DecodeEncodePath(path: seq<Step>)
    ensures ValidPath(EncodePath(path)) && DecodePath(EncodePath(path)) == path
  {
    forall j | 0 <= j < |path|
      ensures ValidNode(EncodeStep(path[j])) && DecodeNode(EncodeStep(path[j])) == path[j]
    {
      HexRoundTrip(path[j].sibling);
    }
  }

  function InclusionEvidence(H: Hash, leaf: ByteSeq, nodes: seq<PathNode>, D: seq<ByteSeq>): Evidence {
    if ValidPath(nodes) then ClimbEvidence(H, leaf, DecodePath(nodes), D) else NO_EVIDENCE
  }

  ghost predicate IsAuditPathOf(H: Hash, leaf: ByteSeq, path: seq<Step>, D: seq<ByteSeq>) {
    exists i :: 0 <= i < |D| && D[i] == leaf && path == AuditPath(H, i, D)
  }

  /** Inclusion verification is exact: from the hash of a leaf, precisely the audit paths of that leaf's positions are
      accepted against the root of D. */
  lemma InclusionExact(H: Hash, leafHex: JsString, nodes: seq<PathNode>, rootHex: JsString, D: seq<ByteSeq>)
    requires HexDecode(rootHex) == Mth(H, D)
    ensures || Collides(H, InclusionEvidence(H, HexDecode(leafHex), nodes, D))
            || (InclusionAccepts(H, LeafHashHex(H, leafHex), nodes, rootHex)
                <==> ValidPath(nodes) && IsAuditPathOf(H, HexDecode(leafHex), DecodePath(nodes), D))
  {
    var x := HexDecode(leafHex);
    HexRoundTrip(HashLeaf(H, x));
    if ValidPath(nodes) {
      var path := DecodePath(nodes);
      if Climb(H, HashLeaf(H, x), path) == Mth(H, D) {
        ClimbSound(H, x, path, D);
      }
      if IsAuditPathOf(H, x, path, D) {
        var i :| 0 <= i < |D| && D[i] == x && path == AuditPath(H, i, D);
        ClimbAuditPath(H, i, D);
      }
    }
  }

  lemma InclusionComplete(H: Hash, index: int, leafHexes: seq<JsString>)
    requires 0 <= index < |leafHexes|
    ensures InclusionProofHex(H, index, leafHexes).Ok?
    ensures InclusionAccepts(H, LeafHashHex(H, leafHexes[index]), InclusionProofHex(H, index, leafHexes).value, RootHex(H, leafHexes))
  {
    var D := DecodeAll(leafHexes);
    HexRoundTrip(HashLeaf(H, D[index]));
    HexRoundTrip(Mth(H, D));
    DecodeEncodePath(AuditPath(H, index, D));
    ClimbAuditPath(H, index, D);
  }
}
