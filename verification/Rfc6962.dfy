/** The RFC 6962 Merkle tree (section 2.1), its audit paths (2.1.1) and consistency proofs (2.1.2), with their
    verifiers.  Provers are recursive over leaves; the verifiers never see a leaf.
 */
module Rfc6962 {
  import opened Bytes
  import opened JsText
  import opened SplitPoint

  // ---------- Tree hashing ----------

  function LeafInput(leaf: ByteSeq): ByteSeq {
    [0x00] + leaf
  }

  function NodeInput(left: Digest, right: Digest): ByteSeq {
    [0x01] + left + right
  }

  function HashLeaf(H: Hash, leaf: ByteSeq): Digest {
    H(LeafInput(leaf))
  }

  function HashChildren(H: Hash, left: Digest, right: Digest): Digest {
    H(NodeInput(left, right))
  }

  /** MTH(D). */
  function Mth(H: Hash, D: seq<ByteSeq>): Digest
    decreases |D|
  {
    if |D| == 0 then H([])
    else if |D| == 1 then HashLeaf(H, D[0])
    else
      var k := Split(|D|);
      HashChildren(H, Mth(H, D[..k]), Mth(H, D[k..]))
  }

  // ---------- Consistency proofs ----------

  /** SUBPROOF(m, D, b). */
  function Subproof(H: Hash, m: int, D: seq<ByteSeq>, b: bool): seq<Digest>
    requires 0 < m <= |D|
    decreases |D|
  {
    if m == |D| then
      if b then [] else [Mth(H, D)]
    else
      var k := Split(|D|);
      if m <= k then Subproof(H, m, D[..k], b) + [Mth(H, D[k..])]
      else Subproof(H, m - k, D[k..], false) + [Mth(H, D[..k])]
  }

  function ConsistencyProof(H: Hash, first: int, D: seq<ByteSeq>): seq<Digest>
    requires 0 <= first <= |D|
  {
    if first == 0 || first == |D| then [] else Subproof(H, first, D, true)
  }

  /** What the cursor walk yields: both reconstructed roots and the cursor position, or a thrown RangeError. */
  datatype Walk = Thrown | Roots(oldRoot: Digest, newRoot: Digest, next: nat)

  function Subverify(H: Hash, m: int, n: int, b: bool, items: seq<ByteSeq>, i: nat, firstRoot: Digest): (w: Walk)
    requires 0 < m <= n && i <= |items|
    ensures w.Roots? ==> i <= w.next <= |items|
    decreases n
  {
    if m == n then
      if b then Roots(firstRoot, firstRoot, i)
      else if i < |items| && |items[i]| == 32 then Roots(items[i], items[i], i + 1)
      else Thrown
    else
      var k := Split(n);
      var w := if m <= k then Subverify(H, m, k, b, items, i, firstRoot)
               else Subverify(H, m - k, n - k, false, items, i, firstRoot);
      if w.Thrown? || w.next == |items| || |items[w.next]| != 32 then Thrown
      else
        var node: Digest := items[w.next];
        if m <= k then Roots(w.oldRoot, HashChildren(H, w.newRoot, node), w.next + 1)
        else Roots(HashChildren(H, node, w.oldRoot), HashChildren(H, node, w.newRoot), w.next + 1)
  }

  function DecodeAll(hexes: seq<JsString>): seq<ByteSeq> {
    seq(|hexes|, j requires 0 <= j < |hexes| => HexDecode(hexes[j]))
  }

  /** What a verifier finds where it expects hexadecimal text and calls Buffer.from(value, 'hex'): text is decoded, an
      array or a serialised buffer is taken byte for byte, and anything else throws. */
  datatype HexArg = Hex(text: JsString) | Raw(bytes: ByteSeq) | NoBytes

  /** No bytes at all are refused like any number of them but 32. */
  function BufferFrom(arg: HexArg): ByteSeq {
    match arg
    case Hex(text) => HexDecode(text)
    case Raw(bytes) => bytes
    case NoBytes => []
  }

  function DecodeArgs(args: seq<HexArg>): seq<ByteSeq> {
    seq(|args|, j requires 0 <= j < |args| => BufferFrom(args[j]))
  }

  /** What a prover sends: text throughout. */
  function Texts(hexes: seq<JsString>): (args: seq<HexArg>)
    ensures DecodeArgs(args) == DecodeAll(hexes) && |args| == |hexes|
  {
    seq(|hexes|, j requires 0 <= j < |hexes| => Hex(hexes[j]))
  }

  /** The verdict of the consistency verifier on the wire format. */
  predicate ConsistencyAccepts(H: Hash, first: int, second: int, firstRootHex: JsString, secondRootHex: JsString,
                               proofHex: seq<HexArg>)
  {
    if first < 0 || second < 0 || first > second then false
    else if first == 0 then proofHex == []
    else if first == second then proofHex == [] && firstRootHex == secondRootHex
    else if |HexDecode(firstRootHex)| != 32 || |HexDecode(secondRootHex)| != 32 then false
    else
      var w := Subverify(H, first, second, true, DecodeArgs(proofHex), 0, HexDecode(firstRootHex));
      w.Roots? && w.next == |proofHex| && w.oldRoot == HexDecode(firstRootHex) && w.newRoot == HexDecode(secondRootHex)
  }

  /** The proof nodes and the position of the next one to consume. */
  class Cursor {
    const items: seq<ByteSeq>
    var i: nat

    constructor (items: seq<ByteSeq>)
      ensures this.items == items && i == 0
    {
      this.items := items;
      i := 0;
    }

    method NextNode() returns (node: Option<Digest>)
      requires i <= |items|
      modifies this
      ensures node.Some? <==> old(i) < |items| && |items[old(i)]| == 32
      ensures node.Some? ==> node.value == items[old(i)]
      ensures i == if old(i) < |items| then old(i) + 1 else old(i)
    {
      if i >= |items| {
        return None;
      }
      var bytes := items[i];
      i := i + 1;
      if |bytes| != 32 {
        return None;
      }
      return Some(bytes);
    }
  }

  method SubverifyCursor(H: Hash, m: int, n: int, b: bool, cursor: Cursor, firstRoot: Digest)
    returns (roots: Option<(Digest, Digest)>)
    requires 0 < m <= n <= MAX_LEAVES && cursor.i <= |cursor.items|
    modifies cursor
    ensures cursor.i <= |cursor.items|
    ensures var w := Subverify(H, m, n, b, cursor.items, old(cursor.i), firstRoot);
            if w.Thrown? then roots.None?
            else roots == Some((w.oldRoot, w.newRoot)) && cursor.i == w.next
    decreases n
  {
    if m == n {
      if b {
        return Some((firstRoot, firstRoot));
      }
      var node := cursor.NextNode();
      return if node.None? then None else Some((node.value, node.value));
    }
    var k := LargestPowerOfTwoLessThan(n);
    if m <= k {
      var sub := SubverifyCursor(H, m, k, b, cursor, firstRoot);
      if sub.None? {
        return None;
      }
      var right := cursor.NextNode();
      return if right.None? then None else Some((sub.value.0, HashChildren(H, sub.value.1, right.value)));
    }
    var sub := SubverifyCursor(H, m - k, n - k, false, cursor, firstRoot);
    if sub.None? {
      return None;
    }
    var left := cursor.NextNode();
    return if left.None? then None
           else Some((HashChildren(H, left.value, sub.value.0), HashChildren(H, left.value, sub.value.1)));
  }

  /** The verifier over mutable state.  Only where it searches for a split point must the size be at most 2^30:
      beyond that the search does not end (LoopEndsExactly). */
  method VerifyConsistencyHex(H: Hash, first: int, second: int, firstRootHex: JsString, secondRootHex: JsString,
                              proofHex: seq<HexArg>) returns (accepted: bool)
    requires 0 < first < second && |HexDecode(firstRootHex)| == 32 && |HexDecode(secondRootHex)| == 32
             ==> second <= MAX_LEAVES
    ensures accepted <==> ConsistencyAccepts(H, first, second, firstRootHex, secondRootHex, proofHex)
  {
    if first < 0 || second < 0 || first > second {
      return false;
    }
    if first == 0 {
      return proofHex == [];
    }
    if first == second {
      return proofHex == [] && firstRootHex == secondRootHex;
    }
    var firstRoot, secondRoot := HexDecode(firstRootHex), HexDecode(secondRootHex);
    if |firstRoot| != 32 || |secondRoot| != 32 {
      return false;
    }
    var cursor := new Cursor(DecodeArgs(proofHex));
    var roots := SubverifyCursor(H, first, second, true, cursor, firstRoot);
    if roots.None? {
      return false;
    }
    return cursor.i == |cursor.items| && roots.value.0 == firstRoot && roots.value.1 == secondRoot;
  }

  // ---------- Inclusion proofs ----------

  /** One step up: the sibling's subtree root and the side it stands on. */
  datatype Step = Step(sibling: Digest, onLeft: bool)

  /** PATH(i, D), leaf to root. */
  function AuditPath(H: Hash, i: int, D: seq<ByteSeq>): seq<Step>
    requires 0 <= i < |D|
    decreases |D|
  {
    if |D| == 1 then []
    else
      var k := Split(|D|);
      if i < k then AuditPath(H, i, D[..k]) + [Step(Mth(H, D[k..]), false)]
      else AuditPath(H, i - k, D[k..]) + [Step(Mth(H, D[..k]), true)]
  }

  function Up(H: Hash, current: Digest, step: Step): Digest {
    if step.onLeft then HashChildren(H, step.sibling, current) else HashChildren(H, current, step.sibling)
  }

  /** Where a path leads from a leaf hash. */
  function Climb(H: Hash, leafHash: Digest, path: seq<Step>): Digest {
    if path == [] then leafHash
    else Up(H, Climb(H, leafHash, path[..|path| - 1]), path[|path| - 1])
  }

  datatype Position = Left | Right | Malformed

  /** A path node on the wire; its position is any JSON value, and only two of them are legal. */
  datatype PathNode = PathNode(sibling: HexArg, position: Position)

  predicate ValidNode(node: PathNode) {
    !node.position.Malformed? && |BufferFrom(node.sibling)| == 32
  }

  function DecodeNode(node: PathNode): Step
    requires ValidNode(node)
  {
    Step(BufferFrom(node.sibling), node.position.Left?)
  }

  function EncodeStep(step: Step): PathNode {
    PathNode(Hex(HexEncode(step.sibling)), if step.onLeft then Left else Right)
  }

  predicate ValidPath(nodes: seq<PathNode>) {
    forall j :: 0 <= j < |nodes| ==> ValidNode(nodes[j])
  }

  function DecodePath(nodes: seq<PathNode>): seq<Step>
    requires ValidPath(nodes)
  {
    seq(|nodes|, j requires 0 <= j < |nodes| => DecodeNode(nodes[j]))
  }

  function EncodePath(path: seq<Step>): seq<PathNode> {
    seq(|path|, j requires 0 <= j < |path| => EncodeStep(path[j]))
  }

  /** The verdict of the inclusion verifier on the wire format. */
  predicate InclusionAccepts(H: Hash, leafHashHex: JsString, nodes: seq<PathNode>, rootHex: JsString) {
    && |HexDecode(leafHashHex)| == 32
    && |HexDecode(rootHex)| == 32
    && ValidPath(nodes)
    && Climb(H, HexDecode(leafHashHex), DecodePath(nodes)) == HexDecode(rootHex)
  }

  method VerifyInclusionHex(H: Hash, leafHashHex: JsString, nodes: seq<PathNode>, rootHex: JsString)
    returns (accepted: bool)
    ensures accepted <==> InclusionAccepts(H, leafHashHex, nodes, rootHex)
  {
    var bytes := HexDecode(leafHashHex);
    if |bytes| != 32 {
      return false;
    }
    var current: Digest := bytes;
    for j := 0 to |nodes|
      invariant ValidPath(nodes[..j])
      invariant current == Climb(H, bytes, DecodePath(nodes[..j]))
    {
      var node := nodes[j];
      if node.position != Left && node.position != Right {
        return false;
      }
      var sibling := BufferFrom(node.sibling);
      if |sibling| != 32 {
        return false;
      }
      current := if node.position == Left then HashChildren(H, sibling, current) else HashChildren(H, current, sibling);
      assert DecodePath(nodes[..j + 1])[..j] == DecodePath(nodes[..j]);
    }
    assert nodes[..|nodes|] == nodes;
    var root := HexDecode(rootHex);
    if |root| != 32 {
      return false;
    }
    return current == root;
  }

  // ---------- The public hex interface ----------

  function RootHex(H: Hash, leafHexes: seq<JsString>): JsString {
    HexEncode(Mth(H, DecodeAll(leafHexes)))
  }

  function LeafHashHex(H: Hash, leafHex: JsString): JsString {
    HexEncode(HashLeaf(H, HexDecode(leafHex)))
  }

  function EncodeAll(digests: seq<Digest>): seq<JsString> {
    seq(|digests|, j requires 0 <= j < |digests| => HexEncode(digests[j]))
  }

  datatype ProofError = OutOfRange

  function ConsistencyProofHex(H: Hash, first: int, leafHexes: seq<JsString>): Result<seq<JsString>, ProofError> {
    if first < 0 || first > |leafHexes| then Err(OutOfRange)
    else Ok(EncodeAll(ConsistencyProof(H, first, DecodeAll(leafHexes))))
  }

  function InclusionProofHex(H: Hash, index: int, leafHexes: seq<JsString>): Result<seq<PathNode>, ProofError> {
    if index < 0 || index >= |leafHexes| then Err(OutOfRange)
    else Ok(EncodePath(AuditPath(H, index, DecodeAll(leafHexes))))
  }
}
