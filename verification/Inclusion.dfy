/** Self-contained inclusion proofs: building one for a checkpoint, and verifying one with nothing but the CA key. */
module Inclusion {
  import opened Bytes
  import opened JsText
  import opened Checks
  import opened Signer
  import opened RecordHash
  import opened PreimageTwins
  import opened Rfc6962
  import opened Rfc6962Proofs
  import opened TreeHead

  datatype InclusionProof = InclusionProof(
    index: int, treeSize: int, record: Shown, leafHash: JsString, proof: seq<PathNode>, root: JsString, sth: SignedTreeHead)

  datatype BuildError = NotCovered | TooFewLeaves

  function BuildInclusionProof(H: Hash, index: int, record: Record, leafHashes: seq<JsString>, sth: SignedTreeHead)
    : Result<InclusionProof, BuildError>
  {
    var size := sth.treeSize;
    if index < 0 || index >= size then Err(NotCovered)
    else if |leafHashes| < size then Err(TooFewLeaves)
    else
      var leaves := leafHashes[..size];
      Ok(InclusionProof(index, size, Show(record), LeafHashHex(H, record.hash), InclusionProofHex(H, index, leaves).value,
                        RootHex(H, leaves), sth))
  }

  datatype Reason = NoKey | BadSignature | Uncomputable | AlteredRecord | WrongLeafHash | WrongPath | WrongRoot

  datatype Verdict = Valid(index: Json, treeSize: int, root: JsString) | Invalid(reason: Reason)

  function VerifyInclusionProof(H: Hash, scheme: Scheme, p: InclusionProof, caPublicKey: JsString): Verdict {
    if caPublicKey == [] then Invalid(NoKey)
    else if !VerifyHead(scheme, p.sth, caPublicKey) then Invalid(BadSignature)
    else
      var hash := ShownHash(H, p.record);
      if hash.None? then Invalid(Uncomputable)
      else if p.record.hash != Str(hash.value) then Invalid(AlteredRecord)
      else if p.leafHash != LeafHashHex(H, hash.value) then Invalid(WrongLeafHash)
      else if !InclusionAccepts(H, LeafHashHex(H, hash.value), p.proof, p.root) then Invalid(WrongPath)
      else if p.root != p.sth.rootHash then Invalid(WrongRoot)
      else Valid(p.record.index, p.sth.treeSize, p.root)
  }

  /** The seven checks, read byte for byte, and what is answered when each is the first to fail. */
  ghost function InclusionChecks(H: Hash, scheme: Scheme, p: InclusionProof, caPublicKey: JsString): seq<Check<Reason>> {
    [Check(caPublicKey != [], NoKey),
     Check(VerifyHead(scheme, p.sth, caPublicKey), BadSignature),
     Check(ShownPreimage(p.record).Some?, Uncomputable),
     Check(p.record.hash == Str(HexEncode(H(ShownBytes(p.record)))), AlteredRecord),
     Check(p.leafHash == HexEncode(H([0x00] + H(ShownBytes(p.record)))), WrongLeafHash),
     Check(InclusionAccepts(H, p.leafHash, p.proof, p.root), WrongPath),
     Check(p.root == p.sth.rootHash, WrongRoot)]
  }

  /** A proof is valid exactly when all of them pass, the verdict then echoing what was verified, and else the reason is
      that of the first that fails. */
  lemma VerdictExactly(H: Hash, scheme: Scheme, p: InclusionProof, caPublicKey: JsString)
    ensures var v := VerifyInclusionProof(H, scheme, p, caPublicKey);
            && FirstFailure(InclusionChecks(H, scheme, p, caPublicKey), if v.Invalid? then Some(v.reason) else None)
            && (v.Valid? ==> v == Valid(p.record.index, p.sth.treeSize, p.root))
  {
    var checks, v := InclusionChecks(H, scheme, p, caPublicKey), VerifyInclusionProof(H, scheme, p, caPublicKey);
    HexRoundTrip(H(ShownBytes(p.record)));
    if v.Invalid? {
      var k := match v.reason
        case NoKey => 0 case BadSignature => 1 case Uncomputable => 2 case AlteredRecord => 3
        case WrongLeafHash => 4 case WrongPath => 5 case WrongRoot => 6;
      assert FailsFirst(checks, k);
    }
  }

  /** The hash and leaf hash that a proof carries are determined by the rest of it. */
  lemma HashFieldsPinned(H: Hash, scheme: Scheme, p: InclusionProof, caPublicKey: JsString, hash: Json, leafHash: JsString)
    requires VerifyInclusionProof(H, scheme, p, caPublicKey).Valid?
    requires VerifyInclusionProof(H, scheme, p.(record := p.record.(hash := hash), leafHash := leafHash), caPublicKey).Valid?
    ensures hash == p.record.hash && leafHash == p.leafHash
  {
    assert ShownHash(H, p.record.(hash := hash)) == ShownHash(H, p.record);
  }

  /** What is built carries what it was built from, and nothing is built for a record that the head does not cover or for
      a head with more leaves than there are. */
  lemma BuildExactly(H: Hash, index: int, record: Record, leafHashes: seq<JsString>, sth: SignedTreeHead)
    ensures var r := BuildInclusionProof(H, index, record, leafHashes, sth);
            && FirstFailure([Check(0 <= index < sth.treeSize, NotCovered), Check(sth.treeSize <= |leafHashes|, TooFewLeaves)],
                            if r.Err? then Some(r.error) else None)
            && (r.Ok? ==> && r.value.index == index && r.value.treeSize == sth.treeSize && r.value.sth == sth
                          && r.value.record == Show(record)
                          && r.value.leafHash == HexEncode(H([0x00] + HexDecode(record.hash)))
                          && Ok(r.value.proof) == InclusionProofHex(H, index, leafHashes[..sth.treeSize])
                          && r.value.root == RootHex(H, leafHashes[..sth.treeSize]))
  {
    var checks := [Check(0 <= index < sth.treeSize, NotCovered), Check(sth.treeSize <= |leafHashes|, TooFewLeaves)];
    var r := BuildInclusionProof(H, index, record, leafHashes, sth);
    if r.Err? {
      assert FailsFirst(checks, if r.error.NotCovered? then 0 else 1);
    }
  }

  /** The proof built for a covered record of a log is accepted and names the record's index, whatever was appended to
      the log after the head was signed. */
  lemma BuiltProofIsAccepted(H: Hash, scheme: Scheme, index: int, log: seq<Record>, sth: SignedTreeHead, caPublicKey: JsString)
    requires HonestLog(H, log)
    requires 0 <= index < sth.treeSize <= |log|
    requires sth.rootHash == RootHex(H, Hashes(log[..sth.treeSize]))
    requires caPublicKey != [] && VerifyHead(scheme, sth, caPublicKey)
    ensures var built := BuildInclusionProof(H, index, log[index], Hashes(log), sth);
            && built.Ok? && built.value.root == sth.rootHash
            && VerifyInclusionProof(H, scheme, built.value, caPublicKey) == Valid(Number(IndexNum(index)), sth.treeSize, sth.rootHash)
  {
    var leaves := Hashes(log)[..sth.treeSize];
    assert leaves == Hashes(log[..sth.treeSize]);
    InclusionComplete(H, index, leaves);
    assert leaves[index] == log[index].hash;
    ShowKeepsHash(H, log[index]);
  }

  // ---------- Soundness ----------

  /** The position in the log that the path's sides spell out. */
  function ProvenIndex(p: InclusionProof, log: seq<Record>): (i: int)
    requires log != []
    ensures 0 <= i < |log|
  {
    if ValidPath(p.proof) then PathIndex(DecodePath(p.proof), |log|) else 0
  }

  function ProofEvidence(H: Hash, p: InclusionProof, log: seq<Record>): Evidence {
    var path := InclusionEvidence(H, H(ShownBytes(p.record)), p.proof, DecodeAll(Hashes(log)));
    if log == [] then path
    else Either(H, path, Evidence(ShownBytes(p.record), ShownBytes(Show(log[ProvenIndex(p, log)]))))
  }

  /** The proof carries the hash and the leaf hash of a logged record. */
  ghost predicate CarriesHash(H: Hash, p: InclusionProof, x: Record) {
    p.record.hash == Str(x.hash) && p.leafHash == LeafHashHex(H, x.hash)
  }

  /** If the signed root is that of a log, an accepted proof leads to the true position of a record of the log, whatever
      its own index and treeSize fields claim; it carries that record's hash and leaf hash; and the record shown, the index
      reported among its fields, is that one as far as a preimage determines it. */
  lemma AcceptedProofPinsRecord(H: Hash, scheme: Scheme, p: InclusionProof, caPublicKey: JsString, log: seq<Record>)
    requires HonestLog(H, log)
    requires p.sth.rootHash == RootHex(H, Hashes(log))
    requires VerifyInclusionProof(H, scheme, p, caPublicKey).Valid?
    ensures Collides(H, ProofEvidence(H, p, log))
         || (log != [] && var i := ProvenIndex(p, log);
             && log[i].index == IndexNum(i)
             && VerifyInclusionProof(H, scheme, p, caPublicKey).index == p.record.index
             && DecodePath(p.proof) == AuditPath(H, i, DecodeAll(Hashes(log)))
             && CarriesHash(H, p, log[i]) && AgreesAsFarAs(p.record, log[i]))
  {
    var D, x := DecodeAll(Hashes(log)), H(ShownBytes(p.record));
    HexRoundTrip(Mth(H, D));
    HexRoundTrip(HashLeaf(H, x));
    HexRoundTrip(x);
    ClimbSound(H, x, DecodePath(p.proof), D);
    if !Collides(H, InclusionEvidence(H, x, p.proof, D)) {
      var i := ProvenIndex(p, log);
      LeafIsHash(H, log, i);
      assert D[i] == H(ShownBytes(Show(log[i])));
      if ShownBytes(p.record) == ShownBytes(Show(log[i])) {
        SamePreimageAgrees(p.record, log[i]);
        SameBytesSameHash(H, scheme, p, caPublicKey, log[i]);
      }
    }
  }

  lemma SameBytesSameHash(H: Hash, scheme: Scheme, p: InclusionProof, caPublicKey: JsString, x: Record)
    requires VerifyInclusionProof(H, scheme, p, caPublicKey).Valid? && ComputeRecordHash(H, x) == Ok(x.hash)
    requires ShownBytes(p.record) == ShownBytes(Show(x))
    ensures CarriesHash(H, p, x)
  {
    ShowKeepsHash(H, x);
  }

  /** A valid verdict echoes what was verified. */
  lemma VerdictEchoes(H: Hash, scheme: Scheme, p: InclusionProof, caPublicKey: JsString)
    requires VerifyInclusionProof(H, scheme, p, caPublicKey).Valid?
    ensures VerifyInclusionProof(H, scheme, p, caPublicKey) == Valid(p.record.index, p.sth.treeSize, p.root)
    ensures p.root == p.sth.rootHash
  {
  }

  lemma LeafIsHash(H: Hash, log: seq<Record>, i: int)
    requires HonestLog(H, log) && 0 <= i < |log|
    ensures ShownPreimage(Show(log[i])).Some? && DecodeAll(Hashes(log))[i] == H(ShownBytes(Show(log[i])))
  {
    ShowKeepsHash(H, log[i]);
    HexRoundTrip(H(ShownBytes(Show(log[i]))));
  }

  /** More is not determined: every valid proof of a delegated record is as valid for two other records, and for one of
      them the index reported is not the record's. */
  lemma TwinsAreAccepted(H: Hash, scheme: Scheme, p: InclusionProof, caPublicKey: JsString)
    requires VerifyInclusionProof(H, scheme, p, caPublicKey).Valid? && Truthy(p.record.delegation)
    ensures ShownPreimage(p.record).Some? && Canonicalize(p.record.payload).Ok?
    ensures var valid := VerifyInclusionProof(H, scheme, p, caPublicKey);
            var r, s := TimestampTwin(p.record), IndexTwin(p.record);
            && !SameShown(r, p.record) && VerifyInclusionProof(H, scheme, p.(record := r), caPublicKey) == valid
            && !SameShown(s, p.record) && VerifyInclusionProof(H, scheme, p.(record := s), caPublicKey) == valid.(index := s.index)
            && TemplateText(s.index) != TemplateText(p.record.index)
  {
    TwinsHaveSamePreimage(p.record);
    assert |IndexText(IndexTwin(p.record))| > |IndexText(p.record)|;
  }
}
