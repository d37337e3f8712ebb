/** The in-memory chain of one company. */
module Chain {
  import opened Bytes
  import opened JsText
  import opened SplitPoint
  import opened Signer
  import opened RecordHash
  import opened TreeHead
  import opened LegacyMerkle

  /** What computeNextRecord throws: the payload cannot be canonicalised, or the company key cannot sign. */
  datatype RecordError = NotCanonical(error: CanonError) | BadKey

  /** signPayload signs the canonical text of the hash, a quoted string. */
  function SignedBytes(hash: JsString): ByteSeq {
    Utf8(Quoted(hash))
  }

  datatype Input = Input(payload: Json, delegation: Json, timestamp: JsString, privateKey: JsString)

  /** The record that follows the given number of records. */
  function NextRecord(H: Hash, scheme: Scheme, length: nat, input: Input): Result<Record, RecordError> {
    var delegation := if Truthy(input.delegation) then input.delegation else NO_DELEGATION;
    var unsigned := Record(IndexNum(length), input.timestamp, input.payload, delegation, [], []);
    var hash := ComputeRecordHash(H, unsigned);
    if hash.Err? then Err(NotCanonical(hash.error))
    else
      var signature := scheme.sign(input.privateKey, SignedBytes(hash.value));
      if signature.None? then Err(BadKey)
      else Ok(unsigned.(hash := hash.value, signature := signature.value))
  }

  /** The record holds what was attested, with the company's delegation if there was one. */
  ghost predicate Attests(r: Record, input: Input) {
    && r.payload == input.payload && r.timestamp == input.timestamp
    && r.delegation == if Truthy(input.delegation) then input.delegation else NO_DELEGATION
  }

  /** What the caller attested, under the next index. */
  lemma NextRecordAttests(H: Hash, scheme: Scheme, length: nat, input: Input)
    requires NextRecord(H, scheme, length, input).Ok?
    ensures Attests(NextRecord(H, scheme, length, input).value, input)
    ensures NextRecord(H, scheme, length, input).value.index == IndexNum(length)
  {
  }

  /** A record is made exactly when its content is canonical and the key can sign its hash, and it holds what the caller
      attested. */
  lemma NextRecordExactly(H: Hash, scheme: Scheme, length: nat, input: Input)
    ensures var made, content := NextRecord(H, scheme, length, input), Content(input.payload, input.delegation);
            && (made.Ok? ==> Attests(made.value, input) && made.value.index == IndexNum(length))
            && (made.Err? && made.error.NotCanonical? <==> content.Err?)
            && (content.Err? ==> made == Err(NotCanonical(content.error)))
            && (content.Ok? ==>
                  var text := NumText(IndexNum(length)) + Text("|") + input.timestamp + Text("|") + content.value;
                  var hash := HexEncode(H(Utf8(text)));
                  var signature := scheme.sign(input.privateKey, Utf8(Canonicalize(Json.Str(hash)).value));
                  && (made.Ok? <==> signature.Some?)
                  && (made.Ok? ==> made.value.hash == hash && Some(made.value.signature) == signature))
  {
    assert Text("|") == [BAR];
    if NextRecord(H, scheme, length, input).Ok? {
      NextRecordAttests(H, scheme, length, input);
    }
    var delegation := if Truthy(input.delegation) then input.delegation else NO_DELEGATION;
    assert Content(input.payload, delegation) == Content(input.payload, input.delegation);
  }

  predicate RecordVerifies(H: Hash, scheme: Scheme, r: Record, publicKey: JsString) {
    && ComputeRecordHash(H, r) == Ok(r.hash)
    && scheme.verify(publicKey, SignedBytes(r.hash), r.signature)
  }

  /** What an auditor checks: the hash is that of the content, and the signature is good for its canonical text. */
  lemma RecordVerifiesExactly(H: Hash, scheme: Scheme, r: Record, publicKey: JsString)
    ensures RecordVerifies(H, scheme, r, publicKey) <==>
              && RecordPreimage(r).Ok? && r.hash == HexEncode(H(Utf8(RecordPreimage(r).value)))
              && scheme.verify(publicKey, Utf8(Canonicalize(Json.Str(r.hash)).value), r.signature)
  {
  }

  /** A record whose content was altered under its old hash no longer verifies, or the hash function is broken. */
  lemma AlteredRecordFails(H: Hash, scheme: Scheme, r: Record, x: Record, publicKey: JsString)
    requires RecordVerifies(H, scheme, r, publicKey) && RecordVerifies(H, scheme, x, publicKey) && r.hash == x.hash
    ensures var a, b := Utf8(RecordPreimage(r).value), Utf8(RecordPreimage(x).value);
            a == b || Collides(H, Evidence(a, b))
  {
    HexRoundTrip(H(Utf8(RecordPreimage(r).value)));
    HexRoundTrip(H(Utf8(RecordPreimage(x).value)));
  }

  /** The hash does not cover the hash and signature fields. */
  lemma HashIgnoresSeal(H: Hash, r: Record, hash: JsString, signature: JsString)
    ensures ComputeRecordHash(H, r.(hash := hash, signature := signature)) == ComputeRecordHash(H, r)
  {
    assert RecordPreimage(r.(hash := hash, signature := signature)) == RecordPreimage(r);
  }

  lemma NextRecordSealed(H: Hash, scheme: Scheme, length: nat, input: Input)
    requires NextRecord(H, scheme, length, input).Ok?
    ensures var r := NextRecord(H, scheme, length, input).value;
            && r.index == IndexNum(length) && ComputeRecordHash(H, r) == Ok(r.hash)
            && scheme.sign(input.privateKey, SignedBytes(r.hash)) == Some(r.signature)
  {
    var delegation := if Truthy(input.delegation) then input.delegation else NO_DELEGATION;
    var unsigned := Record(IndexNum(length), input.timestamp, input.payload, delegation, [], []);
    var r := NextRecord(H, scheme, length, input).value;
    HashIgnoresSeal(H, unsigned, r.hash, r.signature);
  }

  lemma HonestOneMore(H: Hash, log: seq<Record>, r: Record)
    requires HonestLog(H, log) && r.index == IndexNum(|log|) && ComputeRecordHash(H, r) == Ok(r.hash)
    ensures HonestLog(H, log + [r])
  {
  }

  /** A new record continues an honest log, and verifies under the company's public key. */
  lemma NextRecordIsHonest(H: Hash, scheme: Scheme, log: seq<Record>, input: Input, publicKey: JsString)
    requires NextRecord(H, scheme, |log|, input).Ok?
    ensures HonestLog(H, log) ==> HonestLog(H, log + [NextRecord(H, scheme, |log|, input).value])
    ensures KeyPair(scheme, input.privateKey, publicKey) ==>
              RecordVerifies(H, scheme, NextRecord(H, scheme, |log|, input).value, publicKey)
  {
    NextRecordSealed(H, scheme, |log|, input);
    var r := NextRecord(H, scheme, |log|, input).value;
    if HonestLog(H, log) {
      HonestOneMore(H, log, r);
    }
    assert KeyPair(scheme, input.privateKey, publicKey) ==> scheme.verify(publicKey, SignedBytes(r.hash), r.signature);
  }

  datatype Verification = Verified(merkleRoot: JsString) | FailedAt(index: nat)

  datatype Proven = Proven(record: Record, proof: Proof, root: JsString)

  class AttestationChain {
    var records: seq<Record>
    var latestSth: Option<SignedTreeHead>

    constructor ()
      ensures records == [] && latestSth == None
    {
      records := [];
      latestSth := None;
    }

    method Hydrate(rows: seq<Record>) returns (ok: bool)
      modifies this`records
      ensures ok <==> old(records) == []
      ensures records == if ok then rows else old(records)
    {
      if |records| > 0 {
        return false;
      }
      records := records + rows;
      ok := true;
    }

    method ComputeNextRecord(H: Hash, scheme: Scheme, input: Input) returns (r: Result<Record, RecordError>)
      ensures r == NextRecord(H, scheme, |records|, input)
      ensures r.Ok? ==> r.value.index == IndexNum(|records|) && Attests(r.value, input)
    {
      NextRecordExactly(H, scheme, |records|, input);
      if NextRecord(H, scheme, |records|, input).Ok? {
        NextRecordSealed(H, scheme, |records|, input);
      }
      r := NextRecord(H, scheme, |records|, input);
    }

    /** Refuses a record that is out of order. */
    method Push(record: Record) returns (ok: bool)
      modifies this`records
      ensures ok <==> record.index == IndexNum(|old(records)|)
      ensures records == if ok then old(records) + [record] else old(records)
    {
      if record.index != IndexNum(|records|) {
        return false;
      }
      records := records + [record];
      ok := true;
    }

    method Append(H: Hash, scheme: Scheme, input: Input) returns (r: Result<Record, RecordError>)
      modifies this`records
      ensures r == NextRecord(H, scheme, |old(records)|, input)
      ensures records == if r.Ok? then old(records) + [r.value] else old(records)
      ensures r.Ok? ==> Attests(r.value, input)
    {
      r := ComputeNextRecord(H, scheme, input);
      if r.Ok? {
        records := records + [r.value];
      }
    }

    method CurrentLeafHashes() returns (hashes: seq<JsString>)
      ensures hashes == Hashes(records)
    {
      hashes := Hashes(records);
    }

    method SetLatestSth(sth: SignedTreeHead)
      modifies this`latestSth
      ensures latestSth == Some(sth)
    {
      latestSth := Some(sth);
    }

    /** Reports the first record that does not verify, or the legacy root of all of them. */
    method Verify(H: Hash, scheme: Scheme, publicKey: JsString) returns (v: Verification)
      requires |records| <= MAX_LEAVES
      ensures v.Verified? <==> forall i :: 0 <= i < |records| ==> RecordVerifies(H, scheme, records[i], publicKey)
      ensures v.Verified? ==> v.merkleRoot == LegacyRoot(TextPair(H), Hashes(records))
      ensures v.FailedAt? ==> v.index < |records| && !RecordVerifies(H, scheme, records[v.index], publicKey)
                              && forall i :: 0 <= i < v.index ==> RecordVerifies(H, scheme, records[i], publicKey)
    {
      var leafHashes: seq<JsString> := [];
      for i := 0 to |records|
        invariant leafHashes == Hashes(records[..i])
        invariant forall j :: 0 <= j < i ==> RecordVerifies(H, scheme, records[j], publicKey)
      {
        var rec := records[i];
        var expected := ComputeRecordHash(H, rec);
        if expected.Err? || rec.hash != expected.value {
          return FailedAt(i);
        }
        if !scheme.verify(publicKey, SignedBytes(rec.hash), rec.signature) {
          return FailedAt(i);
        }
        leafHashes := leafHashes + [rec.hash];
      }
      assert records[..|records|] == records;
      var root := ComputeRoot(TextPair(H), leafHashes);
      v := Verified(root);
    }

    /** A proof in the legacy tree; None when the index is out of bounds. */
    method GetProof(H: Hash, index: int) returns (p: Option<Proven>)
      requires |records| <= MAX_LEAVES
      ensures p.Some? <==> 0 <= index < |records|
      ensures p.Some? ==> && p.value.record == records[index] && p.value.root == LegacyRoot(TextPair(H), Hashes(records))
                          && LegacyAccepts(TextPair(H), records[index].hash, p.value.proof, p.value.root)
                          && |p.value.proof| == CeilLog2(|records|)
    {
      if index < 0 || index >= |records| {
        return None;
      }
      var leafHashes := Hashes(records);
      var proof := BuildProof(TextPair(H), leafHashes, index);
      var root := ComputeRoot(TextPair(H), leafHashes);
      LegacyComplete(TextPair(H), leafHashes, index);
      p := Some(Proven(records[index], proof.value, root));
    }
  }
}
