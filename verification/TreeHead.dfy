/** Signed tree heads: the CA's commitment to (root, size, time).  The signature scheme is a parameter. */
module TreeHead {
  import opened Bytes
  import opened JsText
  import opened Checks

  datatype HeadFields = HeadFields(rootHash: JsString, treeSize: int, timestamp: int)

  datatype SignedTreeHead = SignedTreeHead(rootHash: JsString, treeSize: int, timestamp: int, signature: JsString)

  /** sign fails on a malformed or foreign private key; verify is false on a malformed or foreign public key. */
  datatype Scheme = Scheme(sign: (JsString, ByteSeq) -> Option<JsString>, verify: (JsString, ByteSeq, JsString) -> bool)

  datatype SignError = InvalidRoot | InvalidSize | InvalidTimestamp | InvalidKey

  /** "vane.sth.v1" */
  const CONTEXT: JsString := [0x76, 0x61, 0x6e, 0x65, 0x2e, 0x73, 0x74, 0x68, 0x2e, 0x76, 0x31]

  /** Sixty-four lowercase hexadecimal digits. */
  predicate RootHexText(s: JsString) {
    |s| == 64 && forall c :: c in s ==> Digit(c) || 0x61 <= c <= 0x66
  }

  function SigningText(f: HeadFields): JsString {
    CONTEXT + ([NEWLINE] + f.rootHash) + [NEWLINE] + (IntText(f.treeSize) + [NEWLINE] + IntText(f.timestamp))
  }

  function SigningInput(f: HeadFields): ByteSeq {
    Utf8(SigningText(f))
  }

  function Fields(head: SignedTreeHead): HeadFields {
    HeadFields(head.rootHash, head.treeSize, head.timestamp)
  }

  function SignHead(scheme: Scheme, f: HeadFields, privateKey: JsString): Result<SignedTreeHead, SignError> {
    if !RootHexText(f.rootHash) then Err(InvalidRoot)
    else if f.treeSize < 0 then Err(InvalidSize)
    else if f.timestamp < 0 then Err(InvalidTimestamp)
    else
      var signature := scheme.sign(privateKey, SigningInput(f));
      if signature.None? then Err(InvalidKey)
      else Ok(SignedTreeHead(f.rootHash, f.treeSize, f.timestamp, signature.value))
  }

  predicate VerifyHead(scheme: Scheme, head: SignedTreeHead, publicKey: JsString) {
    RootHexText(head.rootHash) && scheme.verify(publicKey, SigningInput(Fields(head)), head.signature)
  }

  lemma RootHexIsRootHexText(d: Digest)
    ensures RootHexText(HexEncode(d))
  {
    HexEncodeDigits(d);
  }

  ghost predicate TextOfDigest(s: JsString) {
    exists d: Digest :: s == HexEncode(d)
  }

  lemma LowercaseDigit(c: CodeUnit)
    requires Digit(c) || 0x61 <= c <= 0x66
    ensures HexValue(c).Some? && HexDigit(HexValue(c).value) == c
  {
  }

  lemma LowercasePair(a: CodeUnit, b: CodeUnit)
    requires (Digit(a) || 0x61 <= a <= 0x66) && (Digit(b) || 0x61 <= b <= 0x66)
    ensures HexValue(a).Some? && HexValue(b).Some?
    ensures var x := 16 * HexValue(a).value + HexValue(b).value; HexDigit(x / 16) == a && HexDigit(x % 16) == b
  {
    LowercaseDigit(a);
    LowercaseDigit(b);
    var x := 16 * HexValue(a).value + HexValue(b).value;
    assert x / 16 == HexValue(a).value && x % 16 == HexValue(b).value;
  }

  lemma EncodePair(x: Byte, rest: ByteSeq)
    ensures HexEncode([x] + rest) == [HexDigit(x as int / 16), HexDigit(x as int % 16)] + HexEncode(rest)
  {
    assert ([x] + rest)[1..] == rest;
  }

  lemma {:induction false} LowercaseHexIsEncoded(s: JsString)
    requires |s| % 2 == 0 && forall c :: c in s ==> Digit(c) || 0x61 <= c <= 0x66
    ensures 2 * |HexDecode(s)| == |s| && HexEncode(HexDecode(s)) == s
    decreases |s|
  {
    if s != [] {
      assert s[0] in s && s[1] in s && forall c :: c in s[2..] ==> c in s;
      LowercaseHexIsEncoded(s[2..]);
      LowercasePair(s[0], s[1]);
      EncodePair((16 * HexValue(s[0]).value + HexValue(s[1]).value) as Byte, HexDecode(s[2..]));
      assert s == [s[0], s[1]] + s[2..];
    }
  }

  /** A valid root field is the text of a digest, and nothing else. */
  lemma RootFieldExactly(s: JsString)
    ensures RootHexText(s) <==> TextOfDigest(s)
  {
    if RootHexText(s) {
      LowercaseHexIsEncoded(s);
      var d: Digest := HexDecode(s);
      assert s == HexEncode(d);
    }
    if d: Digest :| s == HexEncode(d) {
      RootHexIsRootHexText(d);
    }
  }

  // ---------- What is signed, line by line ----------

  function Lines(s: JsString): (lines: seq<JsString>)
    ensures lines != []
  {
    if s == [] then [[]]
    else if s[0] == NEWLINE then [[]] + Lines(s[1..])
    else
      var rest := Lines(s[1..]);
      [[s[0]] + rest[0]] + rest[1..]
  }

  lemma {:induction false} OneLine(s: JsString)
    requires NEWLINE !in s
    ensures Lines(s) == [s]
  {
    if s != [] {
      assert s[0] in s && s == [s[0]] + s[1..];
      OneLine(s[1..]);
    }
  }

  lemma {:induction false} FirstLine(line: JsString, rest: JsString)
    requires NEWLINE !in line
    ensures Lines(line + ([NEWLINE] + rest)) == [line] + Lines(rest)
    decreases |line|
  {
    var s := line + ([NEWLINE] + rest);
    if line == [] {
      assert s[1..] == rest;
    } else {
      assert line[0] in line && line == [line[0]] + line[1..];
      FirstLine(line[1..], rest);
      assert s[1..] == line[1..] + ([NEWLINE] + rest);
    }
  }

  /** The context, the root, the size and the time, one to a line, in ASCII. */
  lemma SigningInputLines(f: HeadFields)
    requires RootHexText(f.rootHash)
    ensures Lines(SigningText(f)) == [Text("vane.sth.v1"), f.rootHash, IntText(f.treeSize), IntText(f.timestamp)]
    ensures |SigningInput(f)| == |SigningText(f)|
    ensures forall i :: 0 <= i < |SigningInput(f)| ==> SigningInput(f)[i] as int == SigningText(f)[i] as int
  {
    var size, time := IntText(f.treeSize), IntText(f.timestamp);
    var rest := f.rootHash + ([NEWLINE] + (size + ([NEWLINE] + time)));
    assert SigningText(f) == CONTEXT + ([NEWLINE] + rest);
    assert CONTEXT == Text("vane.sth.v1");
    FirstLine(CONTEXT, rest);
    FirstLine(f.rootHash, size + ([NEWLINE] + time));
    IntTextHasNoNewline(f.treeSize);
    IntTextHasNoNewline(f.timestamp);
    FirstLine(size, time);
    OneLine(time);
    SigningTextAscii(f);
    Utf8OfAscii(SigningText(f));
  }

  /** A head verifies exactly when its root is the text of a digest and its signature is good for the four lines. */
  lemma HeadVerifiesExactly(scheme: Scheme, head: SignedTreeHead, publicKey: JsString)
    ensures VerifyHead(scheme, head, publicKey) <==>
              TextOfDigest(head.rootHash) && scheme.verify(publicKey, SigningInput(Fields(head)), head.signature)
  {
    RootFieldExactly(head.rootHash);
  }

  ghost function SigningChecks(scheme: Scheme, f: HeadFields, privateKey: JsString): seq<Check<SignError>> {
    [Check(TextOfDigest(f.rootHash), InvalidRoot), Check(f.treeSize >= 0, InvalidSize), Check(f.timestamp >= 0, InvalidTimestamp),
     Check(scheme.sign(privateKey, SigningInput(f)).Some?, InvalidKey)]
  }

  /** Signing refuses with the first check that fails, and else returns the fields with their signature. */
  lemma SignHeadExactly(scheme: Scheme, f: HeadFields, privateKey: JsString)
    ensures var r := SignHead(scheme, f, privateKey);
            && FirstFailure(SigningChecks(scheme, f, privateKey), if r.Err? then Some(r.error) else None)
            && (r.Ok? ==> && Fields(r.value) == f && Some(r.value.signature) == scheme.sign(privateKey, SigningInput(f)))
  {
    RootFieldExactly(f.rootHash);
    var checks, r := SigningChecks(scheme, f, privateKey), SignHead(scheme, f, privateKey);
    if r.Err? {
      var k := match r.error case InvalidRoot => 0 case InvalidSize => 1 case InvalidTimestamp => 2 case InvalidKey => 3;
      assert FailsFirst(checks, k);
    }
  }

  lemma IntTextHasNoNewline(z: int)
    ensures NEWLINE !in IntText(z)
  {
    assert !Digit(NEWLINE) && NEWLINE != MINUS;
  }

  /** No two valid heads are signed over the same bytes. */
  lemma SigningInputInjective(f: HeadFields, g: HeadFields)
    requires RootHexText(f.rootHash) && RootHexText(g.rootHash)
    requires SigningInput(f) == SigningInput(g)
    ensures f == g
  {
    SigningTextWellFormed(f);
    SigningTextWellFormed(g);
    Utf8RoundTrip(SigningText(f));
    Utf8RoundTrip(SigningText(g));
    SigningTextSlices(f);
    SigningTextSlices(g);
    IntTextHasNoNewline(f.treeSize);
    IntTextHasNoNewline(g.treeSize);
    SplitAtSeparator(IntText(f.treeSize), IntText(g.treeSize), NEWLINE, IntText(f.timestamp), IntText(g.timestamp));
    IntTextInjective(f.treeSize, g.treeSize);
    IntTextInjective(f.timestamp, g.timestamp);
  }

  lemma SigningTextSlices(f: HeadFields)
    requires RootHexText(f.rootHash)
    ensures |SigningText(f)| >= 77
    ensures SigningText(f)[12..76] == f.rootHash
    ensures SigningText(f)[77..] == IntText(f.treeSize) + [NEWLINE] + IntText(f.timestamp)
  {
  }

  lemma SigningTextWellFormed(f: HeadFields)
    requires RootHexText(f.rootHash)
    ensures WellFormed(SigningText(f))
  {
    SigningTextAscii(f);
    NoSurrogatesWellFormed(SigningText(f));
  }

  lemma SigningTextAscii(f: HeadFields)
    requires RootHexText(f.rootHash)
    ensures forall c :: c in SigningText(f) ==> c < 0x80
  {
    forall c | c in SigningText(f)
      ensures c < 0x80
    {
      if c in IntText(f.treeSize) || c in IntText(f.timestamp) || c in f.rootHash || c in CONTEXT || c == NEWLINE {
      }
    }
  }

  ghost predicate KeyPair(scheme: Scheme, privateKey: JsString, publicKey: JsString) {
    forall m :: scheme.sign(privateKey, m).Some? ==> scheme.verify(publicKey, m, scheme.sign(privateKey, m).value)
  }

  lemma SignedHeadVerifies(scheme: Scheme, f: HeadFields, privateKey: JsString, publicKey: JsString)
    requires KeyPair(scheme, privateKey, publicKey)
    requires SignHead(scheme, f, privateKey).Ok?
    ensures Fields(SignHead(scheme, f, privateKey).value) == f
    ensures VerifyHead(scheme, SignHead(scheme, f, privateKey).value, publicKey)
  {
    var m := SigningInput(f);
    assert scheme.sign(privateKey, m).Some?;
  }

  /** A message that the CA key may sign for another purpose: it does not begin with the context of tree heads. */
  predicate ForeignMessage(m: ByteSeq) {
    !(Utf8(CONTEXT + [NEWLINE]) <= m)
  }

  /** The context keeps tree heads apart from every such message. */
  lemma SigningInputIsNotForeign(f: HeadFields)
    ensures !ForeignMessage(SigningInput(f))
  {
    var rest := f.rootHash + ([NEWLINE] + (IntText(f.treeSize) + [NEWLINE] + IntText(f.timestamp)));
    assert SigningText(f) == CONTEXT + ([NEWLINE] + rest);
    Utf8Concat(CONTEXT, [NEWLINE] + rest);
    Utf8Concat(CONTEXT, [NEWLINE]);
    Utf8Newline(rest);
    Utf8Newline([]);
    assert [NEWLINE] + [] == [NEWLINE];
  }

  lemma Utf8Newline(s: JsString)
    ensures Utf8([NEWLINE] + s) == [0x0a] + Utf8(s)
  {
    assert ([NEWLINE] + s)[1..] == s;
  }

  /** What the CA key has signed is the signing input of an issued head, or foreign. */
  ghost predicate OnlyHeadsAndForeign(signed: set<ByteSeq>, issued: set<HeadFields>) {
    forall m :: m in signed ==>
                  ForeignMessage(m) || exists f :: f in issued && RootHexText(f.rootHash) && m == SigningInput(f)
  }

  /** If a head that verifies was signed at all, it carries exactly the fields of an issued one: no field can be
      altered, and nothing signed for another purpose passes for a head. */
  lemma SignedHeadWasIssued(scheme: Scheme, head: SignedTreeHead, publicKey: JsString, signed: set<ByteSeq>,
                            issued: set<HeadFields>)
    requires OnlyHeadsAndForeign(signed, issued)
    requires VerifyHead(scheme, head, publicKey) && SigningInput(Fields(head)) in signed
    ensures Fields(head) in issued
  {
    SigningInputIsNotForeign(Fields(head));
    var f :| f in issued && RootHexText(f.rootHash) && SigningInput(Fields(head)) == SigningInput(f);
    SigningInputInjective(Fields(head), f);
  }
}
