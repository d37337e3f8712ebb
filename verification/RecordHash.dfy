/** The preimage of a record, index|timestamp|payload[|delegation], and what its hash pins. */
module RecordHash {
  import opened Bytes
  import opened JsText
  import opened Signer
  import opened SignerProofs

  /** A delegation that is absent is undefined. */
  datatype Record = Record(index: Num, timestamp: JsString, payload: Json, delegation: Json, hash: JsString, signature: JsString)

  const NO_DELEGATION := Unsupported(Undefined)

  /** The number of an integer index. */
  function IndexNum(i: nat): Num {
    Finite(Decimal(i))
  }

  /** A number inside a template literal. */
  function NumText(n: Num): JsString {
    match n
    case Finite(text) => text
    case NaN => [0x4e, 0x61, 0x4e]
    case Infinity(negative) => (if negative then [MINUS] else []) + [0x49, 0x6e, 0x66, 0x69, 0x6e, 0x69, 0x74, 0x79]
  }

  lemma FiniteTextIsNumeric(n: Num)
    ensures n.Finite? <==> NumberChar(NumText(n)[0]) && NumberChar(NumText(n)[|NumText(n)| - 1])
    ensures forall c :: c in NumText(n) ==> c != BAR && c < 0x80
  {
    if n.Finite? {
      assert n.text[0] in n.text && n.text[|n.text| - 1] in n.text;
    }
  }

  lemma NumTextPins(m: Num, n: Num)
    requires NumText(m) == NumText(n)
    ensures m == n
  {
    FiniteTextIsNumeric(m);
    FiniteTextIsNumeric(n);
    if m.Infinity? && n.Infinity? {
      assert |NumText(m)| == |NumText(n)|;
    }
    assert m.NaN? || n.NaN? ==> |NumText(m)| == 3;
  }

  /** JavaScript truthiness.  (The value 0n, which JSON cannot carry, is not told apart from other BigInts.) */
  predicate Truthy(v: Json) {
    match v
    case Null => false
    case Bool(b) => b
    case Number(n) => n != Finite([0x30]) && n != NaN
    case Str(s) => s != []
    case Unsupported(kind) => kind != Undefined
    case _ => true
  }

  /** What follows the timestamp. */
  function Content(payload: Json, delegation: Json): Printed {
    var body := Canonicalize(payload);
    if body.Err? || !Truthy(delegation) then body
    else
      var chain := Canonicalize(delegation);
      if chain.Err? then chain else Ok(body.value + [BAR] + chain.value)
  }

  function Preimage(index: Num, timestamp: JsString, payload: Json, delegation: Json): Printed {
    var content := Content(payload, delegation);
    if content.Err? then content else Ok(NumText(index) + [BAR] + timestamp + [BAR] + content.value)
  }

  function RecordPreimage(r: Record): Printed {
    Preimage(r.index, r.timestamp, r.payload, r.delegation)
  }

  /** The hash field of a record: computed from the other fields, whatever the record claims. */
  function ComputeRecordHash(H: Hash, r: Record): Printed {
    var p := RecordPreimage(r);
    if p.Err? then p else Ok(HexEncode(H(Utf8(p.value))))
  }

  /** What JavaScript counts as false. */
  lemma FalsyExactly(v: Json)
    ensures !Truthy(v) <==> v in {NO_DELEGATION, Null, Bool(false), Number(Finite(Text("0"))), Number(NaN), Str(Text(""))}
  {
    assert Text("0") == [0x30] && Text("") == [];
  }

  lemma NumTexts()
    ensures NumText(NaN) == Text("NaN")
    ensures NumText(Infinity(false)) == Text("Infinity")
    ensures NumText(Infinity(true)) == [MINUS] + NumText(Infinity(false))
  {
    NotANumberText();
    InfinityText();
  }

  lemma NotANumberText()
    ensures NumText(NaN) == Text("NaN")
  {
  }

  lemma InfinityText()
    ensures NumText(Infinity(false)) == Text("Infinity")
  {
    assert [] + NumText(Infinity(false)) == NumText(Infinity(false));
  }

  /** The text that is hashed: index, timestamp and payload, and the delegation if there is one, with a bar between. */
  ghost function HashedText(r: Record): JsString
    requires Canonicalize(r.payload).Ok? && (Truthy(r.delegation) ==> Canonicalize(r.delegation).Ok?)
  {
    NumText(r.index) + Text("|") + r.timestamp + Text("|") + Canonicalize(r.payload).value
    + if Truthy(r.delegation) then Text("|") + Canonicalize(r.delegation).value else []
  }

  /** The hash of a record is that of these bytes, in hexadecimal; what cannot be canonicalised is refused, the payload
      first. */
  lemma RecordHashExactly(H: Hash, r: Record)
    ensures Canonicalize(r.payload).Err? ==> ComputeRecordHash(H, r) == Err(Canonicalize(r.payload).error)
    ensures Canonicalize(r.payload).Ok? && Truthy(r.delegation) && Canonicalize(r.delegation).Err? ==>
              ComputeRecordHash(H, r) == Err(Canonicalize(r.delegation).error)
    ensures Canonicalize(r.payload).Ok? && (Truthy(r.delegation) ==> Canonicalize(r.delegation).Ok?) ==>
              ComputeRecordHash(H, r) == Ok(HexEncode(H(Utf8(HashedText(r)))))
  {
    assert Text("|") == [BAR];
    if Canonicalize(r.payload).Ok? && (Truthy(r.delegation) ==> Canonicalize(r.delegation).Ok?) {
      var base, body := NumText(r.index) + [BAR] + r.timestamp + [BAR], Canonicalize(r.payload).value;
      if Truthy(r.delegation) {
        var chain := Canonicalize(r.delegation).value;
        assert base + (body + [BAR] + chain) == base + body + ([BAR] + chain);
      } else {
        assert base + body + [] == base + body;
      }
      assert RecordPreimage(r) == Ok(HashedText(r));
    }
  }

  // ---------- Records as they are shown ----------

  /** A record as it arrives in a proof: whatever JSON values its fields hold; an absent one is undefined. */
  datatype Shown = Shown(index: Json, timestamp: Json, payload: Json, delegation: Json, hash: Json)

  function Show(r: Record): Shown {
    Shown(Number(r.index), Str(r.timestamp), r.payload, r.delegation, Str(r.hash))
  }

  /** "undefined" */
  const UNDEFINED_TEXT: JsString := [0x75, 0x6e, 0x64, 0x65, 0x66, 0x69, 0x6e, 0x65, 0x64]

  /** "[object Object]" */
  const OBJECT_TEXT: JsString := [0x5b, 0x6f, 0x62, 0x6a, 0x65, 0x63, 0x74, 0x20, 0x4f, 0x62, 0x6a, 0x65, 0x63, 0x74, 0x5d]

  /** "toString" */
  const TO_STRING: JsString := [0x74, 0x6f, 0x53, 0x74, 0x72, 0x69, 0x6e, 0x67]

  /** A value inside a template literal; None when that throws, as for an object with a field toString, which in JSON
      cannot be a function.  (Functions, symbols and BigInts, which JSON cannot carry, are not told apart.) */
  function TemplateText(v: Json): Option<JsString> {
    match v
    case Null => Some(NULL_TEXT)
    case Bool(b) => Some(if b then TRUE_TEXT else FALSE_TEXT)
    case Number(n) => Some(NumText(n))
    case Str(s) => Some(s)
    case Arr(items) =>
      (match ElementTexts(items)
       case None => None
       case Some(texts) => Some(Join(texts)))
    case Obj(members) => if exists m :: m in members && m.key == TO_STRING then None else Some(OBJECT_TEXT)
    case Unsupported(kind) => if kind == Undefined then Some(UNDEFINED_TEXT) else None
  }

  /** The elements of an array before they are joined by commas: null and undefined leave nothing. */
  function ElementTexts(items: seq<Json>): Option<seq<JsString>> {
    if items == [] then Some([])
    else
      var first := if items[0] == Null || items[0] == NO_DELEGATION then Some([]) else TemplateText(items[0]);
      var rest := ElementTexts(items[1..]);
      if first.None? || rest.None? then None else Some([first.value] + rest.value)
  }

  function ShownPreimage(r: Shown): Option<JsString> {
    var index, timestamp, content := TemplateText(r.index), TemplateText(r.timestamp), Content(r.payload, r.delegation);
    if index.None? || timestamp.None? || content.Err? then None
    else Some(index.value + [BAR] + timestamp.value + [BAR] + content.value)
  }

  function ShownHash(H: Hash, r: Shown): Option<JsString> {
    var p := ShownPreimage(r);
    if p.None? then None else Some(HexEncode(H(Utf8(p.value))))
  }

  /** What String() makes of the values of JSON. */
  lemma TemplateTexts(members: seq<Member<Json>>)
    ensures TemplateText(NO_DELEGATION) == Some(Text("undefined")) && TemplateText(Null) == Some(Text("null"))
    ensures TemplateText(Bool(true)) == Some(Text("true")) && TemplateText(Bool(false)) == Some(Text("false"))
    ensures (forall n :: TemplateText(Number(n)) == Some(NumText(n))) && forall s :: TemplateText(Str(s)) == Some(s)
    ensures TemplateText(Obj(members)) == if exists m :: m in members && m.key == Text("toString") then None
                                          else Some(Text("[object Object]"))
  {
    assert UNDEFINED_TEXT == Text("undefined") && OBJECT_TEXT == Text("[object Object]") && TO_STRING == Text("toString");
    assert NULL_TEXT == Text("null") && TRUE_TEXT == Text("true") && FALSE_TEXT == Text("false");
  }

  /** An array is its elements joined by commas, null and undefined leaving nothing. */
  lemma ArrayTexts(x: Json, items: seq<Json>)
    ensures TemplateText(Arr([])) == Some([])
    ensures TemplateText(Arr([x])) == if x in {Null, NO_DELEGATION} then Some([]) else TemplateText(x)
    ensures items != [] ==>
              TemplateText(Arr([x] + items)) == if TemplateText(Arr([x])).None? || TemplateText(Arr(items)).None? then None
                                                else Some(TemplateText(Arr([x])).value + Text(",") + TemplateText(Arr(items)).value)
  {
    assert Text(",") == [COMMA];
    assert [x][1..] == [] && ([x] + items)[1..] == items;
    ElementCount(items);
  }

  lemma {:induction false} ElementCount(items: seq<Json>)
    ensures ElementTexts(items).Some? ==> |ElementTexts(items).value| == |items|
    decreases items
  {
    if items != [] {
      ElementCount(items[1..]);
    }
  }

  /** A record of the log is hashed the same way. */
  lemma ShowKeepsHash(H: Hash, r: Record)
    ensures RecordPreimage(r).Ok? <==> ShownPreimage(Show(r)).Some?
    ensures RecordPreimage(r).Ok? ==> ShownPreimage(Show(r)).value == RecordPreimage(r).value
    ensures RecordPreimage(r).Ok? ==> ShownHash(H, Show(r)) == Some(ComputeRecordHash(H, r).value)
  {
  }

  // ---------- What a preimage determines ----------

  /** Equal but for the order of object keys; falsy delegations all mean none. */
  ghost predicate SameContent(r: Shown, s: Shown) {
    && Sorted(r.payload) == Sorted(s.payload)
    && Truthy(r.delegation) == Truthy(s.delegation)
    && (Truthy(r.delegation) ==> Sorted(r.delegation) == Sorted(s.delegation))
  }

  /** Records that agree in everything the hash covers, index and timestamp being compared as they are hashed, as text. */
  ghost predicate SameShown(r: Shown, s: Shown) {
    && TemplateText(r.index) == TemplateText(s.index)
    && TemplateText(r.timestamp) == TemplateText(s.timestamp)
    && SameContent(r, s)
  }

  /** The record shown is the logged one. */
  ghost predicate SameRecord(r: Shown, x: Record) {
    SameShown(r, Show(x))
  }

  predicate CleanTimestamp(t: JsString) {
    BAR !in t && WellFormed(t)
  }

  function IndexText(r: Shown): JsString
    requires ShownPreimage(r).Some?
  {
    TemplateText(r.index).value
  }

  function TimestampText(r: Shown): JsString
    requires ShownPreimage(r).Some?
  {
    TemplateText(r.timestamp).value
  }

  function ContentText(r: Shown): JsString
    requires ShownPreimage(r).Some?
  {
    Content(r.payload, r.delegation).value
  }

  lemma ContentWellFormed(r: Shown)
    requires Content(r.payload, r.delegation).Ok?
    ensures WellFormed(Content(r.payload, r.delegation).value)
  {
    CanonicalWellFormed(r.payload);
    if Truthy(r.delegation) {
      CanonicalWellFormed(r.delegation);
      NoSurrogatesWellFormed([BAR]);
      WellFormedConcat(Canonicalize(r.payload).value, [BAR]);
      WellFormedConcat(Canonicalize(r.payload).value + [BAR], Canonicalize(r.delegation).value);
    }
  }

  function Tail(r: Shown): JsString
    requires Content(r.payload, r.delegation).Ok?
  {
    if Truthy(r.delegation) then [BAR] + Canonicalize(r.delegation).value else []
  }

  lemma EqualContent(r: Shown, s: Shown)
    requires Content(r.payload, r.delegation).Ok? && Content(s.payload, s.delegation).Ok?
    requires Content(r.payload, r.delegation).value == Content(s.payload, s.delegation).value
    ensures SameContent(r, s)
  {
    ContentSplits(r);
    ContentSplits(s);
    CanonicalPrefixFree(r.payload, s.payload, Tail(r), Tail(s));
    if Truthy(r.delegation) && Truthy(s.delegation) {
      assert Tail(r)[1..] == Canonicalize(r.delegation).value && Tail(s)[1..] == Canonicalize(s.delegation).value;
      CanonicalPrefixFree(r.delegation, s.delegation, [], []);
    }
  }

  lemma ContentSplits(r: Shown)
    requires Content(r.payload, r.delegation).Ok?
    ensures Canonicalize(r.payload).Ok? && (Truthy(r.delegation) ==> Canonicalize(r.delegation).Ok?)
    ensures Content(r.payload, r.delegation).value == Canonicalize(r.payload).value + Tail(r)
    ensures Delimited(Tail(r))
  {
  }

  /** The bytes that are hashed. */
  function ShownBytes(r: Shown): ByteSeq {
    var p := ShownPreimage(r);
    if p.Some? then Utf8(p.value) else []
  }

  /** They are cut at two bars. */
  lemma PreimageBytes(r: Shown)
    requires ShownPreimage(r).Some?
    ensures ShownBytes(r) == Utf8(IndexText(r)) + [0x7c] + (Utf8(TimestampText(r)) + [0x7c] + Utf8(ContentText(r)))
  {
    CutAtBars(IndexText(r), TimestampText(r), ContentText(r));
  }

  lemma CutAtBars(a: JsString, b: JsString, c: JsString)
    ensures Utf8(a + [BAR] + b + [BAR] + c) == Utf8(a) + [0x7c] + (Utf8(b) + [0x7c] + Utf8(c))
  {
    var rest := b + ([BAR] + c);
    assert a + [BAR] + b + [BAR] + c == a + ([BAR] + rest);
    CutAtBar(a, rest);
    CutAtBar(b, c);
  }

  lemma CutAtBar(a: JsString, rest: JsString)
    ensures Utf8(a + ([BAR] + rest)) == Utf8(a) + [0x7c] + Utf8(rest)
  {
    Utf8Concat(a, [BAR] + rest);
    Utf8Bar(rest);
  }

  lemma Utf8Bar(s: JsString)
    ensures Utf8([BAR] + s) == [0x7c] + Utf8(s)
  {
    assert ([BAR] + s)[1..] == s;
  }

  lemma Utf8Injective(s: JsString, t: JsString)
    requires WellFormed(s) && WellFormed(t) && Utf8(s) == Utf8(t)
    ensures s == t
  {
    Utf8RoundTrip(s);
    Utf8RoundTrip(t);
  }

  /** An index text without a bar is the number's, and what follows it agrees. */
  lemma IndexWithoutBar(r: Shown, x: Record)
    requires ShownPreimage(r).Some? && ShownPreimage(Show(x)).Some? && ShownBytes(r) == ShownBytes(Show(x))
    requires BAR !in IndexText(r)
    ensures IndexText(r) == NumText(x.index)
    ensures Utf8(TimestampText(r)) + [0x7c] + Utf8(ContentText(r)) == Utf8(x.timestamp) + [0x7c] + Utf8(ContentText(Show(x)))
  {
    PreimageBytes(r);
    PreimageBytes(Show(x));
    FiniteTextIsNumeric(x.index);
    Utf8Ascii(IndexText(r), BAR);
    Utf8Ascii(NumText(x.index), BAR);
    SplitAtSeparator(Utf8(IndexText(r)), Utf8(NumText(x.index)), 0x7c, Utf8(TimestampText(r)) + [0x7c] + Utf8(ContentText(r)),
                     Utf8(x.timestamp) + [0x7c] + Utf8(ContentText(Show(x))));
    AsciiPinned(IndexText(r), NumText(x.index));
  }

  lemma SameTimestamp(r: Shown, x: Record)
    requires ShownPreimage(r).Some? && ShownPreimage(Show(x)).Some? && ShownBytes(r) == ShownBytes(Show(x))
    requires IndexText(r) == NumText(x.index) && TimestampText(r) == x.timestamp
    ensures SameRecord(r, x)
  {
    FiniteTextIsNumeric(x.index);
    IndexWithoutBar(r, x);
    var u, c, d := Utf8(x.timestamp), ContentText(r), ContentText(Show(x));
    assert Utf8(c) == (u + [0x7c] + Utf8(c))[|u| + 1..];
    assert Utf8(d) == (u + [0x7c] + Utf8(d))[|u| + 1..];
    ContentWellFormed(r);
    ContentWellFormed(Show(x));
    Utf8Injective(c, d);
    EqualContent(r, Show(x));
  }

  lemma CleanTimestampsAgree(r: Shown, x: Record)
    requires ShownPreimage(r).Some? && ShownPreimage(Show(x)).Some? && ShownBytes(r) == ShownBytes(Show(x))
    requires BAR !in IndexText(r) && CleanTimestamp(TimestampText(r)) && CleanTimestamp(x.timestamp)
    ensures TimestampText(r) == x.timestamp
  {
    IndexWithoutBar(r, x);
    Utf8Ascii(TimestampText(r), BAR);
    Utf8Ascii(x.timestamp, BAR);
    SplitAtSeparator(Utf8(TimestampText(r)), Utf8(x.timestamp), 0x7c, Utf8(ContentText(r)), Utf8(ContentText(Show(x))));
    Utf8Injective(TimestampText(r), x.timestamp);
  }

  /** What is shown with the preimage bytes of a logged record is that record exactly when index and timestamp agree as
      text.  Beside a record with a clean timestamp, which is one without a bar or a lone surrogate, it is that record
      exactly when the text of its own index holds no bar and that of its timestamp is clean. */
  lemma PreimagePinsRecord(r: Shown, x: Record)
    requires ShownPreimage(r).Some? && ShownPreimage(Show(x)).Some? && ShownBytes(r) == ShownBytes(Show(x))
    ensures SameRecord(r, x) <==> IndexText(r) == NumText(x.index) && TimestampText(r) == x.timestamp
    ensures CleanTimestamp(x.timestamp) ==>
              (SameRecord(r, x) <==> BAR !in IndexText(r) && CleanTimestamp(TimestampText(r)))
    ensures BAR !in IndexText(r) ==> IndexText(r) == NumText(x.index)
    ensures r.index.Number? ==> r.index == Number(x.index)
  {
    FiniteTextIsNumeric(x.index);
    if BAR !in IndexText(r) {
      IndexWithoutBar(r, x);
      if CleanTimestamp(TimestampText(r)) && CleanTimestamp(x.timestamp) {
        CleanTimestampsAgree(r, x);
      }
    }
    if IndexText(r) == NumText(x.index) && TimestampText(r) == x.timestamp {
      SameTimestamp(r, x);
    }
    if r.index.Number? {
      FiniteTextIsNumeric(r.index.n);
      NumTextPins(r.index.n, x.index);
    }
  }

  lemma SameTimestampBytes(r: Shown, t: JsString)
    requires ShownPreimage(r).Some? && Utf8(TimestampText(r)) == Utf8(t)
    ensures ShownPreimage(r.(timestamp := Str(t))).Some? && ShownBytes(r.(timestamp := Str(t))) == ShownBytes(r)
  {
    PreimageBytes(r);
    PreimageBytes(r.(timestamp := Str(t)));
  }

  lemma Utf8Lone(a: JsString, b: JsString)
    requires b == [] || !Low(b[0])
    ensures Utf8(a + ([0xd800] + b)) == Utf8(a + ([0xfffd] + b))
  {
    Utf8Concat(a, [0xd800] + b);
    Utf8Concat(a, [0xfffd] + b);
    assert ([0xd800] + b)[1..] == b && ([0xfffd] + b)[1..] == b;
  }

  /** A lone surrogate in a timestamp is hashed like U+FFFD: wherever that stands, another record has the same
      preimage. */
  lemma LoneSurrogateInTimestampIsAmbiguous(r: Shown, a: JsString, b: JsString)
    requires ShownPreimage(r).Some? && TimestampText(r) == a + ([0xfffd] + b) && (b == [] || !Low(b[0]))
    ensures var s := r.(timestamp := Str(a + ([0xd800] + b)));
            ShownPreimage(s).Some? && ShownBytes(s) == ShownBytes(r) && !SameShown(s, r)
  {
    Utf8Lone(a, b);
    SameTimestampBytes(r, a + ([0xd800] + b));
    assert (a + ([0xd800] + b))[|a|] != (a + ([0xfffd] + b))[|a|];
  }

  // ---------- Logs ----------

  function Hashes(log: seq<Record>): seq<JsString> {
    seq(|log|, i requires 0 <= i < |log| => log[i].hash)
  }

  lemma HashesAppend(log: seq<Record>, record: Record)
    ensures Hashes(log + [record]) == Hashes(log) + [record.hash]
  {
  }

  /** Record i has index i and the hash of its contents. */
  ghost predicate HonestLog(H: Hash, log: seq<Record>) {
    forall i :: 0 <= i < |log| ==> log[i].index == IndexNum(i) && ComputeRecordHash(H, log[i]) == Ok(log[i].hash)
  }

  lemma HonestPrefix(H: Hash, log: seq<Record>, n: int)
    requires HonestLog(H, log) && 0 <= n <= |log|
    ensures HonestLog(H, log[..n]) && Hashes(log[..n]) == Hashes(log)[..n]
  {
  }
}
