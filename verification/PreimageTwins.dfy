/** Which records share their preimage with another one. */
module PreimageTwins {
  import opened Bytes
  import opened JsText
  import opened Signer
  import opened SignerProofs
  import opened RecordHash

  // ---------- A delegated record has twins ----------

  /** The payload taken for a part of the timestamp, and the delegation for the payload. */
  function TimestampTwin(r: Shown): Shown
    requires ShownPreimage(r).Some? && Canonicalize(r.payload).Ok?
  {
    Shown(r.index, Str(TimestampText(r) + [BAR] + Canonicalize(r.payload).value), r.delegation, NO_DELEGATION, r.hash)
  }

  /** The timestamp taken for a part of the index, the payload for the timestamp, and the delegation for the payload. */
  function IndexTwin(r: Shown): Shown
    requires ShownPreimage(r).Some? && Canonicalize(r.payload).Ok?
  {
    Shown(Str(IndexText(r) + [BAR] + TimestampText(r)), Str(Canonicalize(r.payload).value), r.delegation, NO_DELEGATION, r.hash)
  }

  lemma TimestampTwinSame(r: Shown)
    requires ShownPreimage(r).Some? && Truthy(r.delegation) && Canonicalize(r.payload).Ok?
    ensures ShownPreimage(TimestampTwin(r)) == ShownPreimage(r)
    ensures BAR in TimestampText(TimestampTwin(r)) && TimestampText(TimestampTwin(r)) != TimestampText(r)
  {
    var index, t := IndexText(r), TimestampText(r);
    var p, d := Canonicalize(r.payload).value, Canonicalize(r.delegation).value;
    assert index + [BAR] + (t + [BAR] + p) + [BAR] + d == index + [BAR] + t + [BAR] + (p + [BAR] + d);
    assert (t + [BAR] + p)[|t|] == BAR;
  }

  lemma IndexTwinSame(r: Shown)
    requires ShownPreimage(r).Some? && Truthy(r.delegation) && Canonicalize(r.payload).Ok?
    ensures ShownPreimage(IndexTwin(r)) == ShownPreimage(r)
    ensures BAR in IndexText(IndexTwin(r)) && IndexText(IndexTwin(r)) != IndexText(r)
  {
    var index, t := IndexText(r), TimestampText(r);
    var p, d := Canonicalize(r.payload).value, Canonicalize(r.delegation).value;
    assert (index + [BAR] + t) + [BAR] + p + [BAR] + d == index + [BAR] + t + [BAR] + (p + [BAR] + d);
    assert (index + [BAR] + t)[|index|] == BAR;
  }

  /** Every delegated record shares its preimage with two others: one has a bar in its timestamp, the other in its index
      and a clean timestamp unless the payload holds a bar. */
  lemma TwinsHaveSamePreimage(r: Shown)
    requires ShownPreimage(r).Some? && Truthy(r.delegation)
    ensures Canonicalize(r.payload).Ok?
    ensures ShownPreimage(TimestampTwin(r)) == ShownPreimage(r) == ShownPreimage(IndexTwin(r))
    ensures !SameShown(TimestampTwin(r), r) && !SameShown(IndexTwin(r), r)
    ensures BAR in TimestampText(TimestampTwin(r)) && BAR in IndexText(IndexTwin(r))
    ensures CleanTimestamp(TimestampText(IndexTwin(r))) <==> BAR !in Canonicalize(r.payload).value
  {
    TimestampTwinSame(r);
    IndexTwinSame(r);
    CanonicalWellFormed(r.payload);
  }

  // ---------- Reading canonical text ----------

  /** Outside or inside a string, after a backslash inside one, or broken: no canonical text continues so. */
  datatype Mode = Outside | Inside | Escaped | Broken

  function Step(mode: Mode, c: int): Mode {
    match mode
    case Outside => if c == 0x22 then Inside else if c == 0x5c || c == 0x7c then Broken else Outside
    case Inside => if c == 0x22 then Outside else if c == 0x5c then Escaped else Inside
    case Escaped => Inside
    case Broken => Broken
  }

  function Scan(mode: Mode, s: JsString): Mode
    decreases |s|
  {
    if s == [] then mode else Scan(Step(mode, s[0] as int), s[1..])
  }

  function ScanBytes(mode: Mode, b: ByteSeq): Mode
    decreases |b|
  {
    if b == [] then mode else ScanBytes(Step(mode, b[0] as int), b[1..])
  }

  lemma {:induction false} ScanConcat(mode: Mode, s: JsString, t: JsString)
    ensures Scan(mode, s + t) == Scan(Scan(mode, s), t)
    decreases |s|
  {
    if s == [] {
      assert s + t == t;
    } else {
      assert (s + t)[1..] == s[1..] + t;
      ScanConcat(Step(mode, s[0] as int), s[1..], t);
    }
  }

  lemma {:induction false} ScanBytesConcat(mode: Mode, s: ByteSeq, t: ByteSeq)
    ensures ScanBytes(mode, s + t) == ScanBytes(ScanBytes(mode, s), t)
    decreases |s|
  {
    if s == [] {
      assert s + t == t;
    } else {
      assert (s + t)[1..] == s[1..] + t;
      ScanBytesConcat(Step(mode, s[0] as int), s[1..], t);
    }
  }

  lemma ScanOne(mode: Mode, c: CodeUnit)
    ensures Scan(mode, [c]) == Step(mode, c as int)
  {
    assert [c][1..] == [];
  }

  lemma ScanTwo(mode: Mode, c: CodeUnit, d: CodeUnit)
    ensures Scan(mode, [c, d]) == Step(Step(mode, c as int), d as int)
  {
    ScanConcat(mode, [c], [d]);
    ScanOne(mode, c);
    ScanOne(Step(mode, c as int), d);
    assert [c] + [d] == [c, d];
  }

  /** Units that are nothing special. */
  lemma {:induction false} ScanPlain(mode: Mode, s: JsString)
    requires mode == Outside || mode == Inside
    requires forall c :: c in s ==> c != QUOTE && c != BACKSLASH && c != BAR
    ensures Scan(mode, s) == mode
    decreases |s|
  {
    if s != [] {
      assert s[0] in s && forall c :: c in s[1..] ==> c in s;
      ScanPlain(mode, s[1..]);
    }
  }

  lemma {:induction false} ScanHighBytes(mode: Mode, b: ByteSeq)
    requires b != [] && forall i :: 0 <= i < |b| ==> b[i] >= 0x80
    ensures ScanBytes(mode, b) == Step(mode, 0x80)
    decreases |b|
  {
    if |b| > 1 {
      ScanHighBytes(Step(mode, b[0] as int), b[1..]);
    }
  }

  lemma ScanLead(mode: Mode, s: JsString)
    requires s != []
    ensures ScanBytes(mode, CodePointBytes(LeadCodePoint(s))) == Scan(mode, s[..LeadUnits(s)])
  {
    var cp := LeadCodePoint(s);
    if StartsWithPair(s) {
      assert s[..2] == [s[0], s[1]];
      ScanTwo(mode, s[0], s[1]);
      ScanHighBytes(mode, CodePointBytes(cp));
    } else {
      assert s[..1] == [s[0]];
      ScanOne(mode, s[0]);
      if cp >= 0x80 {
        ScanHighBytes(mode, CodePointBytes(cp));
      } else {
        assert CodePointBytes(cp)[1..] == [];
      }
    }
  }

  /** Reading the bytes of a text comes to the same as reading its units. */
  lemma {:induction false} ScanUtf8(mode: Mode, s: JsString)
    ensures ScanBytes(mode, Utf8(s)) == Scan(mode, s)
    decreases |s|
  {
    if s != [] {
      var n := LeadUnits(s);
      ScanLead(mode, s);
      ScanBytesConcat(mode, CodePointBytes(LeadCodePoint(s)), Utf8(s[n..]));
      ScanUtf8(Scan(mode, s[..n]), s[n..]);
      ScanConcat(mode, s[..n], s[n..]);
      assert s == s[..n] + s[n..];
    }
  }

  // ---------- Canonical text is read from outside to outside ----------

  lemma ScanEscapedUnit(c: CodeUnit)
    ensures Scan(Inside, EscapeUnit(c)) == Inside
  {
    var e := EscapeUnit(c);
    if |e| == 1 {
      ScanOne(Inside, c);
    } else if |e| == 2 {
      ScanTwo(Inside, e[0], e[1]);
    } else {
      ScanTwo(Inside, e[0], e[1]);
      assert forall i :: 2 <= i < 6 ==> e[i] != QUOTE && e[i] != BACKSLASH && e[i] != BAR;
      ScanPlain(Inside, e[2..]);
      ScanConcat(Inside, e[..2], e[2..]);
      assert e == e[..2] + e[2..] && e[..2] == [e[0], e[1]];
    }
  }

  lemma {:induction false} ScanEscape(s: JsString)
    ensures Scan(Inside, Escape(s)) == Inside
    decreases |s|
  {
    if s != [] {
      EscapeStep(s);
      var first := if StartsWithPair(s) then [s[0], s[1]] else EscapeUnit(s[0]);
      if StartsWithPair(s) {
        ScanTwo(Inside, s[0], s[1]);
      } else {
        ScanEscapedUnit(s[0]);
      }
      ScanConcat(Inside, first, Escape(s[LeadUnits(s)..]));
      ScanEscape(s[LeadUnits(s)..]);
    }
  }

  lemma ScanQuoted(s: JsString)
    ensures Scan(Outside, Quoted(s)) == Outside
  {
    ScanOne(Outside, QUOTE);
    ScanOne(Inside, QUOTE);
    ScanEscape(s);
    ScanConcat(Outside, [QUOTE], Escape(s));
    ScanConcat(Outside, [QUOTE] + Escape(s), [QUOTE]);
  }

  /** Text that is read from outside to outside. */
  ghost predicate Closed(t: JsString) {
    Scan(Outside, t) == Outside
  }

  lemma ClosedConcat(s: JsString, t: JsString)
    requires Closed(s) && Closed(t)
    ensures Closed(s + t)
  {
    ScanConcat(Outside, s, t);
  }

  lemma ClosedUnit(c: CodeUnit)
    requires c != QUOTE && c != BACKSLASH && c != BAR
    ensures Closed([c])
  {
    ScanOne(Outside, c);
  }

  lemma {:induction false} ClosedJoin(texts: seq<JsString>)
    requires forall t :: t in texts ==> Closed(t)
    ensures Closed(Join(texts))
  {
    if |texts| > 1 {
      ClosedJoin(texts[1..]);
      ClosedUnit(COMMA);
      ClosedConcat(texts[0], [COMMA]);
      ClosedConcat(texts[0] + [COMMA], Join(texts[1..]));
    }
  }

  lemma ClosedBrackets(open: CodeUnit, text: JsString, close: CodeUnit)
    requires Closed(text) && open in [OPEN_ARRAY, OPEN_OBJECT] && close in [CLOSE_ARRAY, CLOSE_OBJECT]
    ensures Closed([open] + text + [close])
  {
    ClosedUnit(open);
    ClosedUnit(close);
    ClosedConcat([open], text);
    ClosedConcat([open] + text, [close]);
  }

  lemma {:induction false} CanonicalClosed(v: Json)
    requires Canonicalize(v).Ok?
    ensures Closed(Canonicalize(v).value)
    decreases v, 1, 0
  {
    match v {
      case Arr(items) =>
        ItemsClosed(items);
        ClosedJoin(CanonicalItems(items).value);
        ClosedBrackets(OPEN_ARRAY, Join(CanonicalItems(items).value), CLOSE_ARRAY);
      case Obj(members) =>
        SortedMembersInside(v);
        var ms := SortMembers(members);
        MembersClosed(v, ms);
        ClosedJoin(CanonicalMembers(v, ms).value);
        ClosedBrackets(OPEN_OBJECT, Join(CanonicalMembers(v, ms).value), CLOSE_OBJECT);
      case Str(s) => ScanQuoted(s);
      case Null => ScanPlain(Outside, NULL_TEXT);
      case Bool(b) => ScanPlain(Outside, if b then TRUE_TEXT else FALSE_TEXT);
      case Number(n) => ScanPlain(Outside, n.text);
      case Unsupported(_) =>
    }
  }

  lemma {:induction false} ItemsClosed(items: seq<Json>)
    requires CanonicalItems(items).Ok?
    ensures forall t :: t in CanonicalItems(items).value ==> Closed(t)
    decreases items
  {
    if items != [] {
      CanonicalClosed(items[0]);
      ItemsClosed(items[1..]);
    }
  }

  lemma {:induction false} MembersClosed(parent: Json, members: seq<Member<Json>>)
    requires forall m :: m in members ==> m.value < parent
    requires CanonicalMembers(parent, members).Ok?
    ensures forall t :: t in CanonicalMembers(parent, members).value ==> Closed(t)
    decreases parent, 0, |members|
  {
    if members != [] {
      var m := members[0];
      CanonicalClosed(m.value);
      MembersClosed(parent, members[1..]);
      ScanQuoted(m.key);
      ClosedUnit(COLON);
      ClosedConcat(Quoted(m.key), [COLON]);
      ClosedConcat(Quoted(m.key) + [COLON], Canonicalize(m.value).value);
    }
  }

  // ---------- No text can be read both ways ----------

  /** One reading is inside a string where the other is outside, or one is broken. */
  ghost predicate Opposed(a: Mode, b: Mode) {
    a == Broken || b == Broken || (a == Outside && b == Inside) || (a == Inside && b == Outside)
  }

  lemma {:induction false} StaysOpposed(a: Mode, b: Mode, t: JsString)
    requires Opposed(a, b)
    ensures Opposed(Scan(a, t), Scan(b, t))
    decreases |t|
  {
    if t != [] {
      StaysOpposed(Step(a, t[0] as int), Step(b, t[0] as int), t[1..]);
    }
  }

  /** A text that reads well from outside does not lead out of a string. */
  lemma NotOut(t: JsString)
    requires Closed(t)
    ensures Scan(Inside, t) in {Inside, Broken}
  {
    StaysOpposed(Outside, Inside, t);
  }

  lemma {:induction false} BrokenStays(t: JsString)
    ensures Scan(Broken, t) == Broken
    decreases |t|
  {
    if t != [] {
      BrokenStays(t[1..]);
    }
  }

  /** After a bar inside a string, what can follow the timestamp of a record cannot follow. */
  lemma ContentNotInside(r: Shown, mode: Mode)
    requires Content(r.payload, r.delegation).Ok?
    ensures Scan(Step(mode, 0x7c), Content(r.payload, r.delegation).value) != Outside
  {
    ContentSplits(r);
    var body, tail := Canonicalize(r.payload).value, Tail(r);
    var start := Step(mode, 0x7c);
    BrokenStays(body + tail);
    BrokenStays(tail);
    CanonicalClosed(r.payload);
    NotOut(body);
    ScanConcat(start, body, tail);
    if Truthy(r.delegation) {
      var chain := Canonicalize(r.delegation).value;
      CanonicalClosed(r.delegation);
      NotOut(chain);
      ScanConcat(Inside, [BAR], chain);
      ScanOne(Inside, BAR);
    }
  }

  // ---------- An undelegated record has none ----------

  /** ASCII without a bar, as an ISO date is. */
  predicate PlainTimestamp(t: JsString) {
    forall c :: c in t ==> c < 0x80 && c != BAR
  }

  lemma {:induction false} FirstSeparator<T>(s: seq<T>, sep: T) returns (a: seq<T>, b: seq<T>)
    requires sep in s
    ensures s == a + [sep] + b && sep !in a
    decreases |s|
  {
    if s[0] == sep {
      a, b := [], s[1..];
    } else {
      assert s == [s[0]] + s[1..];
      var rest: seq<T>;
      rest, b := FirstSeparator(s[1..], sep);
      a := [s[0]] + rest;
    }
  }

  lemma PlainIsClean(t: JsString)
    requires PlainTimestamp(t)
    ensures CleanTimestamp(t) && 0x7c !in Utf8(t)
  {
    NoSurrogatesWellFormed(t);
    Utf8Ascii(t, BAR);
  }

  lemma LaterSeparator<T>(u: seq<T>, v: seq<T>, sep: T, c: seq<T>, d: seq<T>) returns (x: seq<T>)
    requires u + [sep] + c == v + [sep] + d && sep in u && sep !in v
    ensures x + [sep] + c == d
  {
    var a: seq<T>;
    a, x := FirstSeparator(u, sep);
    assert a + [sep] + x + [sep] + c == a + [sep] + (x + [sep] + c);
    SplitAtSeparator(a, v, sep, x + [sep] + c, d);
  }

  /** The same with one more piece between. */
  lemma LaterPair<T>(u: seq<T>, v: seq<T>, sep: T, t: seq<T>, c: seq<T>, d: seq<T>) returns (x: seq<T>)
    requires u + [sep] + (t + [sep] + c) == v + [sep] + d && sep in u && sep !in v
    ensures x + [sep] + c == d && sep in x
  {
    var y := LaterSeparator(u, v, sep, t + [sep] + c, d);
    x := y + [sep] + t;
    assert y + [sep] + (t + [sep] + c) == x + [sep] + c;
    assert x[|y|] == sep;
  }

  lemma BytesCannotRead(r: Shown, s: Shown, x: ByteSeq)
    requires Content(r.payload, r.delegation).Ok? && Content(s.payload, s.delegation).Ok? && !Truthy(s.delegation)
    ensures x + [0x7c] + Utf8(Content(r.payload, r.delegation).value) != Utf8(Content(s.payload, s.delegation).value)
  {
    var c, d := Content(r.payload, r.delegation).value, Content(s.payload, s.delegation).value;
    var mode := ScanBytes(Outside, x);
    CanonicalClosed(s.payload);
    ScanUtf8(Outside, d);
    ScanBytesConcat(Outside, x + [0x7c], Utf8(c));
    ScanBytesConcat(Outside, x, [0x7c]);
    ScanUtf8(Step(mode, 0x7c), c);
    ContentNotInside(r, mode);
  }

  /** Nothing with a bar can stand before the content of a record where a plain timestamp does. */
  lemma NoBarBeforeContent(r: Shown, x: Record, u: ByteSeq)
    requires ShownPreimage(r).Some? && ShownPreimage(Show(x)).Some? && PlainTimestamp(x.timestamp) && !Truthy(x.delegation)
    requires u + [0x7c] + Utf8(ContentText(r)) == Utf8(x.timestamp) + [0x7c] + Utf8(ContentText(Show(x)))
    ensures 0x7c !in u
  {
    PlainIsClean(x.timestamp);
    if 0x7c in u {
      var y := LaterSeparator(u, Utf8(x.timestamp), 0x7c, Utf8(ContentText(r)), Utf8(ContentText(Show(x))));
      BytesCannotRead(r, Show(x), y);
    }
  }

  lemma NoBarInIndex(r: Shown, x: Record)
    requires ShownPreimage(r).Some? && ShownPreimage(Show(x)).Some? && ShownBytes(r) == ShownBytes(Show(x))
    requires PlainTimestamp(x.timestamp) && !Truthy(x.delegation)
    ensures BAR !in IndexText(r)
  {
    PreimageBytes(r);
    PreimageBytes(Show(x));
    FiniteTextIsNumeric(x.index);
    Utf8Ascii(NumText(x.index), BAR);
    Utf8Ascii(IndexText(r), BAR);
    if 0x7c in Utf8(IndexText(r)) {
      var u := LaterPair(Utf8(IndexText(r)), Utf8(NumText(x.index)), 0x7c, Utf8(TimestampText(r)), Utf8(ContentText(r)),
                         Utf8(x.timestamp) + [0x7c] + Utf8(ContentText(Show(x))));
      NoBarBeforeContent(r, x, u);
    }
  }

  /** A record with a plain timestamp and no delegation is, as text, the only one with its preimage. */
  lemma UndelegatedIsPinned(r: Shown, x: Record)
    requires ShownPreimage(r).Some? && ShownPreimage(Show(x)).Some? && ShownBytes(r) == ShownBytes(Show(x))
    requires PlainTimestamp(x.timestamp) && !Truthy(x.delegation)
    ensures SameRecord(r, x)
  {
    NoBarInIndex(r, x);
    IndexWithoutBar(r, x);
    NoBarBeforeContent(r, x, Utf8(TimestampText(r)));
    PlainIsClean(x.timestamp);
    SplitAtSeparator(Utf8(TimestampText(r)), Utf8(x.timestamp), 0x7c, Utf8(ContentText(r)), Utf8(ContentText(Show(x))));
    AsciiPinned(TimestampText(r), x.timestamp);
    SameTimestamp(r, x);
  }

  /** Something else that is hashed like a record. */
  ghost predicate IsDouble(r: Shown, x: Record) {
    ShownPreimage(r).Some? && ShownPreimage(Show(x)).Some? && ShownBytes(r) == ShownBytes(Show(x)) && !SameRecord(r, x)
  }

  /** So, with a plain timestamp, a record has a double exactly when it is delegated. */
  lemma TwinIffDelegated(x: Record)
    requires ShownPreimage(Show(x)).Some? && PlainTimestamp(x.timestamp)
    ensures Truthy(x.delegation) <==> exists r :: IsDouble(r, x)
  {
    if Truthy(x.delegation) {
      TwinsHaveSamePreimage(Show(x));
      assert IsDouble(TimestampTwin(Show(x)), x);
    } else {
      forall r: Shown
        ensures !IsDouble(r, x)
      {
        if ShownPreimage(r).Some? && ShownBytes(r) == ShownBytes(Show(x)) {
          UndelegatedIsPinned(r, x);
        }
      }
    }
  }

  // ---------- What a preimage leaves open ----------

  /** How far a logged record x is determined by its preimage, seen from what is shown with the same one. */
  ghost predicate AgreesAsFarAs(r: Shown, x: Record) {
    && ShownPreimage(r).Some?
    && (SameRecord(r, x) <==> IndexText(r) == NumText(x.index) && TimestampText(r) == x.timestamp)
    && (CleanTimestamp(x.timestamp) ==> (SameRecord(r, x) <==> BAR !in IndexText(r) && CleanTimestamp(TimestampText(r))))
    && (PlainTimestamp(x.timestamp) && !Truthy(x.delegation) ==> SameRecord(r, x))
    && (BAR !in IndexText(r) ==> IndexText(r) == NumText(x.index))
    && (r.index.Number? ==> r.index == Number(x.index))
  }

  lemma SamePreimageAgrees(r: Shown, x: Record)
    requires ShownPreimage(r).Some? && ShownPreimage(Show(x)).Some? && ShownBytes(r) == ShownBytes(Show(x))
    ensures AgreesAsFarAs(r, x)
  {
    PreimagePinsRecord(r, x);
    if PlainTimestamp(x.timestamp) && !Truthy(x.delegation) {
      UndelegatedIsPinned(r, x);
    }
  }
}
