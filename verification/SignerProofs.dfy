/** What canonical text determines: a parser undoes it, so two values print alike exactly when they differ only in
    the order of object keys; and it contains no lone surrogate, so its UTF-8 bytes determine it.
 */
module SignerProofs {
  import opened Bytes
  import opened JsText
  import opened Signer

  // ---------- Reading strings back ----------

  /** The unit named by the four hexadecimal digits after \u. */
  function ReadHex4(s: JsString): Option<CodeUnit>
    requires |s| >= 4
  {
    var (a, b, c, d) := (HexValue(s[0]), HexValue(s[1]), HexValue(s[2]), HexValue(s[3]));
    if a.None? || b.None? || c.None? || d.None? then None
    else Some((4096 * a.value + 256 * b.value + 16 * c.value + d.value) as CodeUnit)
  }

  /** The unit after a backslash, and the length of the escape. */
  function ReadEscape(s: JsString): Option<(CodeUnit, nat)>
    requires |s| >= 2
  {
    var c := s[1];
    if c == 0x62 then Some((0x08, 2))
    else if c == 0x74 then Some((0x09, 2))
    else if c == 0x6e then Some((0x0a, 2))
    else if c == 0x66 then Some((0x0c, 2))
    else if c == 0x72 then Some((0x0d, 2))
    else if c == QUOTE || c == BACKSLASH then Some((c, 2))
    else if c == 0x75 && |s| >= 6 then
      var u := ReadHex4(s[2..]);
      if u.None? then None else Some((u.value, 6))
    else None
  }

  /** The string before the next bare quote, and what follows the quote. */
  function ReadString(s: JsString): (r: Option<(JsString, JsString)>)
    ensures r.Some? ==> |r.value.1| < |s|
    decreases |s|
  {
    if s == [] then None
    else if s[0] == QUOTE then Some(([], s[1..]))
    else if s[0] == BACKSLASH then
      if |s| < 2 then None
      else
        var e := ReadEscape(s);
        if e.None? then None
        else
          var r := ReadString(s[e.value.1..]);
          if r.None? then None else Some(([e.value.0] + r.value.0, r.value.1))
    else
      var r := ReadString(s[1..]);
      if r.None? then None else Some(([s[0]] + r.value.0, r.value.1))
  }

  lemma HexDigitValue(v: int)
    requires 0 <= v < 16
    ensures HexValue(HexDigit(v)) == Some(v)
  {
  }

  lemma Hex4RoundTrip(c: CodeUnit, tail: JsString)
    ensures ReadHex4(UnicodeEscape(c)[2..] + tail) == Some(c)
  {
    var v, s := c as int, UnicodeEscape(c)[2..] + tail;
    assert s[..4] == [HexDigit(v / 4096), HexDigit(v / 256 % 16), HexDigit(v / 16 % 16), HexDigit(v % 16)];
    assert s[0] == s[..4][0] && s[1] == s[..4][1] && s[2] == s[..4][2] && s[3] == s[..4][3];
    HexDigitValue(v / 4096);
    HexDigitValue(v / 256 % 16);
    HexDigitValue(v / 16 % 16);
    HexDigitValue(v % 16);
    assert v / 16 == 16 * (v / 256) + v / 16 % 16 && v / 256 == 16 * (v / 4096) + v / 256 % 16;
  }

  lemma ReadEscapedUnit(c: CodeUnit, tail: JsString)
    requires EscapeUnit(c) != [c]
    ensures EscapeUnit(c)[0] == BACKSLASH && |EscapeUnit(c)| >= 2
    ensures ReadEscape(EscapeUnit(c) + tail) == Some((c, |EscapeUnit(c)|))
  {
    if EscapeUnit(c) == UnicodeEscape(c) {
      ReadUnicodeEscape(c, tail);
    } else {
      assert (EscapeUnit(c) + tail)[1] == EscapeUnit(c)[1];
    }
  }

  lemma ReadUnicodeEscape(c: CodeUnit, tail: JsString)
    ensures ReadEscape(UnicodeEscape(c) + tail) == Some((c, 6))
  {
    Hex4RoundTrip(c, tail);
    assert (UnicodeEscape(c) + tail)[2..] == UnicodeEscape(c)[2..] + tail;
  }

  lemma ReadPlain(c: CodeUnit, tail: JsString)
    requires c != QUOTE && c != BACKSLASH && ReadString(tail).Some?
    ensures ReadString([c] + tail) == Some(([c] + ReadString(tail).value.0, ReadString(tail).value.1))
  {
    assert ([c] + tail)[1..] == tail;
  }

  lemma ReadUnit(c: CodeUnit, tail: JsString)
    requires ReadString(tail).Some?
    ensures ReadString(EscapeUnit(c) + tail) == Some(([c] + ReadString(tail).value.0, ReadString(tail).value.1))
  {
    var s := EscapeUnit(c) + tail;
    if EscapeUnit(c) == [c] {
      ReadPlain(c, tail);
    } else {
      assert s[|EscapeUnit(c)|..] == tail;
      ReadEscapedUnit(c, tail);
      assert s[0] == EscapeUnit(c)[0];
    }
  }

  /** Unescaping recovers every sequence of code units, lone surrogates included. */
  lemma {:induction false} StringRoundTrip(s: JsString, rest: JsString)
    ensures ReadString(Escape(s) + [QUOTE] + rest) == Some((s, rest))
    decreases |s|
  {
    if s == [] {
      assert Escape(s) + [QUOTE] + rest == [QUOTE] + rest;
    } else {
      var n := LeadUnits(s);
      var tail := Escape(s[n..]) + [QUOTE] + rest;
      StringRoundTrip(s[n..], rest);
      ReadLead(s, tail);
      EscapeStep(s);
      assert s == s[..n] + s[n..];
      var head := if n == 2 then [s[0], s[1]] else EscapeUnit(s[0]);
      Associative(head, Escape(s[n..]), [QUOTE]);
      Associative(head, Escape(s[n..]) + [QUOTE], rest);
    }
  }

  lemma ReadLead(s: JsString, tail: JsString)
    requires s != [] && ReadString(tail).Some?
    ensures ReadString((if LeadUnits(s) == 2 then [s[0], s[1]] else EscapeUnit(s[0])) + tail)
         == Some((s[..LeadUnits(s)] + ReadString(tail).value.0, ReadString(tail).value.1))
  {
    if LeadUnits(s) == 2 {
      ReadPlain(s[1], tail);
      ReadPlain(s[0], [s[1]] + tail);
      assert [s[0], s[1]] + tail == [s[0]] + ([s[1]] + tail);
      assert s[..2] + ReadString(tail).value.0 == [s[0]] + ([s[1]] + ReadString(tail).value.0);
    } else {
      ReadUnit(s[0], tail);
      assert s[..1] == [s[0]];
    }
  }

  // ---------- A parser ----------

  function NumberPrefix(s: JsString): (n: nat)
    ensures n <= |s|
  {
    if s == [] || !NumberChar(s[0]) then 0 else 1 + NumberPrefix(s[1..])
  }

  lemma {:induction false} NumberPrefixAll(s: JsString, n: nat)
    requires n <= NumberPrefix(s)
    ensures forall c :: c in s[..n] ==> NumberChar(c)
  {
    if n > 0 {
      NumberPrefixAll(s[1..], n - 1);
      assert s[..n] == [s[0]] + s[1..][..n - 1];
    }
  }

  type Parsed<T> = Option<(T, JsString)>

  function Parse(s: JsString): (r: Parsed<Json>)
    ensures r.Some? ==> |r.value.1| < |s|
    decreases |s|, 0
  {
    if NULL_TEXT <= s then Some((Null, s[4..]))
    else if TRUE_TEXT <= s then Some((Bool(true), s[4..]))
    else if FALSE_TEXT <= s then Some((Bool(false), s[5..]))
    else if s == [] then None
    else if s[0] == QUOTE then
      var r := ReadString(s[1..]);
      if r.None? then None else Some((Str(r.value.0), r.value.1))
    else if s[0] == OPEN_ARRAY then
      if |s| >= 2 && s[1] == CLOSE_ARRAY then Some((Arr([]), s[2..]))
      else
        var r := ParseItems(s[1..]);
        if r.None? then None else Some((Arr(r.value.0), r.value.1))
    else if s[0] == OPEN_OBJECT then
      if |s| >= 2 && s[1] == CLOSE_OBJECT then Some((Obj([]), s[2..]))
      else
        var r := ParseMembers(s[1..]);
        if r.None? then None else Some((Obj(r.value.0), r.value.1))
    else if NumberChar(s[0]) then
      var n := NumberPrefix(s);
      NumberPrefixAll(s, n);
      Some((Number(Finite(s[..n])), s[n..]))
    else None
  }

  function ParseItems(s: JsString): (r: Parsed<seq<Json>>)
    ensures r.Some? ==> |r.value.1| < |s|
    decreases |s|, 1
  {
    var v := Parse(s);
    if v.None? || v.value.1 == [] then None
    else if v.value.1[0] == CLOSE_ARRAY then Some(([v.value.0], v.value.1[1..]))
    else if v.value.1[0] != COMMA then None
    else
      var more := ParseItems(v.value.1[1..]);
      if more.None? then None else Some(([v.value.0] + more.value.0, more.value.1))
  }

  function ParseMember(s: JsString): (r: Parsed<Member<Json>>)
    ensures r.Some? ==> |r.value.1| < |s|
    decreases |s|, 1
  {
    if s == [] || s[0] != QUOTE then None
    else
      var k := ReadString(s[1..]);
      if k.None? || k.value.1 == [] || k.value.1[0] != COLON then None
      else
        var v := Parse(k.value.1[1..]);
        if v.None? then None else Some((Member(k.value.0, v.value.0), v.value.1))
  }

  function ParseMembers(s: JsString): (r: Parsed<seq<Member<Json>>>)
    ensures r.Some? ==> |r.value.1| < |s|
    decreases |s|, 2
  {
    var m := ParseMember(s);
    if m.None? || m.value.1 == [] then None
    else if m.value.1[0] == CLOSE_OBJECT then Some(([m.value.0], m.value.1[1..]))
    else if m.value.1[0] != COMMA then None
    else
      var more := ParseMembers(m.value.1[1..]);
      if more.None? then None else Some(([m.value.0] + more.value.0, more.value.1))
  }

  // ---------- The normal form: members sorted at every level ----------

  function Sorted(v: Json): Json
    decreases v, 1, 0
  {
    match v
    case Arr(items) => Arr(SortedItems(items))
    case Obj(members) =>
      SortedMembersInside(v);
      Obj(SortedValues(v, SortMembers(members)))
    case _ => v
  }

  function SortedItems(items: seq<Json>): seq<Json>
    decreases items
  {
    if items == [] then [] else [Sorted(items[0])] + SortedItems(items[1..])
  }

  function SortedValues(parent: Json, members: seq<Member<Json>>): (r: seq<Member<Json>>)
    requires forall m :: m in members ==> m.value < parent
    ensures |r| == |members|
    decreases parent, 0, |members|
  {
    if members == [] then []
    else [Member(members[0].key, Sorted(members[0].value))] + SortedValues(parent, members[1..])
  }

  // ---------- The parser undoes canonicalisation ----------

  /** What may follow a value: nothing that could be read as part of a number. */
  predicate Delimited(rest: JsString) {
    rest == [] || !NumberChar(rest[0])
  }

  /** No text starts with a character of another kind of value. */
  predicate StartsAValue(t: JsString) {
    t != [] && t[0] != CLOSE_ARRAY && t[0] != CLOSE_OBJECT
  }

  lemma TextStartsAValue(v: Json)
    requires Canonicalize(v).Ok?
    ensures StartsAValue(Canonicalize(v).value)
  {
    if v.Number? {
      assert v.n.text[0] in v.n.text;
    }
  }

  lemma {:induction false} NumberPrefixOf(t: JsString, rest: JsString)
    requires Delimited(rest) && forall c :: c in t ==> NumberChar(c)
    ensures NumberPrefix(t + rest) == |t|
    decreases |t|
  {
    if t == [] {
      assert t + rest == rest;
    } else {
      NumberPrefixOf(t[1..], rest);
      assert (t + rest)[1..] == t[1..] + rest;
      assert (t + rest)[0] in t;
    }
  }

  lemma ParseNumber(t: NumberText, rest: JsString)
    requires Delimited(rest)
    ensures Parse(t + rest) == Some((Number(Finite(t)), rest))
  {
    NumberPrefixOf(t, rest);
    assert (t + rest)[|t|..] == rest && (t + rest)[..|t|] == t;
    assert (t + rest)[0] == t[0] && t[0] in t;
  }

  lemma ParseQuoted(s: JsString, rest: JsString)
    ensures Parse(Quoted(s) + rest) == Some((Str(s), rest))
  {
    var t := Quoted(s) + rest;
    StringRoundTrip(s, rest);
    assert t[0] == QUOTE && t[1..] == Escape(s) + [QUOTE] + rest;
  }

  lemma ParseWord(v: Json, rest: JsString)
    requires v.Null? || v.Bool?
    ensures Parse(Canonicalize(v).value + rest) == Some((v, rest))
  {
    var t := Canonicalize(v).value;
    assert (t + rest)[|t|..] == rest && (t + rest)[..|t|] == t && (t + rest)[0] == t[0];
  }

  lemma ParseLeaf(v: Json, rest: JsString)
    requires !v.Arr? && !v.Obj? && Canonicalize(v).Ok? && Delimited(rest)
    ensures Parse(Canonicalize(v).value + rest) == Some((v, rest))
  {
    match v {
      case Number(n) => ParseNumber(n.text, rest);
      case Str(s) => ParseQuoted(s, rest);
      case Null => ParseWord(v, rest);
      case Bool(_) => ParseWord(v, rest);
      case Unsupported(_) =>
    }
  }

  lemma ParseArray(inner: JsString)
    requires inner != [] && (inner[0] == CLOSE_ARRAY || ParseItems(inner).Some?)
    ensures Parse([OPEN_ARRAY] + inner)
         == if inner[0] == CLOSE_ARRAY then Some((Arr([]), inner[1..]))
            else Some((Arr(ParseItems(inner).value.0), ParseItems(inner).value.1))
  {
    var s := [OPEN_ARRAY] + inner;
    assert s[1..] == inner && s[2..] == inner[1..];
  }

  lemma ParseObject(inner: JsString)
    requires inner != [] && (inner[0] == CLOSE_OBJECT || ParseMembers(inner).Some?)
    ensures Parse([OPEN_OBJECT] + inner)
         == if inner[0] == CLOSE_OBJECT then Some((Obj([]), inner[1..]))
            else Some((Obj(ParseMembers(inner).value.0), ParseMembers(inner).value.1))
  {
    var s := [OPEN_OBJECT] + inner;
    assert s[1..] == inner && s[2..] == inner[1..];
  }

  /** One more item or member before a comma, or the last one before the closing bracket. */
  function Continuation(texts: seq<JsString>, close: CodeUnit, rest: JsString): JsString
    requires texts != []
  {
    if |texts| == 1 then [close] + rest else [COMMA] + (Join(texts[1..]) + [close] + rest)
  }

  lemma JoinStep(texts: seq<JsString>, close: CodeUnit, rest: JsString)
    requires texts != []
    ensures Join(texts) + [close] + rest == texts[0] + Continuation(texts, close, rest)
  {
  }

  lemma ItemsStep(s: JsString, v: Json, after: JsString)
    requires Parse(s) == Some((v, after)) && after != []
    ensures after[0] == CLOSE_ARRAY ==> ParseItems(s) == Some(([v], after[1..]))
    ensures after[0] == COMMA && ParseItems(after[1..]).Some?
            ==> ParseItems(s) == Some(([v] + ParseItems(after[1..]).value.0, ParseItems(after[1..]).value.1))
  {
  }

  lemma MembersStep(s: JsString, m: Member<Json>, after: JsString)
    requires ParseMember(s) == Some((m, after)) && after != []
    ensures after[0] == CLOSE_OBJECT ==> ParseMembers(s) == Some(([m], after[1..]))
    ensures after[0] == COMMA && ParseMembers(after[1..]).Some?
            ==> ParseMembers(s) == Some(([m] + ParseMembers(after[1..]).value.0, ParseMembers(after[1..]).value.1))
  {
  }

  /** For every value that canonicalises, followed by anything that does not continue a number. */
  lemma {:induction false} ParseCanonical(v: Json, rest: JsString)
    requires Canonicalize(v).Ok? && Delimited(rest)
    ensures Parse(Canonicalize(v).value + rest) == Some((Sorted(v), rest))
    decreases v, 1, 0
  {
    match v {
      case Arr(items) =>
        var texts := CanonicalItems(items).value;
        var inner := Join(texts) + [CLOSE_ARRAY] + rest;
        assert Canonicalize(v).value + rest == [OPEN_ARRAY] + inner;
        if items == [] {
          assert inner == [CLOSE_ARRAY] + rest && inner[1..] == rest;
        } else {
          ParseCanonicalItems(items, rest);
          TextStartsAValue(items[0]);
          JoinStep(texts, CLOSE_ARRAY, rest);
          assert inner[0] == texts[0][0];
        }
        ParseArray(inner);
      case Obj(members) =>
        SortedMembersInside(v);
        ParseCanonicalObject(v, rest);
      case _ => ParseLeaf(v, rest);
    }
  }

  lemma CanonicalObject(v: Json)
    requires v.Obj? && Canonicalize(v).Ok?
    ensures forall m :: m in SortMembers(v.members) ==> m.value < v
    ensures CanonicalMembers(v, SortMembers(v.members)).Ok?
    ensures Canonicalize(v).value == [OPEN_OBJECT] + Join(CanonicalMembers(v, SortMembers(v.members)).value) + [CLOSE_OBJECT]
    ensures Sorted(v) == Obj(SortedValues(v, SortMembers(v.members)))
  {
    SortedMembersInside(v);
  }

  lemma BracketsAround(open: CodeUnit, text: JsString, close: CodeUnit, rest: JsString)
    ensures [open] + text + [close] + rest == [open] + (text + [close] + rest)
  {
  }

  lemma {:induction false} ParseCanonicalObject(v: Json, rest: JsString)
    requires v.Obj? && Canonicalize(v).Ok? && Delimited(rest)
    ensures Parse(Canonicalize(v).value + rest) == Some((Sorted(v), rest))
    decreases v, 0, |v.members| + 1
  {
    CanonicalObject(v);
    var ms := SortMembers(v.members);
    var texts := CanonicalMembers(v, ms).value;
    if ms == [] {
      assert texts == [] && SortedValues(v, ms) == [];
      ParseEmptyObject(rest);
    } else {
      ParseCanonicalMembers(v, ms, rest);
      FirstMemberQuoted(v, ms);
      ParseObjectText(texts, SortedValues(v, ms), rest);
    }
  }

  lemma ParseEmptyObject(rest: JsString)
    ensures Parse([OPEN_OBJECT] + Join([]) + [CLOSE_OBJECT] + rest) == Some((Obj([]), rest))
  {
    var inner := [CLOSE_OBJECT] + rest;
    assert [OPEN_OBJECT] + Join([]) + [CLOSE_OBJECT] + rest == [OPEN_OBJECT] + inner && inner[1..] == rest;
    ParseObject(inner);
  }

  lemma ParseObjectText(texts: seq<JsString>, members: seq<Member<Json>>, rest: JsString)
    requires texts != [] && texts[0] != [] && texts[0][0] == QUOTE
    requires ParseMembers(Join(texts) + [CLOSE_OBJECT] + rest) == Some((members, rest))
    ensures Parse([OPEN_OBJECT] + Join(texts) + [CLOSE_OBJECT] + rest) == Some((Obj(members), rest))
  {
    BracketsAround(OPEN_OBJECT, Join(texts), CLOSE_OBJECT, rest);
    FirstOfJoined(texts, CLOSE_OBJECT, rest);
    ParseObject(Join(texts) + [CLOSE_OBJECT] + rest);
  }

  lemma FirstOfJoined(texts: seq<JsString>, close: CodeUnit, rest: JsString)
    requires texts != [] && texts[0] != []
    ensures (Join(texts) + [close] + rest)[0] == texts[0][0]
  {
    JoinStep(texts, close, rest);
  }

  lemma FirstMemberQuoted(parent: Json, members: seq<Member<Json>>)
    requires members != [] && forall m :: m in members ==> m.value < parent
    requires CanonicalMembers(parent, members).Ok?
    ensures var texts := CanonicalMembers(parent, members).value; texts != [] && texts[0] != [] && texts[0][0] == QUOTE
  {
  }

  lemma {:induction false} ParseCanonicalItems(items: seq<Json>, rest: JsString)
    requires items != [] && CanonicalItems(items).Ok?
    ensures ParseItems(Join(CanonicalItems(items).value) + [CLOSE_ARRAY] + rest) == Some((SortedItems(items), rest))
    decreases items
  {
    var texts := CanonicalItems(items).value;
    var after := Continuation(texts, CLOSE_ARRAY, rest);
    JoinStep(texts, CLOSE_ARRAY, rest);
    ParseCanonical(items[0], after);
    ItemsStep(texts[0] + after, Sorted(items[0]), after);
    if |items| == 1 {
      assert CanonicalItems(items[1..]).value == [] && after[1..] == rest && SortedItems(items) == [Sorted(items[0])];
    } else {
      ParseCanonicalItems(items[1..], rest);
      assert texts[1..] == CanonicalItems(items[1..]).value;
      assert after[1..] == Join(texts[1..]) + [CLOSE_ARRAY] + rest;
    }
  }

  lemma ReadMember(k: JsString, t: JsString, v: Json, rest: JsString)
    requires Parse(t + rest) == Some((v, rest))
    ensures ParseMember(Quoted(k) + [COLON] + t + rest) == Some((Member(k, v), rest))
  {
    var s := Quoted(k) + [COLON] + t + rest;
    var value := [COLON] + (t + rest);
    MemberText(k, t, rest);
    StringRoundTrip(k, value);
    assert value[1..] == t + rest;
  }

  lemma MemberText(k: JsString, t: JsString, rest: JsString)
    ensures (Quoted(k) + [COLON] + t + rest)[0] == QUOTE
    ensures (Quoted(k) + [COLON] + t + rest)[1..] == Escape(k) + [QUOTE] + ([COLON] + (t + rest))
  {
  }

  lemma {:induction false} ParseCanonicalMembers(parent: Json, members: seq<Member<Json>>, rest: JsString)
    requires members != [] && forall m :: m in members ==> m.value < parent
    requires CanonicalMembers(parent, members).Ok?
    ensures ParseMembers(Join(CanonicalMembers(parent, members).value) + [CLOSE_OBJECT] + rest)
         == Some((SortedValues(parent, members), rest))
    decreases parent, 0, |members|
  {
    var texts := CanonicalMembers(parent, members).value;
    var after := Continuation(texts, CLOSE_OBJECT, rest);
    var m := members[0];
    JoinStep(texts, CLOSE_OBJECT, rest);
    ParseCanonical(m.value, after);
    ReadMember(m.key, Canonicalize(m.value).value, Sorted(m.value), after);
    MembersStep(texts[0] + after, Member(m.key, Sorted(m.value)), after);
    if |members| == 1 {
      assert CanonicalMembers(parent, members[1..]).value == [] && after[1..] == rest;
      assert SortedValues(parent, members) == [Member(m.key, Sorted(m.value))];
    } else {
      ParseCanonicalMembers(parent, members[1..], rest);
      assert texts[1..] == CanonicalMembers(parent, members[1..]).value;
      assert after[1..] == Join(texts[1..]) + [CLOSE_OBJECT] + rest;
    }
  }

  /** Canonical texts are a prefix code: where one ends is determined by the text alone. */
  lemma CanonicalPrefixFree(v: Json, w: Json, r: JsString, s: JsString)
    requires Canonicalize(v).Ok? && Canonicalize(w).Ok? && Delimited(r) && Delimited(s)
    requires Canonicalize(v).value + r == Canonicalize(w).value + s
    ensures Sorted(v) == Sorted(w) && r == s
  {
    ParseCanonical(v, r);
    ParseCanonical(w, s);
  }

  // ---------- Key order does not matter ----------

  function Keys(members: seq<Member<Json>>): seq<JsString> {
    seq(|members|, i requires 0 <= i < |members| => members[i].key)
  }

  ghost predicate InOrder(members: seq<Member<Json>>) {
    forall i, j :: 0 <= i < j < |members| ==> !Before(members[j].key, members[i].key)
  }

  lemma {:induction false} InsertInOrder(m: Member<Json>, ms: seq<Member<Json>>)
    requires InOrder(ms)
    ensures InOrder(Insert(m, ms))
  {
    if ms == [] {
    } else if !Before(ms[0].key, m.key) {
      forall j | 0 <= j < |ms|
        ensures !Before(ms[j].key, m.key)
      {
        CodeUnitOrder(ms[0].key, ms[j].key, m.key);
        CodeUnitOrder(ms[j].key, ms[0].key, m.key);
      }
    } else {
      var r := Insert(m, ms[1..]);
      InsertInOrder(m, ms[1..]);
      forall j | 0 <= j < |r|
        ensures !Before(r[j].key, ms[0].key)
      {
        assert r[j] in multiset(r);
        assert r[j] in ms[1..] || r[j] == m;
        CodeUnitOrder(ms[0].key, m.key, m.key);
      }
    }
  }

  lemma {:induction false} SortInOrder(ms: seq<Member<Json>>)
    ensures InOrder(SortMembers(ms))
  {
    if ms != [] {
      SortInOrder(ms[1..]);
      InsertInOrder(ms[0], SortMembers(ms[1..]));
    }
  }

  lemma {:induction false} SortOfOrdered(ms: seq<Member<Json>>)
    requires InOrder(ms)
    ensures SortMembers(ms) == ms
  {
    if ms != [] {
      SortOfOrdered(ms[1..]);
    }
  }

  lemma {:induction false} SortedValuesKeys(parent: Json, members: seq<Member<Json>>)
    requires forall m :: m in members ==> m.value < parent
    ensures Keys(SortedValues(parent, members)) == Keys(members)
    ensures forall i :: 0 <= i < |members| ==> SortedValues(parent, members)[i] == Member(members[i].key, Sorted(members[i].value))
  {
    if members != [] {
      SortedValuesKeys(parent, members[1..]);
      var r := SortedValues(parent, members);
      forall i | 0 <= i < |members|
        ensures r[i] == Member(members[i].key, Sorted(members[i].value))
      {
        if i > 0 {
          assert r[i] == SortedValues(parent, members[1..])[i - 1];
        }
      }
    }
  }

  lemma SortedIsFixed(v: Json)
    requires v.Obj? && forall m :: m in SortMembers(v.members) ==> m.value < v
    ensures Sorted(v) == Obj(SortedValues(v, SortMembers(v.members)))
    ensures SortMembers(SortedValues(v, SortMembers(v.members))) == SortedValues(v, SortMembers(v.members))
  {
    var ms := SortMembers(v.members);
    var r := SortedValues(v, ms);
    SortInOrder(v.members);
    SortedValuesKeys(v, ms);
    assert forall i :: 0 <= i < |r| ==> r[i].key == ms[i].key;
    SortOfOrdered(r);
  }

  ghost predicate OrderedKeys(ms: seq<Member<Json>>) {
    forall i, j :: 0 <= i < j < |ms| ==> CodeUnitLess(ms[i].key, ms[j].key)
  }

  /** At every depth the keys of an object increase by code units. */
  ghost predicate KeysIncrease(v: Json) {
    match v
    case Arr(items) => forall i :: 0 <= i < |items| ==> KeysIncrease(items[i])
    case Obj(members) =>
      OrderedKeys(members) && forall i :: 0 <= i < |members| ==> KeysIncrease(members[i].value)
    case _ => true
  }

  lemma SortedDistinctKeys(ms: seq<Member<Json>>)
    requires forall i, j :: 0 <= i < j < |ms| ==> ms[i].key != ms[j].key
    ensures OrderedKeys(SortMembers(ms))
  {
    var r := SortMembers(ms);
    SortIncreasing(ms);
    forall i, j | 0 <= i < j < |r|
      ensures CodeUnitLess(r[i].key, r[j].key)
    {
      assert Before(Keys(r)[i], Keys(r)[j]);
      BeforeExactly(r[i].key, r[j].key);
    }
  }

  lemma {:induction false} SortedKeysIncrease(v: Json)
    requires DistinctKeys(v)
    ensures KeysIncrease(Sorted(v))
    decreases v, 1, 0
  {
    match v {
      case Arr(items) => SortedItemsIncrease(items);
      case Obj(members) =>
        SortedMembersInside(v);
        var ms := SortMembers(members);
        forall i | 0 <= i < |ms|
          ensures KeysIncrease(Sorted(ms[i].value))
        {
          assert ms[i] in ms && ms[i] in members;
          SortedKeysIncrease(ms[i].value);
        }
        SortedDistinctKeys(members);
        SortedValuesIncrease(v, ms);
      case _ =>
    }
  }

  lemma SortedValuesIncrease(parent: Json, ms: seq<Member<Json>>)
    requires forall m :: m in ms ==> m.value < parent
    requires OrderedKeys(ms)
    requires forall i :: 0 <= i < |ms| ==> KeysIncrease(Sorted(ms[i].value))
    ensures KeysIncrease(Obj(SortedValues(parent, ms)))
  {
    SortedValuesKeys(parent, ms);
    var r := SortedValues(parent, ms);
    forall i, j | 0 <= i < j < |r|
      ensures CodeUnitLess(r[i].key, r[j].key)
    {
      assert r[i].key == ms[i].key && r[j].key == ms[j].key;
    }
  }

  lemma {:induction false} SortedItemsIncrease(items: seq<Json>)
    requires forall i :: 0 <= i < |items| ==> DistinctKeys(items[i])
    ensures |SortedItems(items)| == |items| && forall i :: 0 <= i < |items| ==> KeysIncrease(SortedItems(items)[i])
    decreases items
  {
    if items != [] {
      SortedKeysIncrease(items[0]);
      SortedItemsIncrease(items[1..]);
    }
  }

  /** Whoever reads canonical text finds the keys of every object in increasing order of code units. */
  lemma CanonicalKeysIncrease(v: Json)
    requires DistinctKeys(v) && Canonicalize(v).Ok?
    ensures Parse(Canonicalize(v).value).Some? && KeysIncrease(Parse(Canonicalize(v).value).value.0)
  {
    ParseCanonical(v, []);
    SortedKeysIncrease(v);
    assert Canonicalize(v).value + [] == Canonicalize(v).value;
  }

  // ---------- What is refused, and with which error ----------

  /** Everything in a value that has no JSON form, in the order in which it would be printed. */
  ghost function Faults(v: Json): seq<CanonError>
    decreases v, 1, 0
  {
    match v
    case Arr(items) => ItemFaults(items)
    case Obj(members) =>
      SortedMembersInside(v);
      MemberFaults(v, SortMembers(members))
    case Number(n) => if n.Finite? then [] else [NonFinite]
    case Unsupported(kind) => [OutsideModel(kind)]
    case _ => []
  }

  ghost function ItemFaults(items: seq<Json>): seq<CanonError>
    decreases items
  {
    if items == [] then [] else Faults(items[0]) + ItemFaults(items[1..])
  }

  ghost function MemberFaults(parent: Json, members: seq<Member<Json>>): seq<CanonError>
    requires forall m :: m in members ==> m.value < parent
    decreases parent, 0, |members|
  {
    if members == [] then []
    else
      (if members[0].value == Unsupported(Undefined) then [UndefinedMember(members[0].key)] else Faults(members[0].value))
      + MemberFaults(parent, members[1..])
  }

  ghost predicate RefusedAs<T>(r: Result<T, CanonError>, faults: seq<CanonError>) {
    if faults == [] then r.Ok? else r == Err(faults[0])
  }

  /** A value prints exactly when it has no fault, and else the error is the first one. */
  lemma {:induction false} FirstFault(v: Json)
    ensures RefusedAs(Canonicalize(v), Faults(v))
    decreases v, 1, 0
  {
    match v {
      case Arr(items) => FirstItemFault(items);
      case Obj(members) =>
        SortedMembersInside(v);
        FirstMemberFault(v, SortMembers(members));
      case _ =>
    }
  }

  lemma {:induction false} FirstItemFault(items: seq<Json>)
    ensures RefusedAs(CanonicalItems(items), ItemFaults(items))
    decreases items
  {
    if items != [] {
      FirstFault(items[0]);
      FirstItemFault(items[1..]);
    }
  }

  lemma {:induction false} FirstMemberFault(parent: Json, members: seq<Member<Json>>)
    requires forall m :: m in members ==> m.value < parent
    ensures RefusedAs(CanonicalMembers(parent, members), MemberFaults(parent, members))
    decreases parent, 0, |members|
  {
    if members != [] {
      FirstFault(members[0].value);
      FirstMemberFault(parent, members[1..]);
    }
  }

  lemma NumberCharacters(c: CodeUnit)
    ensures NumberChar(c) <==> c in Text("0123456789-+.e")
  {
    var chars := Text("0123456789-+.e");
    if Digit(c) {
      assert chars[c as int - 0x30] == c;
    } else if NumberChar(c) {
      assert chars[10] == MINUS && chars[11] == 0x2b && chars[12] == 0x2e && chars[13] == 0x65;
    }
  }

  /** The characters and words of JSON. */
  lemma JsonTokens()
    ensures NULL_TEXT == Text("null") && TRUE_TEXT == Text("true") && FALSE_TEXT == Text("false")
    ensures [OPEN_ARRAY, CLOSE_ARRAY, OPEN_OBJECT, CLOSE_OBJECT, QUOTE, COMMA, COLON, BACKSLASH, MINUS] == Text("[]{}\",:\\-")
  {
  }

  /** Sorting every object first changes nothing. */
  lemma {:induction false} CanonicalOfSorted(v: Json)
    ensures Canonicalize(Sorted(v)) == Canonicalize(v)
    decreases v, 1, 0
  {
    match v {
      case Arr(items) => CanonicalItemsOfSorted(items);
      case Obj(members) =>
        SortedMembersInside(v);
        SortedIsFixed(v);
        SortedMembersInside(Sorted(v));
        CanonicalMembersOfSorted(v, SortMembers(members), Sorted(v));
        SameMembersSameText(v, Sorted(v));
      case _ =>
    }
  }

  lemma SameMembersSameText(v: Json, w: Json)
    requires v.Obj? && w.Obj?
    requires forall m :: m in SortMembers(v.members) ==> m.value < v
    requires forall m :: m in SortMembers(w.members) ==> m.value < w
    requires CanonicalMembers(w, SortMembers(w.members)) == CanonicalMembers(v, SortMembers(v.members))
    ensures Canonicalize(w) == Canonicalize(v)
  {
  }

  lemma {:induction false} CanonicalItemsOfSorted(items: seq<Json>)
    ensures CanonicalItems(SortedItems(items)) == CanonicalItems(items)
    decreases items
  {
    if items != [] {
      CanonicalOfSorted(items[0]);
      CanonicalItemsOfSorted(items[1..]);
      assert SortedItems(items)[1..] == SortedItems(items[1..]);
    }
  }

  lemma {:induction false} CanonicalMembersOfSorted(parent: Json, members: seq<Member<Json>>, parent': Json)
    requires forall m :: m in members ==> m.value < parent
    requires forall m :: m in SortedValues(parent, members) ==> m.value < parent'
    ensures CanonicalMembers(parent', SortedValues(parent, members)) == CanonicalMembers(parent, members)
    decreases parent, 0, |members|
  {
    if members != [] {
      var r := SortedValues(parent, members);
      assert r[1..] == SortedValues(parent, members[1..]);
      CanonicalOfSorted(members[0].value);
      CanonicalMembersOfSorted(parent, members[1..], parent');
    }
  }

  // ---------- Values that differ only in key order ----------

  ghost predicate DistinctKeys(v: Json) {
    match v
    case Arr(items) => forall i :: 0 <= i < |items| ==> DistinctKeys(items[i])
    case Obj(members) =>
      && (forall i, j :: 0 <= i < j < |members| ==> members[i].key != members[j].key)
      && (forall i :: 0 <= i < |members| ==> DistinctKeys(members[i].value))
    case _ => true
  }

  /** Equal but for the order of object keys, at any depth. */
  ghost predicate SameValue(v: Json, w: Json) {
    match v
    case Arr(items) => w.Arr? && |items| == |w.items| && forall i :: 0 <= i < |items| ==> SameValue(items[i], w.items[i])
    case Obj(members) =>
      && w.Obj?
      && (forall j :: 0 <= j < |w.members| ==> w.members[j].key in Keys(members))
      && (forall i :: 0 <= i < |members| ==>
            exists j :: 0 <= j < |w.members| && members[i].key == w.members[j].key && SameValue(members[i].value, w.members[j].value))
    case _ => v == w
  }

  ghost predicate Increasing(a: seq<JsString>) {
    forall i, j :: 0 <= i < j < |a| ==> Before(a[i], a[j])
  }

  lemma IncreasingStep(x: JsString, a: seq<JsString>)
    ensures Increasing([x] + a) <==> Increasing(a) && forall k :: k in a ==> Before(x, k)
  {
    var s := [x] + a;
    if Increasing(s) {
      forall i, j | 0 <= i < j < |a|
        ensures Before(a[i], a[j])
      {
        assert Before(s[i + 1], s[j + 1]);
      }
      forall k | k in a
        ensures Before(x, k)
      {
        var j :| 0 <= j < |a| && a[j] == k;
        assert Before(s[0], s[j + 1]);
      }
    }
    if Increasing(a) && forall k :: k in a ==> Before(x, k) {
      forall i, j | 0 <= i < j < |s|
        ensures Before(s[i], s[j])
      {
        assert s[j] == a[j - 1] && a[j - 1] in a;
        assert i > 0 ==> Before(a[i - 1], a[j - 1]);
      }
    }
  }

  /** A set of keys has one sorted form. */
  lemma {:induction false} IncreasingUnique(a: seq<JsString>, b: seq<JsString>)
    requires Increasing(a) && Increasing(b) && forall x :: x in a <==> x in b
    ensures a == b
  {
    assert |a| > 0 ==> a[0] in a;
    assert |b| > 0 ==> b[0] in b;
    if a != [] && b != [] {
      assert a == [a[0]] + a[1..] && b == [b[0]] + b[1..];
      IncreasingStep(a[0], a[1..]);
      IncreasingStep(b[0], b[1..]);
      CodeUnitOrder(a[0], b[0], a[0]);
      assert a[0] == b[0];
      CodeUnitOrder(a[0], a[0], a[0]);
      forall x
        ensures x in a[1..] <==> x in b[1..]
      {
        assert x in a <==> x == a[0] || x in a[1..];
        assert x in b <==> x == b[0] || x in b[1..];
      }
      IncreasingUnique(a[1..], b[1..]);
    }
  }

  lemma KeyIn(ms: seq<Member<Json>>, m: Member<Json>)
    requires m in ms
    ensures m.key in Keys(ms)
  {
    var i :| 0 <= i < |ms| && ms[i] == m;
    assert Keys(ms)[i] == m.key;
  }

  lemma {:induction false} InsertIncreasing(m: Member<Json>, ms: seq<Member<Json>>)
    requires Increasing(Keys(ms)) && m.key !in Keys(ms)
    ensures Increasing(Keys(Insert(m, ms)))
    ensures forall k :: k in Keys(Insert(m, ms)) <==> k == m.key || k in Keys(ms)
  {
    var r := Insert(m, ms);
    if ms == [] {
      assert Keys(r) == [m.key];
    } else {
      var first, rest := ms[0].key, Keys(ms[1..]);
      assert Keys(ms) == [first] + rest;
      IncreasingStep(first, rest);
      CodeUnitOrder(m.key, first, m.key);
      if Before(first, m.key) {
        InsertIncreasing(m, ms[1..]);
        assert Keys(r) == [first] + Keys(Insert(m, ms[1..]));
        IncreasingStep(first, Keys(Insert(m, ms[1..])));
      } else {
        assert Keys(r) == [m.key] + Keys(ms);
        forall k | k in Keys(ms)
          ensures Before(m.key, k)
        {
          CodeUnitOrder(m.key, first, k);
        }
        IncreasingStep(m.key, Keys(ms));
      }
    }
  }

  lemma {:induction false} SortIncreasing(ms: seq<Member<Json>>)
    requires forall i, j :: 0 <= i < j < |ms| ==> ms[i].key != ms[j].key
    ensures Increasing(Keys(SortMembers(ms)))
    ensures forall k :: k in Keys(SortMembers(ms)) <==> k in Keys(ms)
  {
    if ms != [] {
      SortIncreasing(ms[1..]);
      assert Keys(ms) == [ms[0].key] + Keys(ms[1..]);
      InsertIncreasing(ms[0], SortMembers(ms[1..]));
    }
  }

  lemma {:induction false} SameIffSortedAlike(v: Json, w: Json)
    requires DistinctKeys(v) && DistinctKeys(w)
    ensures SameValue(v, w) <==> Sorted(v) == Sorted(w)
    decreases v
  {
    match v {
      case Arr(items) =>
        SortedItemsPointwise(items);
        if w.Arr? {
          SortedItemsPointwise(w.items);
          if |items| == |w.items| {
            forall i | 0 <= i < |items|
              ensures SameValue(items[i], w.items[i]) <==> Sorted(items[i]) == Sorted(w.items[i])
            {
              SameIffSortedAlike(items[i], w.items[i]);
            }
          }
        }
      case Obj(members) =>
        if w.Obj? {
          forall i, j | 0 <= i < |members| && 0 <= j < |w.members|
            ensures SameValue(members[i].value, w.members[j].value) <==> Sorted(members[i].value) == Sorted(w.members[j].value)
          {
            SameIffSortedAlike(members[i].value, w.members[j].value);
          }
          if SameValue(v, w) {
            SameGivesSorted(v, w);
          }
          if Sorted(v) == Sorted(w) {
            SortedGivesSame(v, w);
          }
        }
      case _ =>
    }
  }

  lemma {:induction false} SortedItemsPointwise(items: seq<Json>)
    ensures |SortedItems(items)| == |items|
    ensures forall i :: 0 <= i < |items| ==> SortedItems(items)[i] == Sorted(items[i])
  {
    if items != [] {
      SortedItemsPointwise(items[1..]);
    }
  }

  ghost predicate ValuesDecided(v: Json, w: Json)
    requires v.Obj? && w.Obj?
  {
    forall i, j :: 0 <= i < |v.members| && 0 <= j < |w.members| ==>
      (SameValue(v.members[i].value, w.members[j].value) <==> Sorted(v.members[i].value) == Sorted(w.members[j].value))
  }

  /** The value under a key is the same one before and after sorting. */
  lemma SameKeySameMember(ms: seq<Member<Json>>, m: Member<Json>, n: Member<Json>)
    requires forall i, j :: 0 <= i < j < |ms| ==> ms[i].key != ms[j].key
    requires m in ms && n in ms && m.key == n.key
    ensures m == n
  {
    var i :| 0 <= i < |ms| && ms[i] == m;
    var j :| 0 <= j < |ms| && ms[j] == n;
    assert i == j;
  }

  lemma SameKeys(v: Json, w: Json)
    requires v.Obj? && w.Obj? && DistinctKeys(v) && DistinctKeys(w) && SameValue(v, w)
    ensures Keys(SortMembers(v.members)) == Keys(SortMembers(w.members))
  {
    SortIncreasing(v.members);
    SortIncreasing(w.members);
    forall k
      ensures k in Keys(v.members) <==> k in Keys(w.members)
    {
      if k in Keys(v.members) {
        var i :| 0 <= i < |v.members| && Keys(v.members)[i] == k;
        var j :| 0 <= j < |w.members| && v.members[i].key == w.members[j].key;
        KeyIn(w.members, w.members[j]);
      }
      if k in Keys(w.members) {
        var j :| 0 <= j < |w.members| && Keys(w.members)[j] == k;
        assert w.members[j].key in Keys(v.members);
      }
    }
    IncreasingUnique(Keys(SortMembers(v.members)), Keys(SortMembers(w.members)));
  }

  lemma SameUnderKey(v: Json, w: Json, m: Member<Json>, n: Member<Json>)
    requires v.Obj? && w.Obj? && DistinctKeys(w) && ValuesDecided(v, w) && SameValue(v, w)
    requires m in v.members && n in w.members && m.key == n.key
    ensures Sorted(m.value) == Sorted(n.value)
  {
    var i :| 0 <= i < |v.members| && v.members[i] == m;
    var j :| 0 <= j < |w.members| && m.key == w.members[j].key && SameValue(m.value, w.members[j].value);
    SameKeySameMember(w.members, n, w.members[j]);
  }

  lemma SameGivesSorted(v: Json, w: Json)
    requires v.Obj? && w.Obj? && DistinctKeys(v) && DistinctKeys(w) && ValuesDecided(v, w) && SameValue(v, w)
    ensures Sorted(v) == Sorted(w)
  {
    SortedMembersInside(v);
    SortedMembersInside(w);
    var a, b := SortMembers(v.members), SortMembers(w.members);
    SameKeys(v, w);
    assert |Keys(a)| == |a| && |Keys(b)| == |b|;
    SortedValuesKeys(v, a);
    SortedValuesKeys(w, b);
    forall p | 0 <= p < |a|
      ensures SortedValues(v, a)[p] == SortedValues(w, b)[p]
    {
      assert a[p].key == Keys(a)[p] == Keys(b)[p] == b[p].key;
      assert a[p] in a && b[p] in b;
      SameUnderKey(v, w, a[p], b[p]);
    }
    assert SortedValues(v, a) == SortedValues(w, b);
  }

  lemma SortedGivesSame(v: Json, w: Json)
    requires v.Obj? && w.Obj? && ValuesDecided(v, w) && Sorted(v) == Sorted(w)
    ensures SameValue(v, w)
  {
    forall i | 0 <= i < |v.members|
      ensures exists j :: 0 <= j < |w.members| && v.members[i].key == w.members[j].key && SameValue(v.members[i].value, w.members[j].value)
    {
      var n := Counterpart(v, w, v.members[i]);
      var j :| 0 <= j < |w.members| && w.members[j] == n;
    }
    forall j | 0 <= j < |w.members|
      ensures w.members[j].key in Keys(v.members)
    {
      var m := Counterpart(w, v, w.members[j]);
      KeyIn(v.members, m);
    }
  }

  /** The member at the same sorted position of an object that sorts alike. */
  lemma Counterpart(v: Json, w: Json, m: Member<Json>) returns (n: Member<Json>)
    requires v.Obj? && w.Obj? && Sorted(v) == Sorted(w) && m in v.members
    ensures n in w.members && n.key == m.key && Sorted(n.value) == Sorted(m.value)
  {
    SortedMembersInside(v);
    SortedMembersInside(w);
    var a, b := SortMembers(v.members), SortMembers(w.members);
    SortedValuesKeys(v, a);
    SortedValuesKeys(w, b);
    assert m in a;
    var p :| 0 <= p < |a| && a[p] == m;
    assert SortedValues(v, a)[p] == SortedValues(w, b)[p];
    n := b[p];
    assert n in b;
  }

  /** Two values print alike exactly when they differ only in the order of object keys. */
  lemma CanonicalExact(v: Json, w: Json)
    requires DistinctKeys(v) && DistinctKeys(w)
    requires Canonicalize(v).Ok? && Canonicalize(w).Ok?
    ensures Canonicalize(v).value == Canonicalize(w).value <==> SameValue(v, w)
  {
    SameIffSortedAlike(v, w);
    if Canonicalize(v).value == Canonicalize(w).value {
      CanonicalPrefixFree(v, w, [], []);
    }
    if Sorted(v) == Sorted(w) {
      CanonicalOfSorted(v);
      CanonicalOfSorted(w);
    }
  }

  // ---------- No lone surrogate in canonical text ----------

  lemma {:induction false} EscapeWellFormed(s: JsString)
    ensures WellFormed(Escape(s))
    decreases |s|
  {
    if s != [] {
      EscapeStep(s);
      EscapeWellFormed(s[LeadUnits(s)..]);
      if StartsWithPair(s) {
        assert Escape(s)[2..] == Escape(s[2..]);
      } else {
        NoSurrogatesWellFormed(EscapeUnit(s[0]));
        WellFormedConcat(EscapeUnit(s[0]), Escape(s[1..]));
      }
    }
  }

  lemma QuotedWellFormed(s: JsString)
    ensures WellFormed(Quoted(s))
  {
    EscapeWellFormed(s);
    NoSurrogatesWellFormed([QUOTE]);
    WellFormedConcat([QUOTE], Escape(s));
    WellFormedConcat([QUOTE] + Escape(s), [QUOTE]);
  }

  lemma {:induction false} JoinWellFormed(texts: seq<JsString>)
    requires forall t :: t in texts ==> WellFormed(t)
    ensures WellFormed(Join(texts))
  {
    if |texts| > 1 {
      JoinWellFormed(texts[1..]);
      NoSurrogatesWellFormed([COMMA]);
      WellFormedConcat(texts[0], [COMMA]);
      WellFormedConcat(texts[0] + [COMMA], Join(texts[1..]));
    }
  }

  lemma BracketsWellFormed(open: CodeUnit, text: JsString, close: CodeUnit)
    requires WellFormed(text) && !High(open) && !Low(open) && !High(close) && !Low(close)
    ensures WellFormed([open] + text + [close])
  {
    NoSurrogatesWellFormed([open]);
    NoSurrogatesWellFormed([close]);
    WellFormedConcat([open], text);
    WellFormedConcat([open] + text, [close]);
  }

  lemma {:induction false} CanonicalWellFormed(v: Json)
    requires Canonicalize(v).Ok?
    ensures WellFormed(Canonicalize(v).value)
    decreases v, 1, 0
  {
    match v {
      case Arr(items) =>
        ItemsWellFormed(items);
        JoinWellFormed(CanonicalItems(items).value);
        BracketsWellFormed(OPEN_ARRAY, Join(CanonicalItems(items).value), CLOSE_ARRAY);
      case Obj(members) =>
        SortedMembersInside(v);
        var ms := SortMembers(members);
        MembersWellFormed(v, ms);
        JoinWellFormed(CanonicalMembers(v, ms).value);
        BracketsWellFormed(OPEN_OBJECT, Join(CanonicalMembers(v, ms).value), CLOSE_OBJECT);
      case Str(s) => QuotedWellFormed(s);
      case Null => NoSurrogatesWellFormed(NULL_TEXT);
      case Bool(b) => NoSurrogatesWellFormed(if b then TRUE_TEXT else FALSE_TEXT);
      case Number(n) => NoSurrogatesWellFormed(n.text);
      case Unsupported(_) =>
    }
  }

  lemma {:induction false} ItemsWellFormed(items: seq<Json>)
    requires CanonicalItems(items).Ok?
    ensures forall t :: t in CanonicalItems(items).value ==> WellFormed(t)
    decreases items
  {
    if items != [] {
      CanonicalWellFormed(items[0]);
      ItemsWellFormed(items[1..]);
    }
  }

  lemma {:induction false} MembersWellFormed(parent: Json, members: seq<Member<Json>>)
    requires forall m :: m in members ==> m.value < parent
    requires CanonicalMembers(parent, members).Ok?
    ensures forall t :: t in CanonicalMembers(parent, members).value ==> WellFormed(t)
    decreases parent, 0, |members|
  {
    if members != [] {
      var m := members[0];
      CanonicalWellFormed(m.value);
      MembersWellFormed(parent, members[1..]);
      QuotedWellFormed(m.key);
      NoSurrogatesWellFormed([COLON]);
      WellFormedConcat(Quoted(m.key), [COLON]);
      WellFormedConcat(Quoted(m.key) + [COLON], Canonicalize(m.value).value);
    }
  }

  /** The signed bytes determine the value. */
  lemma SignedBytesPinValue(v: Json, w: Json)
    requires DistinctKeys(v) && DistinctKeys(w)
    requires Canonicalize(v).Ok? && Canonicalize(w).Ok?
    ensures Utf8(Canonicalize(v).value) == Utf8(Canonicalize(w).value) <==> SameValue(v, w)
  {
    CanonicalExact(v, w);
    CanonicalWellFormed(v);
    CanonicalWellFormed(w);
    Utf8RoundTrip(Canonicalize(v).value);
    Utf8RoundTrip(Canonicalize(w).value);
  }
}
