/** JCS canonicalisation (RFC 8785) of JSON values: the text that is signed and hashed.

    An object is a list of members in insertion order, with distinct keys.  A finite number is identified by its
    ECMAScript text: Number-to-String is taken to be injective over number characters, with -0 the same as 0.
 */
module Signer {
  import opened Bytes
  import opened JsText

  // ---------- Values ----------

  predicate NumberChar(c: CodeUnit) {
    Digit(c) || c == MINUS || c == 0x2b || c == 0x2e || c == 0x65
  }

  type NumberText = t: JsString | t != [] && forall c :: c in t ==> NumberChar(c) witness [0x30]

  datatype Num = Finite(text: NumberText) | NaN | Infinity(negative: bool)

  /** What typeof calls a value outside the JSON data model; undefined is singled out because objects refuse it first. */
  datatype Foreign = Undefined | Function | Symbol | BigInt

  datatype Json =
    | Null
    | Bool(b: bool)
    | Number(n: Num)
    | Str(s: JsString)
    | Arr(items: seq<Json>)
    | Obj(members: seq<Member<Json>>)
    | Unsupported(kind: Foreign)

  datatype Member<+T> = Member(key: JsString, value: T)

  datatype CanonError = Circular | UndefinedMember(key: JsString) | NonFinite | OutsideModel(kind: Foreign)

  type Printed = Result<JsString, CanonError>

  // ---------- Ordering keys ----------

  /** The first difference of two strings, or the difference of their lengths. */
  function Compare(a: JsString, b: JsString): int {
    if a == [] || b == [] then |a| - |b|
    else if a[0] != b[0] then a[0] as int - b[0] as int
    else Compare(a[1..], b[1..])
  }

  predicate Before(a: JsString, b: JsString) {
    Compare(a, b) < 0
  }

  lemma {:induction false} CompareEqual(a: JsString, b: JsString)
    ensures Compare(a, b) == 0 <==> a == b
    decreases |a|
  {
    if a != [] && b != [] {
      assert a == [a[0]] + a[1..] && b == [b[0]] + b[1..];
      CompareEqual(a[1..], b[1..]);
    }
  }

  lemma {:induction false} CompareOpposite(a: JsString, b: JsString)
    ensures Compare(a, b) == -Compare(b, a)
    decreases |a|
  {
    if a != [] && b != [] {
      CompareOpposite(a[1..], b[1..]);
    }
  }

  lemma {:induction false} BeforeTransitive(a: JsString, b: JsString, c: JsString)
    requires Before(a, b) && Before(b, c)
    ensures Before(a, c)
    decreases |a|
  {
    if a != [] && b != [] && c != [] && a[0] == b[0] == c[0] {
      BeforeTransitive(a[1..], b[1..], c[1..]);
    }
  }

  /** Code units order the strings totally. */
  lemma CodeUnitOrder(a: JsString, b: JsString, c: JsString)
    ensures !Before(a, a)
    ensures a == b || Before(a, b) || Before(b, a)
    ensures !(Before(a, b) && Before(b, a))
    ensures Before(a, b) && Before(b, c) ==> Before(a, c)
  {
    CompareEqual(a, a);
    CompareEqual(a, b);
    CompareOpposite(a, b);
    if Before(a, b) && Before(b, c) {
      BeforeTransitive(a, b, c);
    }
  }

  // ---------- Which order it is ----------

  ghost predicate DifferAt(a: JsString, b: JsString, i: nat) {
    i < |a| && i < |b| && a[..i] == b[..i] && a[i] != b[i]
  }

  /** The order of section 3.2.3 of RFC 8785: a proper prefix comes first, and else the text with the smaller unit where
      the two first differ. */
  ghost predicate CodeUnitLess(a: JsString, b: JsString) {
    || (|a| < |b| && a <= b)
    || (exists i: nat :: DifferAt(a, b, i) && a[i] < b[i])
  }

  lemma {:induction false} CompareAtDifference(a: JsString, b: JsString, i: nat)
    requires DifferAt(a, b, i)
    ensures Compare(a, b) == a[i] as int - b[i] as int
    decreases |a|
  {
    if i > 0 {
      assert a[0] == a[..i][0] == b[..i][0] == b[0];
      assert a[1..][..i - 1] == a[..i][1..] && b[1..][..i - 1] == b[..i][1..];
      CompareAtDifference(a[1..], b[1..], i - 1);
    }
  }

  lemma {:induction false} ComparePrefix(a: JsString, b: JsString)
    requires a <= b
    ensures Compare(a, b) == |a| - |b|
    decreases |a|
  {
    if a != [] {
      assert a[1..] <= b[1..];
      ComparePrefix(a[1..], b[1..]);
    }
  }

  lemma {:induction false} FirstDifference(a: JsString, b: JsString) returns (i: nat)
    ensures a <= b || b <= a || DifferAt(a, b, i)
    decreases |a|
  {
    i := 0;
    if a != [] && b != [] && a[0] == b[0] {
      var j := FirstDifference(a[1..], b[1..]);
      assert a == [a[0]] + a[1..] && b == [b[0]] + b[1..];
      i := j + 1;
      if DifferAt(a[1..], b[1..], j) {
        assert a[..i] == [a[0]] + a[1..][..j] && b[..i] == [b[0]] + b[1..][..j];
      }
    }
  }

  /** It is the order by code units. */
  lemma BeforeExactly(a: JsString, b: JsString)
    ensures Before(a, b) <==> CodeUnitLess(a, b)
  {
    var i := FirstDifference(a, b);
    forall j: nat | DifferAt(a, b, j)
      ensures Compare(a, b) == a[j] as int - b[j] as int
    {
      CompareAtDifference(a, b, j);
    }
    if a <= b {
      ComparePrefix(a, b);
    } else if b <= a {
      ComparePrefix(b, a);
      CompareOpposite(a, b);
    }
  }

  method CompareCodeUnits(a: JsString, b: JsString) returns (diff: int)
    ensures diff == Compare(a, b)
    ensures diff < 0 <==> CodeUnitLess(a, b)
    ensures diff == 0 <==> a == b
  {
    BeforeExactly(a, b);
    CompareEqual(a, b);
    var len := if |a| < |b| then |a| else |b|;
    assert a[0..] == a && b[0..] == b;
    for i := 0 to len
      invariant Compare(a, b) == Compare(a[i..], b[i..])
    {
      diff := a[i] as int - b[i] as int;
      if diff != 0 {
        return;
      }
      assert a[i..][1..] == a[i + 1..] && b[i..][1..] == b[i + 1..];
    }
    return |a| - |b|;
  }

  // ---------- Sorting members ----------

  function Insert<T>(m: Member<T>, ms: seq<Member<T>>): (r: seq<Member<T>>)
    ensures multiset(r) == multiset(ms) + multiset{m}
  {
    if ms == [] || !Before(ms[0].key, m.key) then [m] + ms
    else
      assert ms == [ms[0]] + ms[1..];
      [ms[0]] + Insert(m, ms[1..])
  }

  /** Any sort would do: keys are distinct, so the sorted order is unique. */
  function SortMembers<T>(ms: seq<Member<T>>): (r: seq<Member<T>>)
    ensures multiset(r) == multiset(ms)
    ensures |r| == |ms|
  {
    if ms == [] then []
    else
      assert ms == [ms[0]] + ms[1..];
      var r := Insert(ms[0], SortMembers(ms[1..]));
      assert |multiset(r)| == |r| && |multiset(ms)| == |ms|;
      r
  }

  lemma SortedMembersInside(v: Json)
    requires v.Obj?
    ensures forall m :: m in SortMembers(v.members) <==> m in v.members
    ensures forall m :: m in SortMembers(v.members) ==> m.value < v
  {
    forall m
      ensures m in SortMembers(v.members) <==> m in v.members
      ensures m in v.members ==> m.value < v
    {
      assert m in SortMembers(v.members) <==> m in multiset(SortMembers(v.members));
      assert m in v.members <==> m in multiset(v.members);
    }
  }

  // ---------- Strings ----------

  /** \uXXXX with four lowercase digits. */
  function UnicodeEscape(c: CodeUnit): JsString {
    var v := c as int;
    [BACKSLASH, 0x75, HexDigit(v / 4096), HexDigit(v / 256 % 16), HexDigit(v / 16 % 16), HexDigit(v % 16)]
  }

  /** The text of a code unit that is not part of a surrogate pair. */
  function EscapeUnit(c: CodeUnit): JsString {
    if c == 0x08 then [BACKSLASH, 0x62]
    else if c == 0x09 then [BACKSLASH, 0x74]
    else if c == 0x0a then [BACKSLASH, 0x6e]
    else if c == 0x0c then [BACKSLASH, 0x66]
    else if c == 0x0d then [BACKSLASH, 0x72]
    else if c == QUOTE then [BACKSLASH, QUOTE]
    else if c == BACKSLASH then [BACKSLASH, BACKSLASH]
    else if c < 0x20 || High(c) || Low(c) then UnicodeEscape(c)
    else [c]
  }

  function Escape(s: JsString): JsString {
    if s == [] then []
    else if StartsWithPair(s) then s[..2] + Escape(s[2..])
    else EscapeUnit(s[0]) + Escape(s[1..])
  }

  function Quoted(s: JsString): JsString {
    [QUOTE] + Escape(s) + [QUOTE]
  }

  method SerializeString(s: JsString) returns (out: JsString)
    ensures out == Quoted(s)
  {
    out := [QUOTE];
    var i := 0;
    assert s[0..] == s;
    while i < |s|
      invariant 0 <= i <= |s|
      invariant out + Escape(s[i..]) == [QUOTE] + Escape(s)
    {
      var code := s[i];
      var rest := s[i..];
      ghost var before := out;
      if code == 0x08 {
        out := out + [BACKSLASH, 0x62];
      } else if code == 0x09 {
        out := out + [BACKSLASH, 0x74];
      } else if code == 0x0a {
        out := out + [BACKSLASH, 0x6e];
      } else if code == 0x0c {
        out := out + [BACKSLASH, 0x66];
      } else if code == 0x0d {
        out := out + [BACKSLASH, 0x72];
      } else if code == QUOTE {
        out := out + [BACKSLASH, QUOTE];
      } else if code == BACKSLASH {
        out := out + [BACKSLASH, BACKSLASH];
      } else if code < 0x20 {
        out := out + UnicodeEscape(code);
      } else if 0xd800 <= code <= 0xdbff {
        if i + 1 < |s| && 0xdc00 <= s[i + 1] <= 0xdfff {
          out := out + [s[i], s[i + 1]];
          i := i + 1;
        } else {
          out := out + UnicodeEscape(code);
        }
      } else if 0xdc00 <= code <= 0xdfff {
        out := out + UnicodeEscape(code);
      } else {
        out := out + [code];
      }
      i := i + 1;
      EscapeStep(rest);
      assert s[i..] == rest[LeadUnits(rest)..];
      Associative(before, out[|before|..], Escape(s[i..]));
      assert out == before + out[|before|..];
    }
    out := out + [QUOTE];
  }

  lemma EscapeStep(s: JsString)
    requires s != []
    ensures Escape(s) == (if StartsWithPair(s) then [s[0], s[1]] else EscapeUnit(s[0])) + Escape(s[LeadUnits(s)..])
  {
  }

  /** The escapes of section 3.2.2.2 of RFC 8785: a short one where there is one, and else four lowercase digits; only
      controls, the quote, the backslash and lone surrogates are escaped. */
  lemma EscapeUnitExactly(c: CodeUnit)
    ensures c == 0x08 ==> EscapeUnit(c) == Text("\\b")
    ensures c == 0x09 ==> EscapeUnit(c) == Text("\\t")
    ensures c == 0x0a ==> EscapeUnit(c) == Text("\\n")
    ensures c == 0x0c ==> EscapeUnit(c) == Text("\\f")
    ensures c == 0x0d ==> EscapeUnit(c) == Text("\\r")
    ensures c == 0x22 ==> EscapeUnit(c) == Text("\\\"")
    ensures c == 0x5c ==> EscapeUnit(c) == Text("\\\\")
    ensures (c < 0x20 && c !in {0x08, 0x09, 0x0a, 0x0c, 0x0d}) || 0xd800 <= c <= 0xdfff ==>
              EscapeUnit(c) == Text("\\u") + HexEncode([(c / 0x100) as int as Byte, (c % 0x100) as int as Byte])
    ensures 0x20 <= c && c != 0x22 && c != 0x5c && !(0xd800 <= c <= 0xdfff) ==> EscapeUnit(c) == [c]
  {
    HexOfUnit(c);
  }

  lemma HexOfUnit(c: CodeUnit)
    ensures UnicodeEscape(c) == Text("\\u") + HexEncode([(c / 0x100) as int as Byte, (c % 0x100) as int as Byte])
  {
    HexOfTwo((c / 0x100) as int as Byte, (c % 0x100) as int as Byte);
    Nibbles(c as int);
    assert Text("\\u") == [BACKSLASH, 0x75];
  }

  lemma Nibbles(v: int)
    requires 0 <= v < 0x1_0000
    ensures v / 0x100 / 16 == v / 4096 && v / 0x100 % 16 == v / 256 % 16
    ensures v % 0x100 / 16 == v / 16 % 16 && v % 0x100 % 16 == v % 16
  {
    var q, r := v / 0x100, v % 0x100;
    Nibble(v, q / 16, q % 16, r / 16, r % 16);
  }

  lemma Nibble(v: int, a: int, b: int, c: int, d: int)
    requires v == 4096 * a + 256 * b + 16 * c + d && 0 <= a < 16 && 0 <= b < 16 && 0 <= c < 16 && 0 <= d < 16
    ensures v / 4096 == a && v / 256 == 16 * a + b && v / 16 == 256 * a + 16 * b + c && v % 16 == d
  {
  }

  lemma HexOfTwo(hi: Byte, lo: Byte)
    ensures HexEncode([hi, lo])
         == [HexDigit(hi as int / 16), HexDigit(hi as int % 16), HexDigit(lo as int / 16), HexDigit(lo as int % 16)]
  {
    assert [hi, lo][1..] == [lo] && [lo][1..] == [];
  }

  /** Text that needs no escape. */
  predicate Plain(s: JsString) {
    WellFormed(s) && forall c :: c in s ==> c >= 0x20 && c != QUOTE && c != BACKSLASH
  }

  lemma PlainSplits(s: JsString)
    requires s != []
    ensures Plain(s) <==> Plain(s[LeadUnits(s)..]) && (StartsWithPair(s) || EscapeUnit(s[0]) == [s[0]])
  {
    var n := LeadUnits(s);
    assert s == s[..n] + s[n..] && s[..n] == if n == 2 then [s[0], s[1]] else [s[0]];
    assert forall c :: c in s <==> c in s[..n] || c in s[n..];
    if StartsWithPair(s) {
      assert s[0] >= 0x20 && s[0] != QUOTE && s[0] != BACKSLASH && s[1] >= 0x20 && s[1] != QUOTE && s[1] != BACKSLASH;
      assert Plain(s) <==> Plain(s[n..]);
    } else {
      assert s[0] in s;
      assert Plain(s) ==> Plain(s[n..]);
      assert Plain(s) ==> EscapeUnit(s[0]) == [s[0]];
      assert EscapeUnit(s[0]) == [s[0]] ==> s[0] >= 0x20 && s[0] != QUOTE && s[0] != BACKSLASH && !High(s[0]) && !Low(s[0]);
    }
  }

  lemma {:induction false} EscapeOfPlain(s: JsString)
    ensures |Escape(s)| >= |s| && (Plain(s) <==> |Escape(s)| == |s|)
    ensures Plain(s) ==> Escape(s) == s
    decreases |s|
  {
    if s != [] {
      EscapeStep(s);
      PlainSplits(s);
      EscapeOfPlain(s[LeadUnits(s)..]);
      assert s == s[..LeadUnits(s)] + s[LeadUnits(s)..];
    }
  }

  /** A text stands for itself exactly when nothing in it must be escaped. */
  lemma PlainExactly(s: JsString)
    ensures Quoted(s) == [QUOTE] + s + [QUOTE] <==> Plain(s)
  {
    EscapeOfPlain(s);
    assert |Quoted(s)| == |Escape(s)| + 2 && |[QUOTE] + s + [QUOTE]| == |s| + 2;
  }

  // ---------- Canonicalisation ----------

  const NULL_TEXT: JsString := [0x6e, 0x75, 0x6c, 0x6c]
  const TRUE_TEXT: JsString := [0x74, 0x72, 0x75, 0x65]
  const FALSE_TEXT: JsString := [0x66, 0x61, 0x6c, 0x73, 0x65]
  const OPEN_ARRAY: CodeUnit := 0x5b
  const CLOSE_ARRAY: CodeUnit := 0x5d
  const OPEN_OBJECT: CodeUnit := 0x7b
  const CLOSE_OBJECT: CodeUnit := 0x7d

  function Join(texts: seq<JsString>): JsString {
    if texts == [] then []
    else if |texts| == 1 then texts[0]
    else texts[0] + [COMMA] + Join(texts[1..])
  }

  /** A value that is neither array nor object. */
  function PrintLeaf(v: Json): Printed
    requires !v.Arr? && !v.Obj?
  {
    match v
    case Null => Ok(NULL_TEXT)
    case Bool(b) => Ok(if b then TRUE_TEXT else FALSE_TEXT)
    case Number(n) => if n.Finite? then Ok(n.text) else Err(NonFinite)
    case Str(s) => Ok(Quoted(s))
    case Unsupported(kind) => Err(OutsideModel(kind))
  }

  /** canonicalize on a value without shared or circular references. */
  function Canonicalize(v: Json): Printed
    decreases v, 1, 0
  {
    match v
    case Arr(items) =>
      var texts := CanonicalItems(items);
      if texts.Err? then Err(texts.error) else Ok([OPEN_ARRAY] + Join(texts.value) + [CLOSE_ARRAY])
    case Obj(members) =>
      SortedMembersInside(v);
      var texts := CanonicalMembers(v, SortMembers(members));
      if texts.Err? then Err(texts.error) else Ok([OPEN_OBJECT] + Join(texts.value) + [CLOSE_OBJECT])
    case _ => PrintLeaf(v)
  }

  function CanonicalItems(items: seq<Json>): Result<seq<JsString>, CanonError>
    decreases items
  {
    if items == [] then Ok([])
    else
      var first := Canonicalize(items[0]);
      if first.Err? then Err(first.error)
      else
        var rest := CanonicalItems(items[1..]);
        if rest.Err? then rest else Ok([first.value] + rest.value)
  }

  function CanonicalMembers(parent: Json, members: seq<Member<Json>>): Result<seq<JsString>, CanonError>
    requires forall m :: m in members ==> m.value < parent
    decreases parent, 0, |members|
  {
    if members == [] then Ok([])
    else if members[0].value == Unsupported(Undefined) then Err(UndefinedMember(members[0].key))
    else
      var first := Canonicalize(members[0].value);
      if first.Err? then Err(first.error)
      else
        var rest := CanonicalMembers(parent, members[1..]);
        if rest.Err? then rest else Ok([Quoted(members[0].key) + [COLON] + first.value] + rest.value)
  }
}
