/** JavaScript strings as sequences of UTF-16 code units, with the conversions the log relies on:
    hexadecimal (lenient decoding, as in Node's Buffer), decimal numbers and UTF-8.
 */
module JsText {
  import opened Bytes

  newtype CodeUnit = c: int | 0 <= c < 0x1_0000

  type JsString = seq<CodeUnit>

  const QUOTE: CodeUnit := 0x22
  const COMMA: CodeUnit := 0x2c
  const MINUS: CodeUnit := 0x2d
  const COLON: CodeUnit := 0x3a
  const BACKSLASH: CodeUnit := 0x5c
  const BAR: CodeUnit := 0x7c
  const NEWLINE: CodeUnit := 0x0a

  predicate Digit(c: CodeUnit) {
    0x30 <= c <= 0x39
  }

  /** Text of the program itself. */
  function Text(s: string): (t: JsString)
    requires forall i :: 0 <= i < |s| ==> s[i] < '\U{80}'
    ensures |t| == |s| && forall i :: 0 <= i < |s| ==> t[i] as int == s[i] as int
  {
    seq(|s|, i requires 0 <= i < |s| => s[i] as int as CodeUnit)
  }

  // ---------- Hexadecimal ----------

  function HexDigit(v: int): CodeUnit
    requires 0 <= v < 16
  {
    if v < 10 then (0x30 + v) as CodeUnit else (0x57 + v) as CodeUnit
  }

  /** The value of one hexadecimal digit in either case. */
  function HexValue(c: CodeUnit): (v: Option<int>)
    ensures v.Some? ==> 0 <= v.value < 16
  {
    if 0x30 <= c <= 0x39 then Some(c as int - 0x30)
    else if 0x61 <= c <= 0x66 then Some(c as int - 0x57)
    else if 0x41 <= c <= 0x46 then Some(c as int - 0x37)
    else None
  }

  /** `buf.toString('hex')`: two lowercase digits a byte. */
  function HexEncode(bytes: ByteSeq): (s: JsString)
    ensures |s| == 2 * |bytes|
  {
    if bytes == [] then []
    else [HexDigit(bytes[0] as int / 16), HexDigit(bytes[0] as int % 16)] + HexEncode(bytes[1..])
  }

  /** `Buffer.from(s, 'hex')`: decoding stops silently at the first pair that is not two hexadecimal digits. */
  function HexDecode(s: JsString): ByteSeq {
    if |s| < 2 || HexValue(s[0]).None? || HexValue(s[1]).None? then []
    else [(16 * HexValue(s[0]).value + HexValue(s[1]).value) as Byte] + HexDecode(s[2..])
  }

  lemma {:induction false} HexRoundTrip(bytes: ByteSeq)
    ensures HexDecode(HexEncode(bytes)) == bytes
  {
    if bytes != [] {
      HexRoundTrip(bytes[1..]);
      assert HexEncode(bytes)[2..] == HexEncode(bytes[1..]);
    }
  }

  /** Every unit of an encoded byte string is a lowercase hexadecimal digit. */
  lemma {:induction false} HexEncodeDigits(bytes: ByteSeq)
    ensures forall c :: c in HexEncode(bytes) ==> Digit(c) || 0x61 <= c <= 0x66
  {
    if bytes != [] {
      HexEncodeDigits(bytes[1..]);
    }
  }

  /** A digit of "0123456789abcdef". */
  ghost function LowerHex(v: int): CodeUnit
    requires 0 <= v < 16
  {
    Text("0123456789abcdef")[v]
  }

  ghost function UpperHex(v: int): CodeUnit
    requires 0 <= v < 16
  {
    Text("0123456789ABCDEF")[v]
  }

  lemma HexDigitIsLower(v: int)
    requires 0 <= v < 16
    ensures HexDigit(v) == LowerHex(v)
  {
  }

  lemma HexValueOfDigit(v: int)
    requires 0 <= v < 16
    ensures HexValue(LowerHex(v)) == Some(v) == HexValue(UpperHex(v))
  {
  }

  /** The two digits of each byte, the high one first, in lower case. */
  lemma {:induction false} HexEncodeAt(bytes: ByteSeq, i: nat)
    requires i < |bytes|
    ensures HexEncode(bytes)[2 * i] == LowerHex(bytes[i] as int / 16)
    ensures HexEncode(bytes)[2 * i + 1] == LowerHex(bytes[i] as int % 16)
  {
    var rest := HexEncode(bytes[1..]);
    if i > 0 {
      HexEncodeAt(bytes[1..], i - 1);
      assert HexEncode(bytes)[2 * i] == rest[2 * (i - 1)] && HexEncode(bytes)[2 * i + 1] == rest[2 * (i - 1) + 1];
    } else {
      HexDigitIsLower(bytes[0] as int / 16);
      HexDigitIsLower(bytes[0] as int % 16);
    }
  }

  /** The i-th pair is two digits with the value of the byte, the high one first. */
  ghost predicate PairAt(s: JsString, i: int, b: Byte)
    requires 0 <= 2 * i && 2 * i + 1 < |s|
  {
    var hi, lo := HexValue(s[2 * i]), HexValue(s[2 * i + 1]);
    hi.Some? && lo.Some? && b as int == 16 * hi.value + lo.value
  }

  /** What lenient decoding reads: as many pairs of digits as there are from the start. */
  lemma {:induction false} HexDecodeExactly(s: JsString)
    ensures var n := |HexDecode(s)|;
            && 2 * n <= |s|
            && (forall i :: 0 <= i < n ==> PairAt(s, i, HexDecode(s)[i]))
            && (2 * n + 2 <= |s| ==> HexValue(s[2 * n]).None? || HexValue(s[2 * n + 1]).None?)
    decreases |s|
  {
    if HexDecode(s) != [] {
      var n, t := |HexDecode(s)|, s[2..];
      HexDecodeExactly(t);
      assert HexDecode(s)[1..] == HexDecode(t);
      forall i | 0 <= i < n
        ensures PairAt(s, i, HexDecode(s)[i])
      {
        if i > 0 {
          assert PairAt(t, i - 1, HexDecode(t)[i - 1]);
          assert s[2 * i] == t[2 * (i - 1)] && s[2 * i + 1] == t[2 * (i - 1) + 1];
        }
      }
      if 2 * n + 2 <= |s| {
        assert s[2 * n] == t[2 * (n - 1)] && s[2 * n + 1] == t[2 * (n - 1) + 1];
      }
    }
  }

  /** The digits of either case, and nothing else, have a value. */
  lemma HexDigitsExactly(c: CodeUnit)
    ensures HexValue(c).Some? <==> exists v :: 0 <= v < 16 && (c == LowerHex(v) || c == UpperHex(v))
    ensures HexValue(c).Some? ==> c == LowerHex(HexValue(c).value) || c == UpperHex(HexValue(c).value)
  {
    if v :| 0 <= v < 16 && (c == LowerHex(v) || c == UpperHex(v)) {
      HexValueOfDigit(v);
    }
    if HexValue(c).Some? {
      var v := HexValue(c).value;
      HexDigitIsLower(v);
      UpperDigit(v);
      assert c == LowerHex(v) || c == UpperHex(v);
    }
  }

  lemma UpperDigit(v: int)
    requires 0 <= v < 16
    ensures UpperHex(v) as int == if v < 10 then 0x30 + v else 0x37 + v
  {
  }

  // ---------- Decimal numbers ----------

  function Decimal(n: nat): (s: JsString)
    ensures |s| >= 1
    ensures forall c :: c in s ==> Digit(c)
  {
    if n < 10 then [(0x30 + n) as CodeUnit] else Decimal(n / 10) + [(0x30 + n % 10) as CodeUnit]
  }

  function DecimalValue(s: JsString): int {
    if s == [] then 0 else 10 * DecimalValue(s[..|s| - 1]) + s[|s| - 1] as int - 0x30
  }

  /** No leading zero: every number has one text. */
  lemma {:induction false} DecimalRoundTrip(n: nat)
    ensures DecimalValue(Decimal(n)) == n
    ensures Decimal(n)[0] == 0x30 ==> Decimal(n) == [0x30]
  {
    if n >= 10 {
      DecimalRoundTrip(n / 10);
      assert Decimal(n)[..|Decimal(n)| - 1] == Decimal(n / 10);
      assert Decimal(n / 10) == [0x30] ==> DecimalValue([0x30]) == n / 10;
    }
  }

  /** The text of an integer in a template literal. */
  function IntText(z: int): (s: JsString)
    ensures |s| >= 1
    ensures forall c :: c in s ==> Digit(c) || c == MINUS
  {
    if z < 0 then [MINUS] + Decimal(-z) else Decimal(z)
  }

  /** A sign if there is one, and then digits that have the value, without leading zeros. */
  lemma IntTextMeans(z: int)
    ensures IntText(z)[0] == MINUS <==> z < 0
    ensures var digits := IntText(z)[if z < 0 then 1 else 0..];
            && digits != [] && (forall c :: c in digits ==> Digit(c))
            && DecimalValue(digits) == (if z < 0 then -z else z)
            && (digits[0] == 0x30 ==> digits == [0x30])
  {
    var n: nat := if z < 0 then -z else z;
    DecimalRoundTrip(n);
    assert Decimal(n)[0] in Decimal(n);
    assert IntText(z)[if z < 0 then 1 else 0..] == Decimal(n);
  }

  lemma IntTextInjective(y: int, z: int)
    requires IntText(y) == IntText(z)
    ensures y == z
  {
    if y < 0 && z < 0 {
      assert IntText(y)[1..] == Decimal(-y) && IntText(z)[1..] == Decimal(-z);
    }
    assert IntText(y)[0] == IntText(z)[0];
    assert y >= 0 ==> Decimal(y)[0] in Decimal(y);
    assert z >= 0 ==> Decimal(z)[0] in Decimal(z);
    DecimalRoundTrip(if y < 0 then -y else y);
    DecimalRoundTrip(if z < 0 then -z else z);
  }

  /** Where a separator first occurs is determined by the text: two pieces free of it are equal. */
  lemma {:induction false} SplitAtSeparator<T>(a: seq<T>, b: seq<T>, sep: T, r: seq<T>, s: seq<T>)
    requires sep !in a && sep !in b
    requires a + [sep] + r == b + [sep] + s
    ensures a == b && r == s
    decreases |a|
  {
    var t := a + [sep] + r;
    assert t[0] == (a + [sep])[0] == (b + [sep])[0];
    if a == [] || b == [] {
      assert r == t[1..] && s == t[1..];
    } else {
      assert a[1..] + [sep] + r == t[1..] == b[1..] + [sep] + s;
      SplitAtSeparator(a[1..], b[1..], sep, r, s);
      assert a == [a[0]] + a[1..] && b == [b[0]] + b[1..];
    }
  }

  // ---------- Surrogates and UTF-8 ----------

  predicate High(c: CodeUnit) {
    0xd800 <= c <= 0xdbff
  }

  predicate Low(c: CodeUnit) {
    0xdc00 <= c <= 0xdfff
  }

  predicate StartsWithPair(s: JsString) {
    |s| >= 2 && High(s[0]) && Low(s[1])
  }

  /** No surrogate stands alone. */
  predicate WellFormed(s: JsString) {
    if s == [] then true
    else if StartsWithPair(s) then WellFormed(s[2..])
    else !High(s[0]) && !Low(s[0]) && WellFormed(s[1..])
  }

  lemma {:induction false} WellFormedConcat(s: JsString, t: JsString)
    requires WellFormed(s) && WellFormed(t)
    ensures WellFormed(s + t)
    decreases |s|
  {
    if s == [] {
      assert s + t == t;
    } else if StartsWithPair(s) {
      WellFormedConcat(s[2..], t);
      assert (s + t)[2..] == s[2..] + t;
    } else {
      WellFormedConcat(s[1..], t);
      assert (s + t)[1..] == s[1..] + t;
    }
  }

  lemma {:induction false} NoSurrogatesWellFormed(s: JsString)
    requires forall c :: c in s ==> !High(c) && !Low(c)
    ensures WellFormed(s)
  {
    if s != [] {
      NoSurrogatesWellFormed(s[1..]);
    }
  }

  /** The code point of a surrogate pair. */
  function PairCodePoint(hi: CodeUnit, lo: CodeUnit): (cp: int)
    requires High(hi) && Low(lo)
    ensures 0x1_0000 <= cp < 0x11_0000
  {
    0x1_0000 + (hi as int - 0xd800) * 0x400 + (lo as int - 0xdc00)
  }

  /** The UTF-8 bytes of one code point. */
  function CodePointBytes(cp: int): (r: ByteSeq)
    requires 0 <= cp < 0x11_0000
    ensures 1 <= |r| <= 4
  {
    if cp < 0x80 then [cp as Byte]
    else if cp < 0x800 then [(0xc0 + cp / 64) as Byte, (0x80 + cp % 64) as Byte]
    else if cp < 0x1_0000 then
      [(0xe0 + cp / 4096) as Byte, (0x80 + cp / 64 % 64) as Byte, (0x80 + cp % 64) as Byte]
    else
      [(0xf0 + cp / 262144) as Byte, (0x80 + cp / 4096 % 64) as Byte, (0x80 + cp / 64 % 64) as Byte, (0x80 + cp % 64) as Byte]
  }

  /** How many code units the first code point of a string takes. */
  function LeadUnits(s: JsString): (n: nat)
    requires s != []
    ensures 1 <= n <= 2 && n <= |s|
  {
    if StartsWithPair(s) then 2 else 1
  }

  /** The first code point of a string; a lone surrogate becomes U+FFFD. */
  function LeadCodePoint(s: JsString): (cp: int)
    requires s != []
    ensures 0 <= cp < 0x11_0000
  {
    if StartsWithPair(s) then PairCodePoint(s[0], s[1])
    else if High(s[0]) || Low(s[0]) then 0xfffd
    else s[0] as int
  }

  /** `Buffer.from(s, 'utf8')`. */
  function Utf8(s: JsString): ByteSeq {
    if s == [] then [] else CodePointBytes(LeadCodePoint(s)) + Utf8(s[LeadUnits(s)..])
  }

  /** The UTF-16 code units of one code point. */
  function CodePointUnits(cp: int): JsString
    requires 0 <= cp < 0x11_0000
  {
    if cp < 0x1_0000 then [cp as CodeUnit]
    else [(0xd800 + (cp - 0x1_0000) / 0x400) as CodeUnit, (0xdc00 + (cp - 0x1_0000) % 0x400) as CodeUnit]
  }

  /** How many bytes a code point takes, by its first byte. */
  function EncodedLength(lead: Byte): nat {
    if lead < 0xc0 then 1 else if lead < 0xe0 then 2 else if lead < 0xf0 then 3 else 4
  }

  function Decode2(a: Byte, b: Byte): int {
    (a as int - 0xc0) * 64 + b as int - 0x80
  }

  function Decode3(a: Byte, b: Byte, c: Byte): int {
    (a as int - 0xe0) * 4096 + (b as int - 0x80) * 64 + c as int - 0x80
  }

  function Decode4(a: Byte, b: Byte, c: Byte, d: Byte): int {
    (a as int - 0xf0) * 262144 + (b as int - 0x80) * 4096 + (c as int - 0x80) * 64 + d as int - 0x80
  }

  /** The code point of one complete encoding. */
  function DecodeCodePoint(b: ByteSeq): int {
    if |b| == 1 then b[0] as int
    else if |b| == 2 then Decode2(b[0], b[1])
    else if |b| == 3 then Decode3(b[0], b[1], b[2])
    else if |b| == 4 then Decode4(b[0], b[1], b[2], b[3])
    else 0
  }

  /** Decoding; None on bytes no encoder produces. */
  function Utf8Decode(b: ByteSeq): Option<JsString> {
    if b == [] then Some([])
    else
      var n := EncodedLength(b[0]);
      if |b| < n then None
      else
        var cp := DecodeCodePoint(b[..n]);
        var rest := Utf8Decode(b[n..]);
        if 0 <= cp < 0x11_0000 && rest.Some? then Some(CodePointUnits(cp) + rest.value) else None
  }

  /** The shortest encoding, continued by bytes of the form 10xxxxxx. */
  lemma CodePointRoundTrip(cp: int)
    requires 0 <= cp < 0x11_0000
    ensures EncodedLength(CodePointBytes(cp)[0]) == |CodePointBytes(cp)|
    ensures DecodeCodePoint(CodePointBytes(cp)) == cp
    ensures |CodePointBytes(cp)| == if cp < 0x80 then 1 else if cp < 0x800 then 2 else if cp < 0x1_0000 then 3 else 4
    ensures forall i :: 1 <= i < |CodePointBytes(cp)| ==> 0x80 <= CodePointBytes(cp)[i] < 0xc0
  {
    var top, mid, low, q := cp / 262144, cp / 4096 % 64, cp / 64 % 64, cp % 64;
    assert cp / 64 == 64 * (cp / 4096) + low;
    assert cp / 4096 == 64 * top + mid;
  }

  lemma LeadUnitsOfLead(s: JsString)
    requires s != [] && WellFormed(s)
    ensures CodePointUnits(LeadCodePoint(s)) == s[..LeadUnits(s)]
    ensures WellFormed(s[LeadUnits(s)..])
  {
  }

  lemma {:induction false} Utf8Cons(head: ByteSeq, tail: ByteSeq)
    requires head != [] && |head| == EncodedLength(head[0]) && 0 <= DecodeCodePoint(head) < 0x11_0000
    requires Utf8Decode(tail).Some?
    ensures Utf8Decode(head + tail) == Some(CodePointUnits(DecodeCodePoint(head)) + Utf8Decode(tail).value)
  {
    var b := head + tail;
    assert b[..|head|] == head && b[|head|..] == tail;
  }

  /** UTF-8 loses nothing of a string without lone surrogates. */
  lemma {:induction false} Utf8RoundTrip(s: JsString)
    requires WellFormed(s)
    ensures Utf8Decode(Utf8(s)) == Some(s)
    decreases |s|
  {
    if s != [] {
      var n, cp := LeadUnits(s), LeadCodePoint(s);
      LeadUnitsOfLead(s);
      CodePointRoundTrip(cp);
      Utf8RoundTrip(s[n..]);
      Utf8Cons(CodePointBytes(cp), Utf8(s[n..]));
      assert s == s[..n] + s[n..];
    }
  }

  /** Text that does not start inside a pair can be encoded separately. */
  lemma {:induction false} Utf8Concat(s: JsString, t: JsString)
    requires t == [] || !Low(t[0])
    ensures Utf8(s + t) == Utf8(s) + Utf8(t)
    decreases |s|
  {
    if s == [] {
      assert s + t == t;
    } else {
      var n := LeadUnits(s);
      LeadOfConcat(s, t);
      Utf8Concat(s[n..], t);
      Associative(CodePointBytes(LeadCodePoint(s)), Utf8(s[n..]), Utf8(t));
    }
  }

  lemma LeadOfConcat(s: JsString, t: JsString)
    requires s != [] && (t == [] || !Low(t[0]))
    ensures LeadUnits(s + t) == LeadUnits(s) && LeadCodePoint(s + t) == LeadCodePoint(s)
    ensures (s + t)[LeadUnits(s)..] == s[LeadUnits(s)..] + t
  {
  }

  lemma Associative<T>(a: seq<T>, b: seq<T>, c: seq<T>)
    ensures a + (b + c) == a + b + c
  {
  }

  /** An ASCII byte in the encoding comes from that very unit. */
  lemma {:induction false} Utf8Ascii(s: JsString, c: CodeUnit)
    requires c < 0x80
    ensures (c as int as Byte) in Utf8(s) <==> c in s
    decreases |s|
  {
    if s != [] {
      var n := LeadUnits(s);
      Utf8Ascii(s[n..], c);
      assert s == s[..n] + s[n..];
      assert c in s <==> c in s[..n] || c in s[n..];
      assert c in s[..n] <==> LeadCodePoint(s) == c as int;
    }
  }

  /** ASCII text is encoded unit by unit. */
  lemma {:induction false} Utf8OfAscii(s: JsString)
    requires forall c :: c in s ==> c < 0x80
    ensures |Utf8(s)| == |s| && forall i :: 0 <= i < |s| ==> Utf8(s)[i] as int == s[i] as int
    decreases |s|
  {
    if s != [] {
      assert s[0] in s && !StartsWithPair(s);
      assert forall c :: c in s[1..] ==> c in s;
      Utf8OfAscii(s[1..]);
      assert Utf8(s) == [s[0] as int as Byte] + Utf8(s[1..]);
    }
  }

  /** ASCII text is determined by its bytes, among all strings. */
  lemma {:induction false} AsciiPinned(s: JsString, t: JsString)
    requires Utf8(s) == Utf8(t) && forall c :: c in t ==> c < 0x80
    ensures s == t
    decreases |s|
  {
    if s == [] {
      assert t != [] ==> Utf8(t) != [];
    } else if t != [] {
      assert t[0] in t && !StartsWithPair(t);
      assert Utf8(t) == [t[0] as int as Byte] + Utf8(t[1..]);
      assert Utf8(s)[0] == Utf8(t)[0];
      assert LeadCodePoint(s) == t[0] as int && LeadUnits(s) == 1;
      assert Utf8(s)[1..] == Utf8(s[1..]) && Utf8(t)[1..] == Utf8(t[1..]);
      assert forall c :: c in t[1..] ==> c in t;
      AsciiPinned(s[1..], t[1..]);
      assert s == [s[0]] + s[1..] && t == [t[0]] + t[1..];
    }
  }
}
