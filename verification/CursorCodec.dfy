/** Base64url encoding of cursors, in the atob/btoa mode and the Buffer mode (sections 4 and 5 of RFC 4648). */
module CursorCodec {
  import opened JsText

  type Byte = n: int | 0 <= n < 256 witness 0

  type Sextet = n: int | 0 <= n < 64 witness 0

  // ---------- alphabets ----------

  /** Section 4: A-Z, a-z, 0-9, '+', '/'. */
  function Base64Char(n: Sextet): char {
    if n < 26 then ('A' as int + n) as char
    else if n < 52 then ('a' as int + (n - 26)) as char
    else if n < 62 then ('0' as int + (n - 52)) as char
    else if n == 62 then '+' else '/'
  }

  function Base64Value(c: char): Option<Sextet> {
    if 'A' <= c <= 'Z' then Some(c as int - 'A' as int)
    else if 'a' <= c <= 'z' then Some(c as int - 'a' as int + 26)
    else if '0' <= c <= '9' then Some(c as int - '0' as int + 52)
    else if c == '+' then Some(62)
    else if c == '/' then Some(63)
    else None
  }

  /** Section 5: '-' and '_' in place of '+' and '/'; no padding. */
  predicate IsUrlSafe(c: char) {
    'A' <= c <= 'Z' || 'a' <= c <= 'z' || '0' <= c <= '9' || c == '-' || c == '_'
  }

  // ---------- groups ----------

  /** The sextets of at most three bytes, zero bits filling the last one. */
  function Sextets(b: seq<Byte>): seq<Sextet> {
    if b == [] then []
    else if |b| == 1 then [b[0] / 4, b[0] % 4 * 16]
    else if |b| == 2 then [b[0] / 4, b[0] % 4 * 16 + b[1] / 16, b[1] % 16 * 4]
    else [b[0] / 4, b[0] % 4 * 16 + b[1] / 16, b[1] % 16 * 4 + b[2] / 64, b[2] % 64] + Sextets(b[3..])
  }

  function Bytes(s: seq<Sextet>): seq<Byte> {
    if |s| < 2 then []
    else if |s| == 2 then [Join(s[0], 4, s[1])]
    else if |s| == 3 then [Join(s[0], 4, s[1]), Join(s[1] % 16, 16, s[2])]
    else [Join(s[0], 4, s[1]), Join(s[1] % 16, 16, s[2]), Join(s[2] % 4, 64, s[3])] + Bytes(s[4..])
  }

  /** A byte from the low bits of one sextet, scaled, and the high bits of the next. */
  function Join(high: int, scale: int, low: Sextet): Byte
    requires scale == 4 || scale == 16 || scale == 64
    requires 0 <= high < 256 / scale
  {
    high * scale + low / (64 / scale)
  }

  function Pad(n: nat): string {
    if n == 0 then "" else "=" + Pad(n - 1)
  }

  function PaddingFor(length: nat): nat {
    (4 - length % 4) % 4
  }

  function Chars(s: seq<Sextet>): (r: string)
    ensures |r| == |s|
  {
    seq(|s|, i requires 0 <= i < |s| => Base64Char(s[i]))
  }

  function Values(s: string): Option<seq<Sextet>> {
    if s == "" then Some([])
    else
      var first, rest := Base64Value(s[0]), Values(s[1..]);
      if first.Some? && rest.Some? then Some([first.value] + rest.value) else None
  }

  function Base64(b: seq<Byte>): string {
    var chars := Chars(Sextets(b));
    chars + Pad(PaddingFor(|chars|))
  }

  function StripEquals(s: string): string {
    if s != "" && s[|s| - 1] == '=' then StripEquals(s[..|s| - 1]) else s
  }

  /** Decoding of a padded text; anything else is an invalid character. */
  function FromBase64(s: string): Option<seq<Byte>> {
    var chars := StripEquals(s);
    if |s| % 4 != 0 || |s| - |chars| > 2 then None
    else match Values(chars) case None => None case Some(sextets) => Some(Bytes(sextets))
  }

  // ---------- btoa, atob and the two codec functions ----------

  predicate IsLatin1(s: string) {
    forall i :: 0 <= i < |s| ==> s[i] as int < 256
  }

  predicate IsAscii(s: string) {
    forall i :: 0 <= i < |s| ==> s[i] as int < 128
  }

  function Latin1Bytes(s: string): (b: seq<Byte>)
    requires IsLatin1(s)
    ensures |b| == |s|
  {
    seq(|s|, i requires 0 <= i < |s| => s[i] as int)
  }

  function Latin1Text(b: seq<Byte>): (s: string)
    ensures |s| == |b|
  {
    seq(|b|, i requires 0 <= i < |b| => b[i] as char)
  }

  /** btoa throws on characters outside Latin-1. */
  function Btoa(s: string): Option<string> {
    if IsLatin1(s) then Some(Base64(Latin1Bytes(s))) else None
  }

  function Atob(s: string): Option<string> {
    match FromBase64(s) case None => None case Some(b) => Some(Latin1Text(b))
  }

  function ReplaceAll(s: string, from: char, to: char): (r: string)
    ensures |r| == |s|
  {
    seq(|s|, i requires 0 <= i < |s| => if s[i] == from then to else s[i])
  }

  /** String to base64url in atob/btoa mode. */
  function StringToBase64url(value: string): Option<string> {
    match Btoa(value)
    case None => None
    case Some(base64) => Some(StripEquals(ReplaceAll(ReplaceAll(base64, '+', '-'), '/', '_')))
  }

  function Base64urlToString(base64url: string): Option<string> {
    var base64 := ReplaceAll(ReplaceAll(base64url, '-', '+'), '_', '/');
    Atob(base64 + Pad(PaddingFor(|base64|)))
  }

  /** UTF-8 bytes of one Unicode scalar value. */
  function Utf8Char(c: char): (b: seq<Byte>)
    ensures |b| >= 1
  {
    var n := c as int;
    if n < 0x80 then [n]
    else if n < 0x800 then [0xC0 + n / 0x40, 0x80 + n % 0x40]
    else if n < 0x10000 then [0xE0 + n / 0x1000, 0x80 + n / 0x40 % 0x40, 0x80 + n % 0x40]
    else [0xF0 + n / 0x40000, 0x80 + n / 0x1000 % 0x40, 0x80 + n / 0x40 % 0x40, 0x80 + n % 0x40]
  }

  function Utf8(s: string): seq<Byte> {
    if s == "" then [] else Utf8Char(s[0]) + Utf8(s[1..])
  }

  /** String to base64url in Buffer mode: UTF-8, URL-safe alphabet, no padding. */
  function StringToBase64urlBuffer(value: string): string {
    ReplaceAll(ReplaceAll(Chars(Sextets(Utf8(value))), '+', '-'), '/', '_')
  }

  /** UTF-8 decoding of the first character: the character and its length, None on malformed bytes. */
  function DecodeFirst(b: seq<Byte>): Option<(char, nat)>
    requires b != []
  {
    if b[0] < 0x80 then Some((b[0] as char, 1))
    else if 0xC2 <= b[0] < 0xE0 && |b| >= 2 && IsTail(b[1]) then
      Some((TwoBytes(b[0], b[1]) as char, 2))
    else if 0xE0 <= b[0] < 0xF0 && |b| >= 3 && IsTail(b[1]) && IsTail(b[2]) then
      var n := ThreeBytes(b[0], b[1], b[2]);
      if n < 0x800 || 0xD800 <= n < 0xE000 then None else Some((n as char, 3))
    else if 0xF0 <= b[0] < 0xF5 && |b| >= 4 && IsTail(b[1]) && IsTail(b[2]) && IsTail(b[3]) then
      var n := FourBytes(b[0], b[1], b[2], b[3]);
      if n < 0x10000 || n >= 0x110000 then None else Some((n as char, 4))
    else None
  }

  predicate IsTail(b: Byte) {
    0x80 <= b < 0xC0
  }

  function TwoBytes(x: Byte, y: Byte): (n: int)
    ensures 0xC2 <= x < 0xE0 && IsTail(y) ==> 0x80 <= n < 0x800
  {
    (x - 0xC0) * 0x40 + (y - 0x80)
  }

  function ThreeBytes(x: Byte, y: Byte, z: Byte): (n: int)
    ensures 0xE0 <= x < 0xF0 && IsTail(y) && IsTail(z) ==> 0 <= n < 0x10000
  {
    (x - 0xE0) * 0x1000 + (y - 0x80) * 0x40 + (z - 0x80)
  }

  function FourBytes(x: Byte, y: Byte, z: Byte, w: Byte): int {
    (x - 0xF0) * 0x40000 + (y - 0x80) * 0x1000 + (z - 0x80) * 0x40 + (w - 0x80)
  }

  /** UTF-8 decoding; None where the source puts replacement characters for malformed bytes. */
  function DecodeUtf8(b: seq<Byte>): Option<string>
    decreases |b|
  {
    if b == [] then Some("")
    else
      match DecodeFirst(b)
      case None => None
      case Some((c, n)) =>
        match DecodeUtf8(b[n..])
        case None => None
        case Some(rest) => Some([c] + rest)
  }

  /** Base64url to string in Buffer mode, on texts of the alphabet; both alphabets are understood. */
  function Base64urlToStringBuffer(base64url: string): Option<string> {
    match Values(Standard(base64url))
    case None => None
    case Some(sextets) => DecodeUtf8(Bytes(sextets))
  }

  // ---------- decoding inverts encoding ----------

  lemma JoinsBack(x: Byte, y: Byte, z: Byte)
    ensures Join(x / 4, 4, x % 4 * 16 + y / 16) == x
    ensures Join((x % 4 * 16 + y / 16) % 16, 16, y % 16 * 4 + z / 64) == y
    ensures Join((y % 16 * 4 + z / 64) % 4, 64, z % 64) == z
  {
  }

  lemma BytesOfGroup(s: seq<Sextet>, rest: seq<Sextet>)
    requires |s| == 4
    ensures Bytes(s + rest) == [Join(s[0], 4, s[1]), Join(s[1] % 16, 16, s[2]), Join(s[2] % 4, 64, s[3])] + Bytes(rest)
  {
    hide Join;
    assert (s + rest)[4..] == rest;
    if rest == [] { assert s + rest == s; }
  }

  lemma FirstGroup(b: seq<Byte>) returns (group: seq<Sextet>)
    requires |b| >= 3
    ensures |group| == 4 && Sextets(b) == group + Sextets(b[3..])
    ensures [Join(group[0], 4, group[1]), Join(group[1] % 16, 16, group[2]), Join(group[2] % 4, 64, group[3])] == [b[0], b[1], b[2]]
  {
    hide Join;
    JoinsBack(b[0], b[1], b[2]);
    group := [b[0] / 4, b[0] % 4 * 16 + b[1] / 16, b[1] % 16 * 4 + b[2] / 64, b[2] % 64];
  }

  lemma {:induction false} BytesOfSextets(b: seq<Byte>)
    ensures Bytes(Sextets(b)) == b
    ensures |Sextets(b)| % 4 != 1
  {
    hide Bytes, Sextets, Join;
    if |b| < 3 {
      BytesOfLastGroup(b);
    } else {
      var rest := b[3..];
      BytesOfSextets(rest);
      var group := FirstGroup(b);
      BytesOfGroup(group, Sextets(rest));
      assert b == [b[0], b[1], b[2]] + rest;
    }
  }

  lemma BytesOfLastGroup(b: seq<Byte>)
    requires |b| < 3
    ensures Bytes(Sextets(b)) == b && |Sextets(b)| % 4 != 1
  {
    hide Join;
    if |b| == 2 {
      JoinsBack(b[0], b[1], 0);
    } else if |b| == 1 {
      JoinsBack(b[0], 0, 0);
    }
  }

  lemma CharValue(n: Sextet)
    ensures Base64Value(Base64Char(n)) == Some(n)
  {
  }

  lemma {:induction false} ValuesOfChars(s: seq<Sextet>)
    ensures Values(Chars(s)) == Some(s)
  {
    if s != [] {
      assert Chars(s)[1..] == Chars(s[1..]);
      ValuesOfChars(s[1..]);
      CharValue(s[0]);
      assert [s[0]] + s[1..] == s;
    }
  }

  lemma {:induction false} StripPadding(s: string, n: nat)
    requires s == "" || s[|s| - 1] != '='
    ensures StripEquals(s + Pad(n)) == s
    ensures |Pad(n)| == n
  {
    if n == 0 {
      assert s + Pad(n) == s;
    } else {
      StripPadding(s, n - 1);
      PadLast(s, n);
      StripOne(s + Pad(n - 1));
    }
  }

  lemma PadLast(s: string, n: nat)
    requires n > 0
    ensures s + Pad(n) == s + Pad(n - 1) + "=" && |Pad(n)| == |Pad(n - 1)| + 1
  {
    PadEnd(n - 1);
    assert Pad(n) == Pad(n - 1) + "=";
    hide Pad;
    assert s + (Pad(n - 1) + "=") == s + Pad(n - 1) + "=";
  }

  lemma StripOne(s: string)
    ensures StripEquals(s + "=") == StripEquals(s)
  {
    assert (s + "=")[..|s|] == s;
  }

  lemma {:induction false} PadEnd(n: nat)
    ensures "=" + Pad(n) == Pad(n) + "="
  {
    if n > 0 { PadEnd(n - 1); }
  }

  /** Standard base64 of any bytes decodes to those bytes; the padding makes groups of four. */
  lemma Base64RoundTrip(b: seq<Byte>)
    ensures FromBase64(Base64(b)) == Some(b)
    ensures |Base64(b)| % 4 == 0
  {
    hide Sextets, Bytes, Values, StripEquals, Pad, Base64Char;
    var sextets := Sextets(b);
    var chars := Chars(sextets);
    BytesOfSextets(b);
    ValuesOfChars(sextets);
    NoEquals(sextets);
    StripPadding(chars, PaddingFor(|chars|));
  }

  lemma NoEquals(s: seq<Sextet>)
    ensures forall i :: 0 <= i < |s| ==> Chars(s)[i] != '=' && Chars(s)[i] != '-' && Chars(s)[i] != '_'
  {
  }

  /** Standard characters made URL-safe, as the codec replaces them. */
  function UrlSafe(s: string): (r: string)
    ensures |r| == |s|
  {
    ReplaceAll(ReplaceAll(s, '+', '-'), '/', '_')
  }

  function Standard(s: string): (r: string)
    ensures |r| == |s|
  {
    ReplaceAll(ReplaceAll(s, '-', '+'), '_', '/')
  }

  lemma ReplaceConcat(a: string, b: string)
    ensures UrlSafe(a + b) == UrlSafe(a) + UrlSafe(b)
  {
  }

  lemma {:induction false} UrlSafePad(n: nat)
    ensures UrlSafe(Pad(n)) == Pad(n)
  {
    if n > 0 {
      UrlSafePad(n - 1);
      ReplaceConcat("=", Pad(n - 1));
    }
  }

  /** The encoder's output: the unpadded standard characters with the two replacements. */
  lemma EncodedForm(value: string)
    requires IsLatin1(value)
    ensures StringToBase64url(value) == Some(UrlSafe(Chars(Sextets(Latin1Bytes(value)))))
  {
    var sextets := Sextets(Latin1Bytes(value));
    var chars := Chars(sextets);
    var n := PaddingFor(|chars|);
    ReplaceConcat(chars, Pad(n));
    UrlSafePad(n);
    NoEquals(sextets);
    StripPadding(UrlSafe(chars), n);
  }

  /** The output uses only the URL-safe alphabet, and replacing back restores the standard characters. */
  lemma UrlSafeAlphabet(s: seq<Sextet>)
    ensures forall i :: 0 <= i < |s| ==> IsUrlSafe(UrlSafe(Chars(s))[i])
    ensures Standard(UrlSafe(Chars(s))) == Chars(s)
  {
    NoEquals(s);
    forall i | 0 <= i < |s| ensures Standard(UrlSafe(Chars(s)))[i] == Chars(s)[i] {
      var c := Chars(s)[i];
      assert UrlSafe(Chars(s))[i] == if c == '+' then '-' else if c == '/' then '_' else c;
    }
  }

  /**
   * In atob/btoa mode exactly the Latin-1 strings are encoded, into URL-safe characters without padding, and
   * decoding gives them back; the padding added for decoding is exactly what the encoder stripped.
   */
  lemma CodecRoundTrip(value: string)
    ensures StringToBase64url(value).Some? <==> IsLatin1(value)
    ensures IsLatin1(value) ==>
              var encoded := StringToBase64url(value).value;
              && (forall i :: 0 <= i < |encoded| ==> IsUrlSafe(encoded[i]))
              && Base64urlToString(encoded) == Some(value)
              && Btoa(value) == Some(Standard(encoded) + Pad(PaddingFor(|encoded|)))
  {
    if IsLatin1(value) {
      var b := Latin1Bytes(value);
      EncodedForm(value);
      UrlSafeAlphabet(Sextets(b));
      Base64RoundTrip(b);
      assert Latin1Text(b) == value;
    }
  }

  // ---------- the two modes ----------

  lemma {:induction false} Utf8OfAscii(s: string)
    requires IsAscii(s)
    ensures Utf8(s) == Latin1Bytes(s)
  {
    if s != "" {
      Utf8OfAscii(s[1..]);
      assert Latin1Bytes(s) == [s[0] as int] + Latin1Bytes(s[1..]);
    }
  }

  lemma Utf8CharLength(c: char)
    ensures |Utf8Char(c)| == 1 <==> c as int < 128
  {
  }

  lemma {:induction false} Utf8IsLonger(s: string)
    ensures |Utf8(s)| >= |s|
    ensures |Utf8(s)| == |s| ==> IsAscii(s)
  {
    hide Utf8Char;
    if s != "" {
      Utf8CharLength(s[0]);
      Utf8IsLonger(s[1..]);
      if |Utf8(s)| == |s| { AsciiCons(s); }
    }
  }

  lemma AsciiCons(s: string)
    requires s != "" && s[0] as int < 128 && IsAscii(s[1..])
    ensures IsAscii(s)
  {
    forall i | 0 <= i < |s| ensures s[i] as int < 128 {
      if i > 0 { assert s[i] == s[1..][i - 1]; }
    }
  }

  lemma EncodingIsInjective(a: seq<Byte>, b: seq<Byte>)
    requires UrlSafe(Chars(Sextets(a))) == UrlSafe(Chars(Sextets(b)))
    ensures a == b
  {
    UrlSafeAlphabet(Sextets(a));
    UrlSafeAlphabet(Sextets(b));
    ValuesOfChars(Sextets(a));
    ValuesOfChars(Sextets(b));
    BytesOfSextets(a);
    BytesOfSextets(b);
  }

  /** The two modes encode a Latin-1 string alike exactly when it is ASCII. */
  lemma ModesAgreeOnAsciiOnly(value: string)
    requires IsLatin1(value)
    ensures StringToBase64url(value) == Some(StringToBase64urlBuffer(value)) <==> IsAscii(value)
  {
    EncodedForm(value);
    if IsAscii(value) { Utf8OfAscii(value); }
    if StringToBase64url(value) == Some(StringToBase64urlBuffer(value)) {
      EncodingIsInjective(Latin1Bytes(value), Utf8(value));
      Utf8IsLonger(value);
    }
  }

  // ---------- Buffer mode ----------

  lemma Two(n: int, x: Byte, y: Byte)
    requires 0xC2 <= x < 0xE0 && IsTail(y)
    ensures n == TwoBytes(x, y) <==> n / 0x40 == x - 0xC0 && n % 0x40 == y - 0x80
  {
  }

  lemma Three(n: int, x: Byte, y: Byte, z: Byte)
    requires 0xE0 <= x < 0xF0 && IsTail(y) && IsTail(z)
    ensures n == ThreeBytes(x, y, z) <==> n / 0x1000 == x - 0xE0 && n / 0x40 % 0x40 == y - 0x80 && n % 0x40 == z - 0x80
  {
    var high := (x - 0xE0) * 0x40 + (y - 0x80);
    Digit(n, high, z - 0x80);
    Digit(n / 0x40, x - 0xE0, y - 0x80);
    DivideTwice(n);
  }

  lemma Four(n: int, x: Byte, y: Byte, z: Byte, w: Byte)
    requires 0xF0 <= x && IsTail(y) && IsTail(z) && IsTail(w)
    ensures n == FourBytes(x, y, z, w) <==>
            n / 0x40000 == x - 0xF0 && n / 0x1000 % 0x40 == y - 0x80 && n / 0x40 % 0x40 == z - 0x80 && n % 0x40 == w - 0x80
  {
    var higher := (x - 0xF0) * 0x40 + (y - 0x80);
    var high := higher * 0x40 + (z - 0x80);
    Digit(n, high, w - 0x80);
    Digit(n / 0x40, higher, z - 0x80);
    Digit(n / 0x1000, x - 0xF0, y - 0x80);
    DivideTwice(n);
  }

  /** Quotient and remainder by 64 take a number apart uniquely. */
  lemma Digit(n: int, q: int, r: int)
    requires 0 <= r < 0x40
    ensures n == q * 0x40 + r <==> n / 0x40 == q && n % 0x40 == r
  {
  }

  lemma DivideTwice(n: int)
    ensures n / 0x40 / 0x40 == n / 0x1000 && n / 0x1000 / 0x40 == n / 0x40000
  {
  }

  lemma FirstOfUtf8(c: char, rest: seq<Byte>)
    ensures DecodeFirst(Utf8Char(c) + rest) == Some((c, |Utf8Char(c)|))
  {
    hide TwoBytes, ThreeBytes, FourBytes;
    var n := c as int;
    var b := Utf8Char(c) + rest;
    if n < 0x80 {
    } else if n < 0x800 {
      Two(n, b[0], b[1]);
    } else if n < 0x10000 {
      Three(n, b[0], b[1], b[2]);
    } else {
      Four(n, b[0], b[1], b[2], b[3]);
    }
  }

  /** Only the canonical bytes of a character decode to it. */
  lemma DecodedFirst(b: seq<Byte>)
    requires b != [] && DecodeFirst(b).Some?
    ensures var (c, n) := DecodeFirst(b).value; 0 < n <= |b| && b[..n] == Utf8Char(c)
  {
    hide TwoBytes, ThreeBytes, FourBytes;
    var c := DecodeFirst(b).value.0 as int;
    if b[0] < 0x80 {
    } else if b[0] < 0xE0 {
      Two(c, b[0], b[1]);
    } else if b[0] < 0xF0 {
      Three(c, b[0], b[1], b[2]);
    } else {
      Four(c, b[0], b[1], b[2], b[3]);
    }
  }

  /** Bytes decode to a string exactly when they are its UTF-8 encoding. */
  lemma {:induction false} Utf8DecodesExactly(b: seq<Byte>, s: string)
    ensures DecodeUtf8(b) == Some(s) <==> b == Utf8(s)
    decreases |b|
  {
    hide DecodeFirst, Utf8Char;
    if s != "" { FirstOfUtf8(s[0], Utf8(s[1..])); }
    if b != [] && s != "" && DecodeFirst(b).Some? && DecodeFirst(b).value.0 == s[0] {
      var (c, n) := DecodeFirst(b).value;
      DecodedFirst(b);
      Utf8DecodesExactly(b[n..], s[1..]);
      assert b == Utf8Char(c) + b[n..];
      assert [c] + s[1..] == s;
      SamePrefix(Utf8Char(c), b[n..], Utf8(s[1..]));
    }
  }

  lemma SamePrefix(a: seq<Byte>, b: seq<Byte>, d: seq<Byte>)
    ensures a + b == a + d <==> b == d
  {
    assert (a + b)[|a|..] == b && (a + d)[|a|..] == d;
  }

  lemma BufferDecodes(b: seq<Byte>)
    ensures Base64urlToStringBuffer(UrlSafe(Chars(Sextets(b)))) == DecodeUtf8(b)
  {
    UrlSafeAlphabet(Sextets(b));
    ValuesOfChars(Sextets(b));
    BytesOfSextets(b);
  }

  /** In Buffer mode every string is decoded from its encoding, which uses the URL-safe alphabet. */
  lemma BufferRoundTrip(value: string)
    ensures Base64urlToStringBuffer(StringToBase64urlBuffer(value)) == Some(value)
    ensures forall i :: 0 <= i < |StringToBase64urlBuffer(value)| ==> IsUrlSafe(StringToBase64urlBuffer(value)[i])
  {
    hide DecodeUtf8, Utf8;
    BufferDecodes(Utf8(value));
    UrlSafeAlphabet(Sextets(Utf8(value)));
    Utf8DecodesExactly(Utf8(value), value);
  }

  /** What one mode encodes the other decodes exactly for ASCII strings, in both directions. */
  lemma CrossModeIsAsciiOnly(value: string)
    ensures Base64urlToString(StringToBase64urlBuffer(value)) == Some(value) <==> IsAscii(value)
    ensures IsLatin1(value) ==>
              (Base64urlToStringBuffer(StringToBase64url(value).value) == Some(value) <==> IsAscii(value))
  {
    hide Base64urlToString, Base64urlToStringBuffer, Utf8, DecodeUtf8, Sextets;
    var b := Utf8(value);
    AtobDecodes(b);
    Utf8IsLonger(value);
    if IsAscii(value) { Utf8OfAscii(value); }
    if Latin1Text(b) == value { assert |b| == |value|; }
    if IsAscii(value) { assert Latin1Text(Latin1Bytes(value)) == value; }
    if IsLatin1(value) {
      EncodedForm(value);
      BufferDecodes(Latin1Bytes(value));
      Utf8DecodesExactly(Latin1Bytes(value), value);
    }
  }

  lemma AtobDecodes(b: seq<Byte>)
    ensures Base64urlToString(UrlSafe(Chars(Sextets(b)))) == Some(Latin1Text(b))
  {
    UrlSafeAlphabet(Sextets(b));
    Base64RoundTrip(b);
  }

  /** Test vectors of section 10 of RFC 4648, without padding. */
  lemma Rfc4648Vectors()
    ensures StringToBase64url("f") == Some("Zg")
    ensures StringToBase64url("fo") == Some("Zm8")
    ensures StringToBase64url("foo") == Some("Zm9v")
    ensures StringToBase64url("\U{FB}\U{FF}") == Some("-_8")
  {
    hide StringToBase64url;
    UrlVector();
    hide UrlSafe;
    Encodes("f", [102], [25, 32], "Zg");
    Encodes("fo", [102, 111], [25, 38, 60], "Zm8");
    assert Sextets([102, 111, 111]) == [25, 38, 61, 47] + Sextets([]);
    Encodes("foo", [102, 111, 111], [25, 38, 61, 47], "Zm9v");
  }

  /** The alphabet of section 4 of RFC 4648: A to Z, a to z and 0 to 9 in runs, then two signs; each char has its value. */
  lemma AlphabetIs(n: Sextet)
    ensures Base64Char(0) == 'A' && Base64Char(25) == 'Z' && Base64Char(26) == 'a' && Base64Char(51) == 'z'
    ensures Base64Char(52) == '0' && Base64Char(61) == '9' && Base64Char(62) == '+' && Base64Char(63) == '/'
    ensures n !in {25, 51, 61, 62, 63} ==> Base64Char(n + 1) as int == Base64Char(n) as int + 1
    ensures Base64Value(Base64Char(n)) == Some(n)
  {
    CharValue(n);
  }

  /** The last two characters of the alphabet become the URL-safe ones of section 5. */
  lemma UrlVector()
    ensures StringToBase64url("\U{FB}\U{FF}") == Some("-_8")
  {
    var value, sextets := "\U{FB}\U{FF}", [62, 63, 60];
    assert Latin1Bytes(value) == [251, 255];
    assert Sextets([251, 255]) == sextets;
    assert Chars(sextets) == "+/8";
    EncodedForm(value);
    assert UrlSafe("+/8") == "-_8";
  }

  /** UTF-8 of one, two, three and four bytes. */
  lemma Utf8Vectors()
    ensures Utf8("A") == [0x41] && Utf8("\U{E9}") == [0xC3, 0xA9]
    ensures Utf8("\U{20AC}") == [0xE2, 0x82, 0xAC] && Utf8("\U{1F600}") == [0xF0, 0x9F, 0x98, 0x80]
  {
    Utf8Single('A');
    Utf8Single('\U{E9}');
    Utf8Single('\U{20AC}');
    Utf8Single('\U{1F600}');
  }

  lemma Utf8Single(c: char)
    ensures Utf8([c]) == Utf8Char(c)
  {
    hide Utf8Char;
    assert [c][1..] == [];
  }

  lemma Encodes(value: string, b: seq<Byte>, sextets: seq<Sextet>, text: string)
    requires IsLatin1(value) && Latin1Bytes(value) == b && Sextets(b) == sextets
    requires Chars(sextets) == text && forall c :: c in text ==> c != '+' && c != '/'
    ensures StringToBase64url(value) == Some(text)
  {
    EncodedForm(value);
    forall i | 0 <= i < |text| ensures UrlSafe(text)[i] == text[i] { assert text[i] in text; }
    assert UrlSafe(text) == text;
  }
}
