/**
 * The `eudi-pres://` form of a presentation request: base64url of the UTF-8 of its JSON text
 * (RFC 4648, sections 4 and 5). The JSON text itself is not part of this model.
 */
module Presentation {
  import opened Evm
  import opened JsText

  const PLUS: CodeUnit := 43
  const SLASH: CodeUnit := 47
  const MINUS: CodeUnit := 45
  const UNDERSCORE: CodeUnit := 95

  // ---------------------------------------------------------------------------------------
  // btoa
  // ---------------------------------------------------------------------------------------

  /** The base64 alphabet. */
  function Digit(v: nat): (c: CodeUnit)
    requires v < 64
    ensures IsDigit(c)
  {
    if v < 26 then 65 + v
    else if v < 52 then 71 + v
    else if v < 62 then v - 4
    else if v == 62 then PLUS
    else SLASH
  }

  predicate IsDigit(c: CodeUnit) {
    IsAlphanumeric(c) || c == PLUS || c == SLASH
  }

  function DigitValue(c: CodeUnit): (v: nat)
    requires IsDigit(c)
    ensures v < 64
  {
    if 65 <= c <= 90 then c - 65
    else if 97 <= c <= 122 then c - 71
    else if 48 <= c <= 57 then c + 4
    else if c == PLUS then 62
    else 63
  }

  lemma DigitRoundTrip(v: nat)
    requires v < 64
    ensures DigitValue(Digit(v)) == v
  {
  }

  /** The digits of one to three bytes, six bits each, without padding. */
  function GroupDigits(group: seq<byte>): (s: JsString)
    requires 1 <= |group| <= 3
    ensures |s| == |group| + 1
  {
    var b0 := group[0];
    if |group| == 1 then [Digit(b0 / 4), Digit(b0 % 4 * 16)]
    else
      var b1 := group[1];
      if |group| == 2 then [Digit(b0 / 4), Digit(b0 % 4 * 16 + b1 / 16), Digit(b1 % 16 * 4)]
      else
        var b2 := group[2];
        [Digit(b0 / 4), Digit(b0 % 4 * 16 + b1 / 16), Digit(b1 % 16 * 4 + b2 / 64), Digit(b2 % 64)]
  }

  function Pad(n: nat): (s: JsString)
    ensures |s| == n
  {
    seq(n, _ => EQUALS)
  }

  function EncodeBytes(bytes: seq<byte>): JsString {
    if bytes == [] then []
    else if |bytes| < 3 then GroupDigits(bytes) + Pad(3 - |bytes|)
    else GroupDigits(bytes[..3]) + EncodeBytes(bytes[3..])
  }

  /** `btoa` throws on a unit that is not a byte. */
  function Btoa(s: JsString): Option<JsString> {
    if forall i | 0 <= i < |s| :: s[i] < 256 then Some(EncodeBytes(s)) else None
  }

  // ---------------------------------------------------------------------------------------
  // atob
  // ---------------------------------------------------------------------------------------

  predicate IsWhitespace(c: CodeUnit) {
    c in {9, 10, 12, 13, 32}
  }

  function StripWhitespace(s: JsString): JsString {
    if s == [] then []
    else if IsWhitespace(s[0]) then StripWhitespace(s[1..])
    else [s[0]] + StripWhitespace(s[1..])
  }

  /** A trailing "==" or "=" is dropped, but only from a string of whole groups. */
  function StripPadding(s: JsString): JsString {
    if |s| % 4 != 0 || s == [] || s[|s| - 1] != EQUALS then s
    else if s[|s| - 2] == EQUALS then s[..|s| - 2]
    else s[..|s| - 1]
  }

  /** The bytes of two to four digits; the bits left over are discarded. */
  function GroupBytes(s: JsString): (bytes: seq<byte>)
    requires 2 <= |s| <= 4 && forall i | 0 <= i < |s| :: IsDigit(s[i])
    ensures |bytes| == |s| - 1
  {
    var v0, v1 := DigitValue(s[0]), DigitValue(s[1]);
    if |s| == 2 then [v0 * 4 + v1 / 16]
    else
      var v2 := DigitValue(s[2]);
      if |s| == 3 then [v0 * 4 + v1 / 16] + [v1 % 16 * 16 + v2 / 4]
      else
        var v3 := DigitValue(s[3]);
        [v0 * 4 + v1 / 16] + [v1 % 16 * 16 + v2 / 4] + [v2 % 4 * 64 + v3]
  }

  function DecodeDigits(s: JsString): seq<byte>
    requires |s| % 4 != 1 && forall i | 0 <= i < |s| :: IsDigit(s[i])
  {
    if s == [] then []
    else if |s| <= 4 then GroupBytes(s)
    else GroupBytes(s[..4]) + DecodeDigits(s[4..])
  }

  function Atob(text: JsString): Option<JsString> {
    var s := StripPadding(StripWhitespace(text));
    if |s| % 4 == 1 then None
    else if !forall i | 0 <= i < |s| :: IsDigit(s[i]) then None
    else Some(DecodeDigits(s))
  }

  // ---------------------------------------------------------------------------------------
  // The codec
  // ---------------------------------------------------------------------------------------

  /** `s.replace(/x/g, 'y')` for single characters. */
  function ReplaceAll(s: JsString, x: CodeUnit, y: CodeUnit): (r: JsString)
    ensures |r| == |s|
    ensures forall i | 0 <= i < |s| :: r[i] == if s[i] == x then y else s[i]
  {
    seq(|s|, i requires 0 <= i < |s| => if s[i] == x then y else s[i])
  }

  /** `s.replace(/=+$/, '')`. */
  function StripEquals(s: JsString): JsString {
    if s == [] || s[|s| - 1] != EQUALS then s else StripEquals(s[..|s| - 1])
  }

  function ToBase64url(str: JsString): Option<JsString> {
    match EncodeUriComponent(str)
    case None => None
    case Some(escaped) =>
      match Btoa(Unescape(escaped))
      case None => None
      case Some(base64) => Some(StripEquals(ReplaceAll(ReplaceAll(base64, PLUS, MINUS), SLASH, UNDERSCORE)))
  }

  function PadLength(length: nat): nat {
    (4 - length % 4) % 4
  }

  function FromBase64url(b64: JsString): Option<JsString> {
    var padded := ReplaceAll(ReplaceAll(b64, MINUS, PLUS), UNDERSCORE, SLASH);
    match Atob(padded + Pad(PadLength(|padded|)))
    case None => None
    case Some(bytes) => DecodeUriComponent(Escape(bytes))
  }

  /** `eudi-pres://`. */
  const SCHEME: JsString := [101, 117, 100, 105, 45, 112, 114, 101, 115, 58, 47, 47]

  function EncodePresentationRequest(json: JsString): Option<JsString> {
    match ToBase64url(json)
    case None => None
    case Some(b64) => Some(SCHEME + b64)
  }

  /** `s.replace(pattern, '')`: only the first occurrence goes, wherever it is. */
  function RemoveFirst(s: JsString, pattern: JsString): JsString {
    if |s| < |pattern| then s
    else if s[..|pattern|] == pattern then s[|pattern|..]
    else if s == [] then []
    else [s[0]] + RemoveFirst(s[1..], pattern)
  }

  function DecodePresentationRequest(encoded: JsString): Option<JsString> {
    FromBase64url(RemoveFirst(encoded, SCHEME))
  }

  // ---------------------------------------------------------------------------------------
  // Base64 of bytes
  // ---------------------------------------------------------------------------------------

  /** The digits of a byte string, without padding. */
  function Digits(bytes: seq<byte>): (s: JsString) {
    if bytes == [] then []
    else if |bytes| < 3 then GroupDigits(bytes)
    else GroupDigits(bytes[..3]) + Digits(bytes[3..])
  }

  /** Four digits for three bytes, a partial group counting for what it needs: ceil(4n / 3) in all. */
  lemma {:induction false} DigitsLength(bytes: seq<byte>)
    ensures |Digits(bytes)| == (4 * |bytes| + 2) / 3
    decreases |bytes|
  {
    if |bytes| >= 3 {
      DigitsLength(bytes[3..]);
    }
  }

  lemma {:induction false} DigitsAreDigits(bytes: seq<byte>)
    ensures forall i | 0 <= i < |Digits(bytes)| :: IsDigit(Digits(bytes)[i])
    decreases |bytes|
  {
    if |bytes| >= 3 {
      DigitsAreDigits(bytes[3..]);
    }
  }

  lemma WholeGroup(length: nat)
    ensures PadLength(length + 4) == PadLength(length) && (length + 4) % 4 == length % 4
  {
  }

  /** Exactly one padding of fewer than four characters completes a length to whole groups: the one `fromBase64url` adds. */
  lemma PaddingIsUnique(length: nat, padding: nat)
    requires padding < 4
    ensures (length + padding) % 4 == 0 <==> padding == PadLength(length)
  {
  }

  /** Digits never leave a group of one, so their padding is at most two. */
  lemma {:induction false} DigitsPadding(bytes: seq<byte>)
    ensures |Digits(bytes)| % 4 != 1 && PadLength(|Digits(bytes)|) <= 2
    ensures (|Digits(bytes)| + PadLength(|Digits(bytes)|)) % 4 == 0
    decreases |bytes|
  {
    PaddingIsUnique(|Digits(bytes)|, PadLength(|Digits(bytes)|));
    if |bytes| >= 3 {
      DigitsPadding(bytes[3..]);
      WholeGroup(|Digits(bytes[3..])|);
    }
  }

  /** `btoa` pads the digits to whole groups. */
  lemma {:induction false} EncodeIsPaddedDigits(bytes: seq<byte>)
    ensures EncodeBytes(bytes) == Digits(bytes) + Pad(PadLength(|Digits(bytes)|))
    decreases |bytes|
  {
    if |bytes| >= 3 {
      var rest := Digits(bytes[3..]);
      EncodeIsPaddedDigits(bytes[3..]);
      WholeGroup(|rest|);
      assert GroupDigits(bytes[..3]) + (rest + Pad(PadLength(|rest|))) == Digits(bytes) + Pad(PadLength(|rest|));
    } else if bytes == [] {
      assert Pad(0) == [];
    }
  }

  lemma EncodeIsPadded(bytes: seq<byte>) returns (n: nat)
    ensures EncodeBytes(bytes) == Digits(bytes) + Pad(n)
  {
    EncodeIsPaddedDigits(bytes);
    n := PadLength(|Digits(bytes)|);
  }

  /** Splitting bytes into sextets and joining them again. */
  lemma SextetsRejoin(b0: byte, b1: byte, b2: byte)
    ensures b0 / 4 * 4 + (b0 % 4 * 16 + b1 / 16) / 16 == b0
    ensures (b0 % 4 * 16 + b1 / 16) % 16 * 16 + (b1 % 16 * 4 + b2 / 64) / 4 == b1
    ensures (b1 % 16 * 4 + b2 / 64) % 4 * 64 + b2 % 64 == b2
  {
  }

  /** The bytes of digits of known values. */
  lemma GroupBytesOf(s: JsString, v0: nat, v1: nat, v2: nat, v3: nat)
    requires 2 <= |s| <= 4 && v0 < 64 && v1 < 64 && v2 < 64 && v3 < 64
    requires s[0] == Digit(v0) && s[1] == Digit(v1)
    requires (|s| > 2 ==> s[2] == Digit(v2)) && (|s| > 3 ==> s[3] == Digit(v3))
    ensures forall i | 0 <= i < |s| :: IsDigit(s[i])
    ensures GroupBytes(s)[0] == v0 * 4 + v1 / 16
    ensures |s| > 2 ==> GroupBytes(s)[1] == v1 % 16 * 16 + v2 / 4
    ensures |s| > 3 ==> GroupBytes(s)[2] == v2 % 4 * 64 + v3
  {
    DigitRoundTrip(v0);
    DigitRoundTrip(v1);
    DigitRoundTrip(v2);
    DigitRoundTrip(v3);
  }

  lemma GroupDigitsOf(group: seq<byte>, b0: byte, b1: byte, b2: byte)
    requires 1 <= |group| <= 3 && b0 == group[0]
    requires b1 == (if |group| > 1 then group[1] else 0) && b2 == (if |group| > 2 then group[2] else 0)
    ensures var s := GroupDigits(group);
            && s[0] == Digit(b0 / 4)
            && s[1] == Digit(b0 % 4 * 16 + b1 / 16)
            && (|s| > 2 ==> s[2] == Digit(b1 % 16 * 4 + b2 / 64))
            && (|s| > 3 ==> s[3] == Digit(b2 % 64))
  {
  }

  lemma GroupRoundTrip(group: seq<byte>)
    requires 1 <= |group| <= 3
    ensures GroupBytes(GroupDigits(group)) == group
  {
    var b0: byte := group[0];
    var b1: byte := if |group| > 1 then group[1] else 0;
    var b2: byte := if |group| > 2 then group[2] else 0;
    GroupDigitsOf(group, b0, b1, b2);
    SextetsRejoin(b0, b1, b2);
    GroupBytesOf(GroupDigits(group), b0 / 4, b0 % 4 * 16 + b1 / 16, b1 % 16 * 4 + b2 / 64, b2 % 64);
    SameGroup(GroupBytes(GroupDigits(group)), group, b0, b1, b2);
  }

  lemma SameGroup(s: seq<byte>, t: seq<byte>, b0: byte, b1: byte, b2: byte)
    requires 1 <= |s| == |t| <= 3 && s[0] == t[0] == b0
    requires (|s| > 1 ==> s[1] == t[1] == b1) && (|s| > 2 ==> s[2] == t[2] == b2)
    ensures s == t
  {
  }

  lemma DecodeDigitsStep(group: JsString, rest: JsString)
    requires |group| == 4 && |rest| % 4 != 1
    requires forall i | 0 <= i < 4 :: IsDigit(group[i])
    requires forall i | 0 <= i < |rest| :: IsDigit(rest[i])
    ensures DecodeDigits(group + rest) == GroupBytes(group) + DecodeDigits(rest)
  {
    var s := group + rest;
    assert s[..4] == group && s[4..] == rest;
    if rest == [] { assert s == group; }
  }

  lemma {:induction false} DigitsRoundTrip(bytes: seq<byte>)
    ensures |Digits(bytes)| % 4 != 1 && forall i | 0 <= i < |Digits(bytes)| :: IsDigit(Digits(bytes)[i])
    ensures DecodeDigits(Digits(bytes)) == bytes
    decreases |bytes|
  {
    DigitsPadding(bytes);
    DigitsAreDigits(bytes);
    if |bytes| >= 3 {
      GroupRoundTrip(bytes[..3]);
      DigitsRoundTrip(bytes[3..]);
      DecodeDigitsStep(GroupDigits(bytes[..3]), Digits(bytes[3..]));
      assert bytes == bytes[..3] + bytes[3..];
    } else if bytes != [] {
      GroupRoundTrip(bytes);
    }
  }

  lemma {:induction false} StripWhitespaceNone(s: JsString)
    requires forall i | 0 <= i < |s| :: !IsWhitespace(s[i])
    ensures StripWhitespace(s) == s
  {
    if s != [] { StripWhitespaceNone(s[1..]); }
  }

  lemma {:induction false} StripEqualsPad(s: JsString, n: nat)
    requires s != [] ==> s[|s| - 1] != EQUALS
    ensures StripEquals(s + Pad(n)) == s
  {
    if n > 0 {
      assert (s + Pad(n))[..|s| + n - 1] == s + Pad(n - 1);
      StripEqualsPad(s, n - 1);
    } else {
      assert s + Pad(0) == s;
    }
  }

  lemma StripPaddingPad(s: JsString, n: nat)
    requires n <= 2 && (|s| + n) % 4 == 0 && (s != [] ==> s[|s| - 1] != EQUALS)
    ensures StripPadding(s + Pad(n)) == s
  {
    var padded := s + Pad(n);
    assert padded[..|s|] == s;
    if n == 0 { assert padded == s; }
  }

  /** `s` is an unpadded base64 text of `bytes`, and some padding completes it. */
  predicate Encodes(s: JsString, bytes: seq<byte>) {
    && |s| % 4 != 1
    && (forall i | 0 <= i < |s| :: IsDigit(s[i]))
    && DecodeDigits(s) == bytes
    && PadLength(|s|) <= 2
    && (|s| + PadLength(|s|)) % 4 == 0
  }

  lemma DigitsEncode(bytes: seq<byte>)
    ensures Encodes(Digits(bytes), bytes)
  {
    DigitsRoundTrip(bytes);
    DigitsPadding(bytes);
  }

  /** Padding restored, `atob` gives back the bytes. */
  lemma AtobOfPadded(s: JsString, bytes: seq<byte>)
    requires Encodes(s, bytes)
    ensures Atob(s + Pad(PadLength(|s|))) == Some(bytes)
  {
    var n := PadLength(|s|);
    StripWhitespaceNone(s + Pad(n));
    StripPaddingPad(s, n);
  }

  // ---------------------------------------------------------------------------------------
  // Base64url of text
  // ---------------------------------------------------------------------------------------

  /** The URL-safe alphabet: letters, digits, `-` and `_`. */
  predicate IsUrlSafe(c: CodeUnit) {
    IsAlphanumeric(c) || c == MINUS || c == UNDERSCORE
  }

  function UrlDigits(bytes: seq<byte>): JsString {
    ReplaceAll(ReplaceAll(Digits(bytes), PLUS, MINUS), SLASH, UNDERSCORE)
  }

  /** Translating the padded digits and stripping the padding leaves the URL-safe digits. */
  lemma UrlDigitsArePlain(bytes: seq<byte>, n: nat)
    ensures StripEquals(ReplaceAll(ReplaceAll(Digits(bytes) + Pad(n), PLUS, MINUS), SLASH, UNDERSCORE)) == UrlDigits(bytes)
    ensures forall i | 0 <= i < |UrlDigits(bytes)| :: IsUrlSafe(UrlDigits(bytes)[i])
  {
    DigitsAreDigits(bytes);
    assert ReplaceAll(ReplaceAll(Digits(bytes) + Pad(n), PLUS, MINUS), SLASH, UNDERSCORE) == UrlDigits(bytes) + Pad(n);
    StripEqualsPad(UrlDigits(bytes), n);
  }

  /** `btoa` of bytes, translated and stripped of its padding. */
  lemma BtoaTranslated(bytes: seq<byte>)
    ensures Btoa(bytes) == Some(EncodeBytes(bytes))
    ensures StripEquals(ReplaceAll(ReplaceAll(EncodeBytes(bytes), PLUS, MINUS), SLASH, UNDERSCORE)) == UrlDigits(bytes)
  {
    var n := EncodeIsPadded(bytes);
    UrlDigitsArePlain(bytes, n);
  }

  /** What `toBase64url` computes: the URL-safe digits of the UTF-8 bytes; it throws on a lone surrogate only. */
  lemma ToBase64urlIsUrlDigits(str: JsString)
    ensures ToBase64url(str) == match Utf8Text(str) case None => None case Some(bytes) => Some(UrlDigits(bytes))
  {
    EncodeThenUnescape(str);
    if Utf8Text(str).Some? {
      BtoaTranslated(Utf8Text(str).value);
    }
  }

  lemma FromUrlDigits(bytes: seq<byte>)
    ensures FromBase64url(UrlDigits(bytes)) == DecodeUriComponent(Escape(bytes))
  {
    DigitsAreDigits(bytes);
    assert ReplaceAll(ReplaceAll(UrlDigits(bytes), MINUS, PLUS), UNDERSCORE, SLASH) == Digits(bytes);
    DigitsEncode(bytes);
    AtobOfPadded(Digits(bytes), bytes);
  }

  /**
   * The round trip, for every string of UTF-16 units: encoding succeeds iff the string has no lone
   * surrogate, and then decoding gives the string back.
   */
  lemma Base64urlRoundTrip(str: JsString)
    ensures ToBase64url(str).Some? <==> WellFormed(str)
    ensures WellFormed(str) ==> FromBase64url(ToBase64url(str).value) == Some(str)
  {
    ToBase64urlIsUrlDigits(str);
    Utf8TextIffWellFormed(str);
    if WellFormed(str) {
      FromUrlDigits(Utf8Text(str).value);
      EscapeThenDecode(str);
    }
  }

  /**
   * The encoded form: URL-safe characters only, ceil(4n / 3) of them for n bytes of UTF-8, never one
   * more than whole groups.
   */
  lemma Base64urlShape(str: JsString, b64: JsString)
    requires ToBase64url(str) == Some(b64)
    ensures Utf8Text(str).Some? && |b64| == (4 * |Utf8Text(str).value| + 2) / 3
    ensures forall i | 0 <= i < |b64| :: IsUrlSafe(b64[i])
    ensures |b64| % 4 != 1 && PadLength(|b64|) <= 2
  {
    ToBase64urlIsUrlDigits(str);
    var bytes := Utf8Text(str).value;
    DigitsLength(bytes);
    UrlDigitsArePlain(bytes, 0);
    DigitsPadding(bytes);
  }

  // ---------------------------------------------------------------------------------------
  // Character by character
  // ---------------------------------------------------------------------------------------

  /** Table 2 of RFC 4648, section 5. */
  const URL_SAFE_TABLE := "ABCDEFGHIJKLMNOPQRSTUVWXYZ" + "abcdefghijklmnopqrstuvwxyz" + "0123456789" + "-_"

  /** Bit `k` of a byte string, the most significant bit of the first byte being bit 0; zero past the end. */
  function Bit(bytes: seq<byte>, k: nat): (b: nat)
    ensures b < 2
  {
    ByteAt(bytes, k / 8) / Weight(k % 8) % 2
  }

  /** Byte `p`, zero past the end. */
  function ByteAt(bytes: seq<byte>, p: nat): byte {
    if p < |bytes| then bytes[p] else 0
  }

  /** What bit `q` of a byte counts for. */
  function Weight(q: nat): (w: nat)
    requires q < 8
    ensures w > 0
  {
    if q == 0 then 128 else if q == 1 then 64 else if q == 2 then 32 else if q == 3 then 16
    else if q == 4 then 8 else if q == 5 then 4 else if q == 6 then 2 else 1
  }

  /** The number made of bits 6i to 6i + 5. */
  function Sextet(bytes: seq<byte>, i: nat): (v: nat)
    ensures v < 64
  {
    32 * Bit(bytes, 6 * i) + 16 * Bit(bytes, 6 * i + 1) + 8 * Bit(bytes, 6 * i + 2)
    + 4 * Bit(bytes, 6 * i + 3) + 2 * Bit(bytes, 6 * i + 4) + Bit(bytes, 6 * i + 5)
  }

  lemma Halved(b: byte, d: nat)
    requires d in {1, 2, 4, 8, 16, 32, 64}
    ensures b / d == 2 * (b / (2 * d)) + b / d % 2
  {
    if d == 1 { assert b / 1 == b; }
  }

  lemma HighBits(b: byte)
    ensures b / 64 == 2 * (b / 128 % 2) + b / 64 % 2
    ensures b / 16 == 8 * (b / 128 % 2) + 4 * (b / 64 % 2) + 2 * (b / 32 % 2) + b / 16 % 2
    ensures b / 4 == 32 * (b / 128 % 2) + 16 * (b / 64 % 2) + 8 * (b / 32 % 2) + 4 * (b / 16 % 2) + 2 * (b / 8 % 2) + b / 4 % 2
  {
    Halved(b, 4);
    Halved(b, 8);
    Halved(b, 16);
    Halved(b, 32);
    Halved(b, 64);
  }

  lemma LowBits(b: byte)
    ensures b % 4 == 2 * (b / 2 % 2) + b / 1 % 2
    ensures b % 16 == 8 * (b / 8 % 2) + 4 * (b / 4 % 2) + 2 * (b / 2 % 2) + b / 1 % 2
    ensures b % 64 == 32 * (b / 32 % 2) + 16 * (b / 16 % 2) + 8 * (b / 8 % 2) + 4 * (b / 4 % 2) + 2 * (b / 2 % 2) + b / 1 % 2
  {
    Halved(b, 1);
    Halved(b, 2);
    Halved(b, 4);
    Halved(b, 8);
    Halved(b, 16);
    Halved(b, 32);
  }

  lemma BitOfByte(bytes: seq<byte>, p: nat, q: nat)
    requires q < 8
    ensures Bit(bytes, 8 * p + q) == ByteAt(bytes, p) / Weight(q) % 2
  {
    assert (8 * p + q) / 8 == p && (8 * p + q) % 8 == q;
  }

  lemma BitsOfByte(bytes: seq<byte>, p: nat)
    ensures var b := ByteAt(bytes, p);
            && Bit(bytes, 8 * p) == b / 128 % 2
            && Bit(bytes, 8 * p + 1) == b / 64 % 2
            && Bit(bytes, 8 * p + 2) == b / 32 % 2
            && Bit(bytes, 8 * p + 3) == b / 16 % 2
            && Bit(bytes, 8 * p + 4) == b / 8 % 2
            && Bit(bytes, 8 * p + 5) == b / 4 % 2
            && Bit(bytes, 8 * p + 6) == b / 2 % 2
            && Bit(bytes, 8 * p + 7) == b / 1 % 2
  {
    BitOfByte(bytes, p, 0);
    BitOfByte(bytes, p, 1);
    BitOfByte(bytes, p, 2);
    BitOfByte(bytes, p, 3);
    BitOfByte(bytes, p, 4);
    BitOfByte(bytes, p, 5);
    BitOfByte(bytes, p, 6);
    BitOfByte(bytes, p, 7);
  }

  lemma SextetIs(bytes: seq<byte>, i: nat, k: nat)
    requires k == 6 * i
    ensures Sextet(bytes, i) == 32 * Bit(bytes, k) + 16 * Bit(bytes, k + 1) + 8 * Bit(bytes, k + 2)
                                + 4 * Bit(bytes, k + 3) + 2 * Bit(bytes, k + 4) + Bit(bytes, k + 5)
  {
  }

  lemma FirstSextets(bytes: seq<byte>)
    ensures var b0, b1, b2 := ByteAt(bytes, 0), ByteAt(bytes, 1), ByteAt(bytes, 2);
            && Sextet(bytes, 0) == b0 / 4
            && Sextet(bytes, 1) == b0 % 4 * 16 + b1 / 16
            && Sextet(bytes, 2) == b1 % 16 * 4 + b2 / 64
            && Sextet(bytes, 3) == b2 % 64
  {
    SextetIs(bytes, 0, 0);
    SextetIs(bytes, 1, 6);
    SextetIs(bytes, 2, 12);
    SextetIs(bytes, 3, 18);
    BitsOfByte(bytes, 0);
    BitsOfByte(bytes, 1);
    BitsOfByte(bytes, 2);
    HighBits(ByteAt(bytes, 0));
    LowBits(ByteAt(bytes, 0));
    HighBits(ByteAt(bytes, 1));
    LowBits(ByteAt(bytes, 1));
    HighBits(ByteAt(bytes, 2));
    LowBits(ByteAt(bytes, 2));
  }

  lemma BitOfRest(bytes: seq<byte>, k: nat)
    requires |bytes| >= 3
    ensures Bit(bytes, k + 24) == Bit(bytes[3..], k)
  {
    assert (k + 24) / 8 == k / 8 + 3 && (k + 24) % 8 == k % 8;
  }

  lemma SextetOfRest(bytes: seq<byte>, i: nat)
    requires |bytes| >= 3
    ensures Sextet(bytes, i + 4) == Sextet(bytes[3..], i)
  {
    BitOfRest(bytes, 6 * i);
    BitOfRest(bytes, 6 * i + 1);
    BitOfRest(bytes, 6 * i + 2);
    BitOfRest(bytes, 6 * i + 3);
    BitOfRest(bytes, 6 * i + 4);
    BitOfRest(bytes, 6 * i + 5);
  }

  /** Digit `i` of a group whose sextets are as given. */
  lemma GroupDigitFrom(group: seq<byte>, i: nat, v: nat)
    requires 1 <= |group| <= 3 && i <= |group|
    requires var b0, b1, b2 := ByteAt(group, 0), ByteAt(group, 1), ByteAt(group, 2);
             v == if i == 0 then b0 / 4 else if i == 1 then b0 % 4 * 16 + b1 / 16
                  else if i == 2 then b1 % 16 * 4 + b2 / 64 else b2 % 64
    ensures v < 64 && GroupDigits(group)[i] == Digit(v)
  {
    GroupDigitsOf(group, ByteAt(group, 0), ByteAt(group, 1), ByteAt(group, 2));
  }

  lemma GroupDigit(group: seq<byte>, i: nat)
    requires 1 <= |group| <= 3 && i <= |group|
    ensures GroupDigits(group)[i] == Digit(Sextet(group, i))
  {
    FirstSextets(group);
    GroupDigitFrom(group, i, Sextet(group, i));
  }

  /** A group of bytes determines its own sextets. */
  lemma SextetOfGroup(bytes: seq<byte>, i: nat)
    requires |bytes| >= 3 && i < 4
    ensures Sextet(bytes[..3], i) == Sextet(bytes, i)
  {
    FirstSextets(bytes);
    FirstSextets(bytes[..3]);
  }

  /** The digits of the first group. */
  lemma GroupSextets(bytes: seq<byte>, i: nat)
    requires bytes != [] && i < 4 && i < |Digits(bytes)|
    ensures Digits(bytes)[i] == Digit(Sextet(bytes, i))
  {
    if |bytes| < 3 {
      GroupDigit(bytes, i);
    } else {
      GroupDigit(bytes[..3], i);
      SextetOfGroup(bytes, i);
      assert Digits(bytes)[i] == GroupDigits(bytes[..3])[i];
    }
  }

  lemma {:induction false} DigitsAreSextets(bytes: seq<byte>, i: nat)
    requires i < |Digits(bytes)|
    ensures Digits(bytes)[i] == Digit(Sextet(bytes, i))
    decreases i
  {
    if i < 4 {
      GroupSextets(bytes, i);
    } else {
      var rest := bytes[3..];
      assert Digits(bytes)[i] == Digits(rest)[i - 4];
      DigitsAreSextets(rest, i - 4);
      SextetOfRest(bytes, i - 4);
    }
  }

  lemma TableParts(v: nat)
    requires v < 64
    ensures URL_SAFE_TABLE[v] ==
              if v < 26 then "ABCDEFGHIJKLMNOPQRSTUVWXYZ"[v]
              else if v < 52 then "abcdefghijklmnopqrstuvwxyz"[v - 26]
              else if v < 62 then "0123456789"[v - 52]
              else if v == 62 then '-' else '_'
  {
  }

  lemma UpperCase(v: nat)
    requires v < 26
    ensures "ABCDEFGHIJKLMNOPQRSTUVWXYZ"[v] as int == 65 + v
  {
  }

  lemma LowerCase(v: nat)
    requires v < 26
    ensures "abcdefghijklmnopqrstuvwxyz"[v] as int == 97 + v
  {
  }

  lemma DecimalDigit(v: nat)
    requires v < 10
    ensures "0123456789"[v] as int == 48 + v
  {
  }

  lemma DigitInTable(v: nat)
    requires v < 64
    ensures var c := Digit(v);
            URL_SAFE_TABLE[v] as int == if c == PLUS then MINUS else if c == SLASH then UNDERSCORE else c
  {
    TableParts(v);
    if v < 26 {
      UpperCase(v);
    } else if v < 52 {
      LowerCase(v - 26);
    } else if v < 62 {
      DecimalDigit(v - 52);
    }
  }

  /**
   * What every character is: character i encodes bits 6i to 6i + 5 of the UTF-8 bytes, completed by zero bits at the end,
   * by the URL-safe table.
   */
  lemma Base64urlCharacters(str: JsString, b64: JsString)
    requires ToBase64url(str) == Some(b64)
    ensures Utf8Text(str).Some?
    ensures forall i | 0 <= i < |b64| :: b64[i] == URL_SAFE_TABLE[Sextet(Utf8Text(str).value, i)] as int
  {
    ToBase64urlIsUrlDigits(str);
    var bytes := Utf8Text(str).value;
    forall i | 0 <= i < |b64| ensures b64[i] == URL_SAFE_TABLE[Sextet(bytes, i)] as int {
      DigitsAreSextets(bytes, i);
      DigitInTable(Sextet(bytes, i));
    }
  }

  // ---------------------------------------------------------------------------------------
  // What decodes
  // ---------------------------------------------------------------------------------------

  lemma DigitOfValue(c: CodeUnit)
    requires IsDigit(c)
    ensures Digit(DigitValue(c)) == c
  {
  }

  /** The characters `atob` takes for digits are those of the table, with `+` and `/` for its last two. */
  lemma DigitIffInTable(c: CodeUnit)
    ensures IsDigit(c) <==>
              exists v: nat :: v < 64 && c == if v == 62 then '+' as int else if v == 63 then '/' as int else URL_SAFE_TABLE[v] as int
  {
    if IsDigit(c) {
      DigitOfValue(c);
      DigitInTable(DigitValue(c));
      assert DigitValue(c) < 64;
    }
    forall v: nat | v < 64 && c == if v == 62 then '+' as int else if v == 63 then '/' as int else URL_SAFE_TABLE[v] as int
      ensures IsDigit(c)
    {
      DigitInTable(v);
      assert c == Digit(v);
    }
  }

  /** Digits that spell whole bytes. */
  predicate IsPayload(s: JsString) {
    |s| % 4 != 1 && forall i | 0 <= i < |s| :: IsDigit(s[i])
  }

  /** The same digits, with the bits of a partial group that spell no byte set to zero. */
  function Canonical(s: JsString): (r: JsString)
    requires IsPayload(s)
  {
    if |s| % 4 == 0 then s
    else
      var v := DigitValue(s[|s| - 1]);
      s[..|s| - 1] + [Digit(if |s| % 4 == 2 then v / 16 * 16 else v / 4 * 4)]
  }

  lemma SextetsBack(v0: nat, v1: nat, v2: nat, v3: nat)
    requires v0 < 64 && v1 < 64 && v2 < 64 && v3 < 64
    ensures (v0 * 4 + v1 / 16) / 4 == v0
    ensures (v0 * 4 + v1 / 16) % 4 * 16 + (v1 % 16 * 16 + v2 / 4) / 16 == v1
    ensures (v1 % 16 * 16 + v2 / 4) % 16 * 4 + (v2 % 4 * 64 + v3) / 64 == v2
    ensures (v2 % 4 * 64 + v3) % 64 == v3
    ensures (v0 * 4 + v1 / 16) % 4 * 16 == v1 / 16 * 16
    ensures (v1 % 16 * 16 + v2 / 4) % 16 * 4 == v2 / 4 * 4
  {
  }

  lemma TwoDigits(s: JsString)
    requires |s| == 2 && IsDigit(s[0]) && IsDigit(s[1])
    ensures GroupDigits(GroupBytes(s)) == [s[0], Digit(DigitValue(s[1]) / 16 * 16)]
  {
    SextetsBack(DigitValue(s[0]), DigitValue(s[1]), 0, 0);
    DigitOfValue(s[0]);
  }

  lemma ThreeDigits(s: JsString)
    requires |s| == 3 && IsDigit(s[0]) && IsDigit(s[1]) && IsDigit(s[2])
    ensures GroupDigits(GroupBytes(s)) == [s[0], s[1], Digit(DigitValue(s[2]) / 4 * 4)]
  {
    SextetsBack(DigitValue(s[0]), DigitValue(s[1]), DigitValue(s[2]), 0);
    DigitOfValue(s[0]);
    DigitOfValue(s[1]);
  }

  lemma FourDigits(s: JsString)
    requires |s| == 4 && IsDigit(s[0]) && IsDigit(s[1]) && IsDigit(s[2]) && IsDigit(s[3])
    ensures GroupDigits(GroupBytes(s)) == s
  {
    var v0, v1, v2, v3 := DigitValue(s[0]), DigitValue(s[1]), DigitValue(s[2]), DigitValue(s[3]);
    SextetsBack(v0, v1, v2, v3);
    GroupDigitsOf(GroupBytes(s), v0 * 4 + v1 / 16, v1 % 16 * 16 + v2 / 4, v2 % 4 * 64 + v3);
    DigitOfValue(s[0]);
    DigitOfValue(s[1]);
    DigitOfValue(s[2]);
    DigitOfValue(s[3]);
  }

  lemma CanonicalGroup(s: JsString)
    requires 2 <= |s| <= 4 && IsPayload(s)
    ensures |s| == 2 ==> Canonical(s) == [s[0], Digit(DigitValue(s[1]) / 16 * 16)]
    ensures |s| == 3 ==> Canonical(s) == [s[0], s[1], Digit(DigitValue(s[2]) / 4 * 4)]
    ensures |s| == 4 ==> Canonical(s) == s
  {
  }

  lemma GroupCanonical(s: JsString, bytes: seq<byte>)
    requires 2 <= |s| <= 4 && IsPayload(s) && bytes == GroupBytes(s)
    ensures GroupDigits(bytes) == Canonical(s)
  {
    CanonicalGroup(s);
    if |s| == 2 {
      TwoDigits(s);
    } else if |s| == 3 {
      ThreeDigits(s);
    } else {
      FourDigits(s);
    }
  }

  lemma DigitsStep(group: seq<byte>, rest: seq<byte>)
    requires |group| == 3
    ensures Digits(group + rest) == GroupDigits(group) + Digits(rest)
  {
    var bytes := group + rest;
    assert bytes[..3] == group && bytes[3..] == rest;
  }

  lemma CanonicalStep(group: JsString, rest: JsString)
    requires |group| == 4 && IsPayload(rest) && IsPayload(group + rest)
    ensures Canonical(group + rest) == group + Canonical(rest)
  {
    var s := group + rest;
    WholeGroup(|rest|);
    if |rest| % 4 != 0 {
      assert s[|s| - 1] == rest[|rest| - 1];
      CanonicalLast(group, rest, Canonical(rest)[|rest| - 1]);
    }
  }

  lemma CanonicalLast(group: JsString, rest: JsString, last: CodeUnit)
    requires rest != []
    ensures (group + rest)[..|group + rest| - 1] + [last] == group + (rest[..|rest| - 1] + [last])
  {
    assert (group + rest)[..|group + rest| - 1] == group + rest[..|rest| - 1];
  }

  lemma DecodeThenEncodeGroup(s: JsString)
    requires 2 <= |s| <= 4 && IsPayload(s)
    ensures Digits(DecodeDigits(s)) == Canonical(s)
  {
    var bytes := GroupBytes(s);
    GroupCanonical(s, bytes);
    assert DecodeDigits(s) == bytes;
    if |bytes| == 3 {
      DigitsStep(bytes, []);
      assert bytes + [] == bytes;
    }
  }

  lemma DecodeThenEncodeStep(group: JsString, rest: JsString)
    requires |group| == 4 && IsPayload(group) && IsPayload(rest) && IsPayload(group + rest)
    requires Digits(DecodeDigits(rest)) == Canonical(rest)
    ensures Digits(DecodeDigits(group + rest)) == Canonical(group + rest)
  {
    var bytes := GroupBytes(group);
    GroupCanonical(group, bytes);
    CanonicalGroup(group);
    DecodeDigitsStep(group, rest);
    DigitsStep(bytes, DecodeDigits(rest));
    CanonicalStep(group, rest);
  }

  /** Decoding and encoding again gives back every digit, but for the bits that spell no byte. */
  lemma {:induction false} DecodeThenEncode(s: JsString)
    requires IsPayload(s)
    ensures Digits(DecodeDigits(s)) == Canonical(s)
    decreases |s|
  {
    if |s| > 4 {
      DecodeThenEncode(s[4..]);
      assert s == s[..4] + s[4..];
      DecodeThenEncodeStep(s[..4], s[4..]);
    } else if s != [] {
      DecodeThenEncodeGroup(s);
    }
  }

  /** `atob` yields some bytes iff, whitespace and padding apart, its input is digits that spell them. */
  lemma AtobIff(text: JsString, bytes: seq<byte>)
    ensures var s := StripPadding(StripWhitespace(text));
            Atob(text) == Some(bytes) <==> IsPayload(s) && Digits(bytes) == Canonical(s)
  {
    var s := StripPadding(StripWhitespace(text));
    if IsPayload(s) {
      DecodeThenEncode(s);
      DigitsRoundTrip(bytes);
      DigitsRoundTrip(DecodeDigits(s));
    }
  }

  /** Whitespace is space, tab, line feed, form feed and carriage return, wherever they are. */
  lemma {:induction false} StripWhitespaceSplits(s: JsString, t: JsString)
    ensures StripWhitespace(s + t) == StripWhitespace(s) + StripWhitespace(t)
    ensures |s| == 1 ==> StripWhitespace(s) == if s[0] in {0x20, 0x09, 0x0A, 0x0C, 0x0D} then [] else s
    decreases |s|
  {
    if s == [] {
      assert s + t == t;
    } else {
      assert (s + t)[1..] == s[1..] + t;
      StripWhitespaceSplits(s[1..], t);
    }
  }

  /** Padding goes from a text of whole groups only, up to two characters of it. */
  lemma StripPaddingIff(s: JsString, n: nat)
    requires n <= 2
    ensures s == [] || s[|s| - 1] != '=' as int ==> StripPadding(s + seq(n, _ => '=' as int)) == if (|s| + n) % 4 == 0 then s else s + seq(n, _ => '=' as int)
  {
    var padding: JsString := seq(n, _ => '=' as int);
    assert padding == Pad(n);
    if s == [] || s[|s| - 1] != EQUALS {
      if (|s| + n) % 4 == 0 {
        StripPaddingPad(s, n);
      }
    }
  }

  function UrlSafe(s: JsString): JsString {
    ReplaceAll(ReplaceAll(s, '+' as int, '-' as int), '/' as int, '_' as int)
  }

  /** What `fromBase64url` hands to `atob`, with the whitespace and padding that ignores removed. */
  function Payload(b64: JsString): JsString {
    var padded := ReplaceAll(ReplaceAll(b64, MINUS, PLUS), UNDERSCORE, SLASH);
    StripPadding(StripWhitespace(padded + Pad(PadLength(|padded|))))
  }

  lemma UrlDigitsInjective(s: JsString, t: JsString)
    requires |s| == |t| && (forall i | 0 <= i < |s| :: IsDigit(s[i])) && (forall i | 0 <= i < |t| :: IsDigit(t[i]))
    requires UrlSafe(s) == UrlSafe(t)
    ensures s == t
  {
    forall i | 0 <= i < |s| ensures s[i] == t[i] {
      assert UrlSafe(s)[i] == UrlSafe(t)[i];
    }
  }

  /**
   * Exactly what decodes to what, for every input. `fromBase64url` gives a string iff its payload is digits that spell whole
   * bytes, and encoding that string gives the payload back, in URL-safe characters and with the unused bits zero.
   */
  lemma FromBase64urlIff(b64: JsString, str: JsString)
    ensures FromBase64url(b64) == Some(str) <==>
              IsPayload(Payload(b64)) && ToBase64url(str) == Some(UrlSafe(Canonical(Payload(b64))))
  {
    var padded := ReplaceAll(ReplaceAll(b64, MINUS, PLUS), UNDERSCORE, SLASH);
    var text := padded + Pad(PadLength(|padded|));
    ToBase64urlIsUrlDigits(str);
    if IsPayload(Payload(b64)) {
      var bytes := DecodeDigits(Payload(b64));
      DecodeThenEncode(Payload(b64));
      DecodesIffUtf8(bytes, str);
      assert Atob(text) == Some(bytes);
      assert UrlDigits(bytes) == UrlSafe(Canonical(Payload(b64)));
      if Utf8Text(str).Some? {
        UrlDigitsDetermine(bytes, Utf8Text(str).value);
      }
    }
  }

  lemma UrlDigitsDetermine(bytes: seq<byte>, bytes': seq<byte>)
    ensures UrlDigits(bytes) == UrlDigits(bytes') ==> bytes == bytes'
  {
    if UrlDigits(bytes) == UrlDigits(bytes') {
      DigitsAreDigits(bytes);
      DigitsAreDigits(bytes');
      UrlDigitsInjective(Digits(bytes), Digits(bytes'));
      DigitsRoundTrip(bytes);
      DigitsRoundTrip(bytes');
    }
  }

  ghost predicate InUrlTable(c: CodeUnit) {
    exists v: nat :: v < 64 && c == URL_SAFE_TABLE[v] as int
  }

  lemma UrlSafeIsDigit(c: CodeUnit)
    requires InUrlTable(c)
    ensures IsAlphanumeric(c) || c in {MINUS, UNDERSCORE}
  {
    var v: nat :| v < 64 && c == URL_SAFE_TABLE[v] as int;
    DigitInTable(v);
  }

  lemma PlainTranslated(b64: JsString)
    requires forall i | 0 <= i < |b64| :: InUrlTable(b64[i])
    ensures var padded := ReplaceAll(ReplaceAll(b64, MINUS, PLUS), UNDERSCORE, SLASH);
            (forall i | 0 <= i < |padded| :: IsDigit(padded[i])) && UrlSafe(padded) == b64
  {
    forall i | 0 <= i < |b64| ensures IsAlphanumeric(b64[i]) || b64[i] in {MINUS, UNDERSCORE} {
      UrlSafeIsDigit(b64[i]);
    }
  }

  lemma LeftoverPadding(s: JsString)
    requires |s| % 4 == 1
    ensures !IsPayload(StripPadding(s + Pad(3)))
  {
    var r := StripPadding(s + Pad(3));
    assert |r| == |s| + 1 && r[|s|] == EQUALS;
  }

  lemma PadCases(length: nat)
    ensures if length % 4 == 1 then PadLength(length) == 3 else PadLength(length) <= 2 && (length + PadLength(length)) % 4 == 0
  {
  }

  lemma PaddedBy(digits: JsString, n: nat)
    requires forall i | 0 <= i < |digits| :: IsDigit(digits[i])
    requires if |digits| % 4 == 1 then n == 3 else n <= 2 && (|digits| + n) % 4 == 0
    ensures var s := StripPadding(StripWhitespace(digits + Pad(n)));
            if |digits| % 4 != 1 then s == digits else !IsPayload(s)
  {
    StripWhitespaceNone(digits + Pad(n));
    if |digits| % 4 != 1 {
      StripPaddingPad(digits, n);
    } else {
      LeftoverPadding(digits);
    }
  }

  /** Text of URL-safe characters is its own payload, unless one character is left over from whole groups: then nothing decodes. */
  lemma PayloadOfPlain(b64: JsString)
    requires forall i | 0 <= i < |b64| :: InUrlTable(b64[i])
    ensures IsPayload(Payload(b64)) <==> |b64| % 4 != 1
    ensures |b64| % 4 != 1 ==> UrlSafe(Payload(b64)) == b64
  {
    PlainTranslated(b64);
    var padded := ReplaceAll(ReplaceAll(b64, MINUS, PLUS), UNDERSCORE, SLASH);
    PadCases(|padded|);
    PaddedBy(padded, PadLength(|padded|));
  }

  /** A string without one of the characters of the pattern does not contain the pattern. */
  lemma {:induction false} RemoveFirstAbsent(s: JsString, pattern: JsString, k: nat)
    requires k < |pattern| && forall i | 0 <= i < |s| :: s[i] != pattern[k]
    ensures RemoveFirst(s, pattern) == s
    decreases |s|
  {
    if |s| >= |pattern| {
      assert s[..|pattern|][k] == s[k];
      RemoveFirstAbsent(s[1..], pattern, k);
    }
  }

  lemma RemoveFirstPrefix(s: JsString, pattern: JsString)
    ensures RemoveFirst(pattern + s, pattern) == s
  {
    assert (pattern + s)[..|pattern|] == pattern && (pattern + s)[|pattern|..] == s;
  }

  /** The scheme holds a colon, which an encoded body never does. */
  lemma BodyHasNoScheme(json: JsString, b64: JsString)
    requires ToBase64url(json) == Some(b64)
    ensures RemoveFirst(b64, SCHEME) == b64
  {
    Base64urlShape(json, b64);
    assert SCHEME[9] == 58;
    assert forall i | 0 <= i < |b64| :: IsUrlSafe(b64[i]) && b64[i] != 58;
    RemoveFirstAbsent(b64, SCHEME, 9);
  }

  lemma SchemeText()
    ensures |SCHEME| == 12 && forall i | 0 <= i < 12 :: SCHEME[i] == "eudi-pres://"[i] as int
  {
  }

  predicate OccursAt(s: JsString, pattern: JsString, k: nat) {
    k + |pattern| <= |s| && s[k..k + |pattern|] == pattern
  }

  lemma OccursInRest(s: JsString, pattern: JsString, k: nat)
    requires s != []
    ensures OccursAt(s, pattern, k + 1) <==> OccursAt(s[1..], pattern, k)
  {
    if k + 1 + |pattern| <= |s| {
      assert s[1..][k..k + |pattern|] == s[k + 1..k + 1 + |pattern|];
    }
  }

  /** What is removed is the first occurrence of the pattern, wherever that is. */
  lemma {:induction false} RemoveFirstRemoves(front: JsString, pattern: JsString, back: JsString)
    requires forall j: nat | j < |front| :: !OccursAt(front + pattern + back, pattern, j)
    ensures RemoveFirst(front + pattern + back, pattern) == front + back
    decreases |front|
  {
    var s := front + pattern + back;
    if front == [] {
      assert s == pattern + back;
      RemoveFirstPrefix(back, pattern);
      assert front + back == back;
    } else {
      var rest := front[1..] + pattern + back;
      assert s[1..] == rest && s[0] == front[0];
      assert !OccursAt(s, pattern, 0);
      forall j: nat | j < |front[1..]| ensures !OccursAt(rest, pattern, j) {
        OccursInRest(s, pattern, j);
      }
      RemoveFirstRemoves(front[1..], pattern, back);
      assert [front[0]] + (front[1..] + back) == front + back;
      RemoveFirstStep(s, pattern);
    }
  }

  lemma RemoveFirstStep(s: JsString, pattern: JsString)
    requires s != [] && |pattern| <= |s| && !OccursAt(s, pattern, 0)
    ensures RemoveFirst(s, pattern) == [s[0]] + RemoveFirst(s[1..], pattern)
  {
  }

  /** A text in which the pattern does not occur stays as it is. */
  lemma {:induction false} RemoveFirstKeeps(s: JsString, pattern: JsString)
    requires forall j: nat :: !OccursAt(s, pattern, j)
    ensures RemoveFirst(s, pattern) == s
    decreases |s|
  {
    assert !OccursAt(s, pattern, 0);
    if |pattern| <= |s| && s != [] {
      forall j: nat ensures !OccursAt(s[1..], pattern, j) {
        OccursInRest(s, pattern, j);
      }
      RemoveFirstKeeps(s[1..], pattern);
    }
  }

  /**
   * Decoding an encoded request, which starts with the scheme, recovers its JSON text; so does decoding the bare body,
   * without the scheme.
   */
  lemma PresentationRoundTrip(json: JsString)
    requires WellFormed(json)
    ensures EncodePresentationRequest(json).Some?
    ensures var request := EncodePresentationRequest(json).value;
            && |request| >= 12 && (forall i | 0 <= i < 12 :: request[i] == "eudi-pres://"[i] as int)
            && Some(request[12..]) == ToBase64url(json)
    ensures DecodePresentationRequest(EncodePresentationRequest(json).value) == Some(json)
    ensures ToBase64url(json).Some? && DecodePresentationRequest(ToBase64url(json).value) == Some(json)
  {
    Base64urlRoundTrip(json);
    var b64 := ToBase64url(json).value;
    SchemeText();
    RemoveFirstPrefix(b64, SCHEME);
    BodyHasNoScheme(json, b64);
  }

  /** Published values: "f" to "foob" (RFC 4648, section 10) and U+2262, U+233B4 (RFC 3629, section 7). */
  lemma PublishedVectors()
    ensures Digits([102]) == [90, 103]                               // Zg
    ensures Digits([102, 111]) == [90, 109, 56]                      // Zm8
    ensures Digits([102, 111, 111]) == [90, 109, 57, 118]            // Zm9v
    ensures Digits([102, 111, 111, 98]) == [90, 109, 57, 118, 89, 103]  // Zm9vYg
    ensures Utf8(0x2262) == [0xE2, 0x89, 0xA2] && Utf8(0x2_33B4) == [0xF0, 0xA3, 0x8E, 0xB4]
  {
    var foob: seq<byte> := [102, 111, 111, 98];
    assert foob[..3] == [102, 111, 111] && foob[3..] == [98];
    var foo: seq<byte> := [102, 111, 111];
    assert foo[..3] == foo && foo[3..] == [];
  }
}
