/**
 * The JavaScript text functions the wallet's codec is built from. A string is a sequence of
 * UTF-16 code units; `None` stands for the exception a function throws.
 */
module JsText {
  import opened Evm

  type CodeUnit = n: nat | n < 0x1_0000
  type JsString = seq<CodeUnit>

  const PERCENT: CodeUnit := 37
  const EQUALS: CodeUnit := 61
  const LETTER_U: CodeUnit := 117

  predicate IsAlphanumeric(c: CodeUnit) {
    48 <= c <= 57 || 65 <= c <= 90 || 97 <= c <= 122
  }

  // ---------------------------------------------------------------------------------------
  // Code points
  // ---------------------------------------------------------------------------------------

  predicate IsHigh(c: CodeUnit) { 0xD800 <= c <= 0xDBFF }

  predicate IsLow(c: CodeUnit) { 0xDC00 <= c <= 0xDFFF }

  /** A Unicode scalar value: a code point that is not a surrogate. */
  predicate IsScalar(n: int) {
    0 <= n < 0xD800 || 0xE000 <= n <= 0x10_FFFF
  }

  type Scalar = n: nat | n < 0xD800 || 0xE000 <= n <= 0x10_FFFF

  function FromSurrogates(high: CodeUnit, low: CodeUnit): (cp: Scalar)
    requires IsHigh(high) && IsLow(low)
    ensures Utf16(cp) == [high, low]
  {
    var offset: int := (high as int - 0xD800) * 0x400 + (low as int - 0xDC00);
    0x1_0000 + offset
  }

  /** The code point a string starts with and the number of units it takes; `None` for a lone surrogate. */
  function FirstScalar(s: JsString): (r: Option<(Scalar, nat)>)
    requires s != []
    ensures r.Some? ==> 1 <= r.value.1 <= |s| && Utf16(r.value.0) == s[..r.value.1]
  {
    if IsLow(s[0]) then None
    else if IsHigh(s[0]) then
      if |s| >= 2 && IsLow(s[1]) then Some((FromSurrogates(s[0], s[1]), 2)) else None
    else Some((s[0], 1))
  }

  function Utf16(cp: Scalar): JsString {
    if cp < 0x1_0000 then [cp]
    else
      var high: CodeUnit := 0xD800 + (cp - 0x1_0000) / 0x400;
      var low: CodeUnit := 0xDC00 + (cp - 0x1_0000) % 0x400;
      [high, low]
  }

  /** The UTF-8 form of a scalar value (RFC 3629, section 3). */
  function Utf8(cp: Scalar): (bytes: seq<byte>)
    ensures 1 <= |bytes| <= 4
    ensures cp < 0x80 ==> bytes == [cp]
    ensures cp >= 0x80 ==> |bytes| >= 2 && forall i | 0 <= i < |bytes| :: bytes[i] >= 0x80
  {
    var c0, q1 := cp % 0x40, cp / 0x40;
    var c1, q2 := q1 % 0x40, q1 / 0x40;
    var c2, q3 := q2 % 0x40, q2 / 0x40;
    if cp < 0x80 then [cp]
    else if cp < 0x800 then [0xC0 + q1] + [0x80 + c0]
    else if cp < 0x1_0000 then [0xE0 + q2] + [0x80 + c1] + [0x80 + c0]
    else [0xF0 + q3] + [0x80 + c2] + [0x80 + c1] + [0x80 + c0]
  }

  /** How many bytes a leading byte announces; zero if it may not lead. */
  function SequenceLength(lead: byte): nat {
    if lead < 0x80 then 1
    else if lead < 0xC0 then 0
    else if lead < 0xE0 then 2
    else if lead < 0xF0 then 3
    else if lead < 0xF8 then 4
    else 0
  }

  predicate IsContinuation(b: byte) { 0x80 <= b < 0xC0 }

  /** The scalar value of a whole UTF-8 sequence; `None` if overlong, a surrogate or out of range. */
  function FromUtf8(bytes: seq<byte>): Option<Scalar>
    requires 2 <= |bytes| <= 4 && |bytes| == SequenceLength(bytes[0])
    requires forall i | 1 <= i < |bytes| :: IsContinuation(bytes[i])
  {
    var b0: int, b1: int := bytes[0], bytes[1];
    var cp: int :=
      if |bytes| == 2 then (b0 - 0xC0) * 0x40 + (b1 - 0x80)
      else
        var b2: int := bytes[2];
        if |bytes| == 3 then ((b0 - 0xE0) * 0x40 + (b1 - 0x80)) * 0x40 + (b2 - 0x80)
        else
          var b3: int := bytes[3];
          (((b0 - 0xF0) * 0x40 + (b1 - 0x80)) * 0x40 + (b2 - 0x80)) * 0x40 + (b3 - 0x80);
    var least: int := if |bytes| == 2 then 0x80 else if |bytes| == 3 then 0x800 else 0x1_0000;
    if cp >= least && IsScalar(cp) then Some(cp) else None
  }

  lemma Utf8RoundTrip(cp: Scalar)
    requires cp >= 0x80
    ensures var bytes := Utf8(cp);
            && |bytes| == SequenceLength(bytes[0])
            && (forall i | 1 <= i < |bytes| :: IsContinuation(bytes[i]))
            && FromUtf8(bytes) == Some(cp)
  {
  }

  /** The bit patterns of RFC 3629: 0xxxxxxx, 110xxxxx, 1110xxxx and 11110xxx lead, 10xxxxxx follow, and the x spell the scalar. */
  lemma Utf8Layout(cp: Scalar)
    ensures var b := Utf8(cp);
            if cp < 0x80 then b == [cp]
            else if cp < 0x800 then
              |b| == 2 && b[0] / 32 == 6 && b[1] / 64 == 2
              && cp as int == b[0] as int % 32 * 64 + b[1] as int % 64
            else if cp < 0x1_0000 then
              |b| == 3 && b[0] / 16 == 14 && b[1] / 64 == 2 && b[2] / 64 == 2
              && cp as int == (b[0] as int % 16 * 64 + b[1] as int % 64) * 64 + b[2] as int % 64
            else
              |b| == 4 && b[0] / 8 == 30 && b[1] / 64 == 2 && b[2] / 64 == 2 && b[3] / 64 == 2
              && cp as int == ((b[0] as int % 8 * 64 + b[1] as int % 64) * 64 + b[2] as int % 64) * 64 + b[3] as int % 64
  {
  }

  // ---------------------------------------------------------------------------------------
  // Percent escapes
  // ---------------------------------------------------------------------------------------

  function HexDigit(n: nat): CodeUnit
    requires n < 16
  {
    if n < 10 then 48 + n else 55 + n
  }

  function HexValue(c: CodeUnit): (r: Option<nat>)
    ensures r.Some? ==> r.value < 16
  {
    if 48 <= c <= 57 then Some(c - 48)
    else if 65 <= c <= 70 then Some(c - 55)
    else if 97 <= c <= 102 then Some(c - 87)
    else None
  }

  /** `%XX`. */
  function PercentByte(b: byte): (s: JsString)
    ensures |s| == 3
  {
    [PERCENT, HexDigit(b / 16), HexDigit(b % 16)]
  }

  function PercentBytes(bytes: seq<byte>): JsString {
    if bytes == [] then [] else PercentByte(bytes[0]) + PercentBytes(bytes[1..])
  }

  /** The byte a string starts with in the form `%XX`, if it does. */
  function LeadingByte(s: JsString): Option<byte> {
    if |s| >= 3 && s[0] == PERCENT && HexValue(s[1]).Some? && HexValue(s[2]).Some?
    then Some(HexValue(s[1]).value * 16 + HexValue(s[2]).value)
    else None
  }

  lemma LeadingPercentByte(b: byte, rest: JsString)
    ensures LeadingByte(PercentByte(b) + rest) == Some(b)
    ensures (PercentByte(b) + rest)[3..] == rest
    ensures (PercentByte(b) + rest)[1] != LETTER_U
  {
  }

  // ---- encodeURIComponent ----

  predicate IsUriUnreserved(c: CodeUnit) {
    IsAlphanumeric(c) || c in {45, 95, 46, 33, 126, 42, 39, 40, 41}  // - _ . ! ~ * ' ( )
  }

  function EncodeUriComponent(s: JsString): Option<JsString> {
    if s == [] then Some([])
    else if IsUriUnreserved(s[0]) then Prepend([s[0]], EncodeUriComponent(s[1..]))
    else match FirstScalar(s)
      case None => None
      case Some((cp, width)) => Prepend(PercentBytes(Utf8(cp)), EncodeUriComponent(s[width..]))
  }

  function Prepend<T>(front: seq<T>, rest: Option<seq<T>>): Option<seq<T>> {
    match rest
    case None => None
    case Some(s) => Some(front + s)
  }

  // ---- unescape ----

  function Unescape(s: JsString): JsString {
    if s == [] then []
    else if |s| >= 6 && s[0] == PERCENT && s[1] == LETTER_U
            && HexValue(s[2]).Some? && HexValue(s[3]).Some? && HexValue(s[4]).Some? && HexValue(s[5]).Some? then
      [((HexValue(s[2]).value * 16 + HexValue(s[3]).value) * 16 + HexValue(s[4]).value) * 16 + HexValue(s[5]).value]
      + Unescape(s[6..])
    else match LeadingByte(s)
      case Some(b) => [b] + Unescape(s[3..])
      case None => [s[0]] + Unescape(s[1..])
  }

  // ---- escape ----

  predicate IsEscapeSafe(c: CodeUnit) {
    IsAlphanumeric(c) || c in {64, 42, 95, 43, 45, 46, 47}  // @ * _ + - . /
  }

  function EscapeUnit(c: CodeUnit): JsString {
    if IsEscapeSafe(c) then [c]
    else if c < 256 then PercentByte(c)
    else [PERCENT, LETTER_U, HexDigit(c / 0x1000), HexDigit(c / 0x100 % 16), HexDigit(c / 16 % 16), HexDigit(c % 16)]
  }

  function Escape(s: JsString): JsString {
    if s == [] then [] else EscapeUnit(s[0]) + Escape(s[1..])
  }

  // ---- decodeURIComponent ----

  /** The `n` bytes a string starts with in the form `%XX...%XX`, if it does. */
  function LeadingBytes(s: JsString, n: nat): (r: Option<seq<byte>>)
    ensures r.Some? ==> |r.value| == n && 3 * n <= |s|
    decreases n
  {
    if n == 0 then Some([])
    else match LeadingByte(s)
      case None => None
      case Some(b) => Prepend([b], LeadingBytes(s[3..], n - 1))
  }

  function DecodeUriComponent(s: JsString): Option<JsString> {
    if s == [] then Some([])
    else if s[0] != PERCENT then Prepend([s[0]], DecodeUriComponent(s[1..]))
    else match LeadingByte(s)
      case None => None
      case Some(lead) =>
        if lead < 0x80 then Prepend([lead], DecodeUriComponent(s[3..]))
        else if SequenceLength(lead) == 0 then None
        else match LeadingBytes(s, SequenceLength(lead))
          case None => None
          case Some(bytes) =>
            if forall i | 1 <= i < |bytes| :: IsContinuation(bytes[i]) then
              match FromUtf8(bytes)
              case None => None
              case Some(cp) => Prepend(Utf16(cp), DecodeUriComponent(s[3 * |bytes|..]))
            else None
  }

  // ---------------------------------------------------------------------------------------
  // The two pairs of functions, against UTF-8
  // ---------------------------------------------------------------------------------------

  /** No lone surrogate: each high one is followed by a low one, and each low one preceded by a high one. */
  ghost predicate WellFormed(s: JsString) {
    && (forall i | 0 <= i < |s| && IsHigh(s[i]) :: i + 1 < |s| && IsLow(s[i + 1]))
    && (forall i | 0 <= i < |s| && IsLow(s[i]) :: i > 0 && IsHigh(s[i - 1]))
  }

  /** The UTF-8 bytes of a string, code point by code point. */
  function Utf8Text(s: JsString): Option<seq<byte>> {
    if s == [] then Some([])
    else match FirstScalar(s)
      case None => None
      case Some((cp, width)) => Prepend(Utf8(cp), Utf8Text(s[width..]))
  }

  /** A whole code point in front changes nothing about being well-formed. */
  lemma WellFormedTail(s: JsString, width: nat)
    requires 1 <= width <= |s|
    requires if width == 1 then !IsHigh(s[0]) && !IsLow(s[0]) else width == 2 && IsHigh(s[0]) && IsLow(s[1])
    ensures WellFormed(s) <==> WellFormed(s[width..])
  {
    var rest := s[width..];
    if WellFormed(rest) {
      forall i | 0 <= i < |s| && IsHigh(s[i]) ensures i + 1 < |s| && IsLow(s[i + 1]) {
        if i >= width { assert IsHigh(rest[i - width]); }
      }
      forall i | 0 <= i < |s| && IsLow(s[i]) ensures i > 0 && IsHigh(s[i - 1]) {
        if i >= width { assert IsLow(rest[i - width]); }
      }
    }
    if WellFormed(s) {
      forall i | 0 <= i < |rest| && IsHigh(rest[i]) ensures i + 1 < |rest| && IsLow(rest[i + 1]) {
        assert IsHigh(s[width + i]);
      }
      forall i | 0 <= i < |rest| && IsLow(rest[i]) ensures i > 0 && IsHigh(rest[i - 1]) {
        assert IsLow(s[width + i]);
      }
    }
  }

  lemma {:induction false} Utf8TextIffWellFormed(s: JsString)
    ensures Utf8Text(s).Some? <==> WellFormed(s)
    decreases |s|
  {
    if s != [] {
      if FirstScalar(s).Some? {
        WellFormedTail(s, FirstScalar(s).value.1);
        Utf8TextIffWellFormed(s[FirstScalar(s).value.1..]);
      }
    }
  }

  lemma UnescapePercentByte(b: byte, rest: JsString)
    ensures Unescape(PercentByte(b) + rest) == [b] + Unescape(rest)
  {
    LeadingPercentByte(b, rest);
  }

  lemma UnescapeConcat(head: byte, bytes: seq<byte>, tail: JsString, rest: JsString)
    requires Unescape(tail) == bytes + Unescape(rest)
    ensures Unescape(PercentByte(head) + tail) == [head] + bytes + Unescape(rest)
  {
    UnescapePercentByte(head, tail);
  }

  lemma {:induction false} UnescapePercentBytes(bytes: seq<byte>, rest: JsString)
    ensures Unescape(PercentBytes(bytes) + rest) == bytes + Unescape(rest)
    decreases |bytes|
  {
    if bytes == [] {
      assert PercentBytes(bytes) + rest == rest;
    } else {
      var tail := PercentBytes(bytes[1..]) + rest;
      assert PercentBytes(bytes) + rest == PercentByte(bytes[0]) + tail;
      UnescapePercentBytes(bytes[1..], rest);
      UnescapeConcat(bytes[0], bytes[1..], tail, rest);
      assert bytes == [bytes[0]] + bytes[1..];
    }
  }

  /** `unescape(encodeURIComponent(s))` is the UTF-8 of `s`, one unit per byte; it throws on a lone surrogate only. */
  lemma {:induction false} EncodeThenUnescape(s: JsString)
    ensures match EncodeUriComponent(s)
            case None => Utf8Text(s) == None
            case Some(e) => Utf8Text(s).Some? && Unescape(e) == Utf8Text(s).value
    decreases |s|
  {
    if s != [] {
      if IsUriUnreserved(s[0]) {
        EncodeThenUnescape(s[1..]);
        var rest := EncodeUriComponent(s[1..]);
        if rest.Some? {
          assert ([s[0]] + rest.value)[1..] == rest.value;
        }
      } else if FirstScalar(s).Some? {
        var (cp, width) := FirstScalar(s).value;
        EncodeThenUnescape(s[width..]);
        var rest := EncodeUriComponent(s[width..]);
        if rest.Some? {
          UnescapePercentBytes(Utf8(cp), rest.value);
        }
      }
    }
  }

  lemma {:induction false} EscapeHighBytes(bytes: seq<byte>, rest: JsString)
    requires forall i | 0 <= i < |bytes| :: bytes[i] >= 0x80
    ensures Escape(bytes + rest) == PercentBytes(bytes) + Escape(rest)
    ensures |PercentBytes(bytes)| == 3 * |bytes|
    decreases |bytes|
  {
    if bytes == [] {
      assert bytes + rest == rest;
    } else {
      assert (bytes + rest)[1..] == bytes[1..] + rest;
      EscapeHighBytes(bytes[1..], rest);
    }
  }

  lemma {:induction false} LeadingBytesOfPercentBytes(bytes: seq<byte>, rest: JsString)
    ensures LeadingBytes(PercentBytes(bytes) + rest, |bytes|) == Some(bytes)
    decreases |bytes|
  {
    if bytes != [] {
      var tail := PercentBytes(bytes[1..]) + rest;
      assert PercentBytes(bytes) + rest == PercentByte(bytes[0]) + tail;
      LeadingPercentByte(bytes[0], tail);
      LeadingBytesOfPercentBytes(bytes[1..], rest);
      assert bytes == [bytes[0]] + bytes[1..];
    }
  }

  /** An escaped multi-byte sequence decodes to its code point. */
  lemma DecodeHighScalar(cp: Scalar, rest: JsString)
    requires cp >= 0x80
    ensures DecodeUriComponent(PercentBytes(Utf8(cp)) + rest) == Prepend(Utf16(cp), DecodeUriComponent(rest))
  {
    var bytes := Utf8(cp);
    var s := PercentBytes(bytes) + rest;
    var tail := PercentBytes(bytes[1..]) + rest;
    assert s == PercentByte(bytes[0]) + tail;
    LeadingPercentByte(bytes[0], tail);
    Utf8RoundTrip(cp);
    LeadingBytesOfPercentBytes(bytes, rest);
    EscapeHighBytes(bytes, rest);
    assert s[3 * |bytes|..] == rest;
  }

  lemma DecodeLowUnit(c: CodeUnit, rest: JsString)
    requires c < 0x80
    ensures DecodeUriComponent(EscapeUnit(c) + rest) == Prepend([c], DecodeUriComponent(rest))
  {
    if IsEscapeSafe(c) {
      assert ([c] + rest)[1..] == rest;
    } else {
      LeadingPercentByte(c, rest);
    }
  }

  lemma DecodeEscapedScalar(cp: Scalar, rest: seq<byte>)
    ensures DecodeUriComponent(Escape(Utf8(cp) + rest)) == Prepend(Utf16(cp), DecodeUriComponent(Escape(rest)))
  {
    if cp < 0x80 {
      assert ([cp] + rest)[1..] == rest;
      DecodeLowUnit(cp, Escape(rest));
    } else {
      EscapeHighBytes(Utf8(cp), rest);
      DecodeHighScalar(cp, Escape(rest));
    }
  }

  lemma EscapedScalarThen(cp: Scalar, bytes: seq<byte>, rest: JsString)
    requires DecodeUriComponent(Escape(bytes)) == Some(rest)
    ensures DecodeUriComponent(Escape(Utf8(cp) + bytes)) == Some(Utf16(cp) + rest)
  {
    DecodeEscapedScalar(cp, bytes);
  }

  /** `decodeURIComponent(escape(b))` recovers the string whose UTF-8 `b` is. */
  lemma {:induction false} EscapeThenDecode(s: JsString)
    requires Utf8Text(s).Some?
    ensures DecodeUriComponent(Escape(Utf8Text(s).value)) == Some(s)
    decreases |s|
  {
    if s != [] {
      var (cp, width) := FirstScalar(s).value;
      var rest := s[width..];
      EscapeThenDecode(rest);
      EscapedScalarThen(cp, Utf8Text(rest).value, rest);
      assert s == Utf16(cp) + rest;
    }
  }

  // ---------------------------------------------------------------------------------------
  // Nothing but UTF-8 decodes
  // ---------------------------------------------------------------------------------------

  /** What an escaped byte string shows at its start as `%XX` is its first byte. */
  lemma EscapeLeadingByte(bytes: seq<byte>)
    ensures bytes == [] ==> LeadingByte(Escape(bytes)) == None
    ensures bytes != [] && LeadingByte(Escape(bytes)).Some? ==>
              LeadingByte(Escape(bytes)) == Some(bytes[0]) && Escape(bytes)[3..] == Escape(bytes[1..])
    ensures bytes != [] && bytes[0] >= 0x80 ==> LeadingByte(Escape(bytes)) == Some(bytes[0])
  {
    if bytes != [] && !IsEscapeSafe(bytes[0]) {
      LeadingPercentByte(bytes[0], Escape(bytes[1..]));
    }
  }

  /** `s` shows at its start the first `n` bytes of `bytes`, and after them the rest, escaped. */
  predicate ShowsBytes(s: JsString, bytes: seq<byte>, n: nat) {
    n <= |bytes| && 3 * n <= |s| && LeadingBytes(s, n) == Some(bytes[..n]) && s[3 * n..] == Escape(bytes[n..])
  }

  lemma ShowsOneMore(s: JsString, bytes: seq<byte>, n: nat)
    requires bytes != [] && n > 0 && |s| >= 3
    requires LeadingByte(s) == Some(bytes[0]) && ShowsBytes(s[3..], bytes[1..], n - 1)
    ensures ShowsBytes(s, bytes, n)
  {
    assert bytes[..n] == [bytes[0]] + bytes[1..][..n - 1];
    assert bytes[1..][n - 1..] == bytes[n..];
    assert s[3 * n..] == s[3..][3 * (n - 1)..];
  }

  lemma {:induction false} EscapeLeadingBytes(bytes: seq<byte>, n: nat)
    ensures LeadingBytes(Escape(bytes), n).Some? ==> ShowsBytes(Escape(bytes), bytes, n)
    decreases n
  {
    if n == 0 {
      assert bytes[0..] == bytes;
    } else {
      EscapeLeadingByte(bytes);
      if LeadingBytes(Escape(bytes), n).Some? {
        EscapeLeadingBytes(bytes[1..], n - 1);
        ShowsOneMore(Escape(bytes), bytes, n);
      }
    }
  }

  /** Only the UTF-8 form of a scalar value is read as that value. */
  lemma FromUtf8Exact(bytes: seq<byte>)
    requires 2 <= |bytes| <= 4 && |bytes| == SequenceLength(bytes[0])
    requires forall i | 1 <= i < |bytes| :: IsContinuation(bytes[i])
    requires FromUtf8(bytes).Some?
    ensures FromUtf8(bytes).value >= 0x80 && Utf8(FromUtf8(bytes).value) == bytes
  {
    var b0: int, b1: int := bytes[0], bytes[1];
    if |bytes| == 2 {
      SextetJoined(b0 - 0xC0, b1 - 0x80);
    } else if |bytes| == 3 {
      ThreeByteForm(bytes);
    } else {
      FourByteForm(bytes);
    }
  }

  lemma ThreeByteForm(bytes: seq<byte>)
    requires |bytes| == 3 == SequenceLength(bytes[0]) && IsContinuation(bytes[1]) && IsContinuation(bytes[2])
    requires FromUtf8(bytes).Some?
    ensures FromUtf8(bytes).value >= 0x80 && Utf8(FromUtf8(bytes).value) == bytes
  {
    var b0: int, b1: int, b2: int := bytes[0], bytes[1], bytes[2];
    SextetJoined(b0 - 0xE0, b1 - 0x80);
    SextetJoined((b0 - 0xE0) * 0x40 + (b1 - 0x80), b2 - 0x80);
  }

  lemma FourByteForm(bytes: seq<byte>)
    requires |bytes| == 4 == SequenceLength(bytes[0])
    requires IsContinuation(bytes[1]) && IsContinuation(bytes[2]) && IsContinuation(bytes[3])
    requires FromUtf8(bytes).Some?
    ensures FromUtf8(bytes).value >= 0x80 && Utf8(FromUtf8(bytes).value) == bytes
  {
    var b0: int, b1: int, b2: int, b3: int := bytes[0], bytes[1], bytes[2], bytes[3];
    SextetJoined(b0 - 0xF0, b1 - 0x80);
    SextetJoined((b0 - 0xF0) * 0x40 + (b1 - 0x80), b2 - 0x80);
    SextetJoined(((b0 - 0xF0) * 0x40 + (b1 - 0x80)) * 0x40 + (b2 - 0x80), b3 - 0x80);
  }

  lemma SextetJoined(n: int, c: int)
    requires 0 <= n && 0 <= c < 0x40
    ensures (n * 0x40 + c) / 0x40 == n && (n * 0x40 + c) % 0x40 == c
  {
  }

  /** A byte string that decodes and starts with a high byte starts with the UTF-8 of some scalar value. */
  lemma DecodableStart(bytes: seq<byte>) returns (cp: Scalar)
    requires bytes != [] && bytes[0] >= 0x80 && DecodeUriComponent(Escape(bytes)).Some?
    ensures cp >= 0x80 && |Utf8(cp)| <= |bytes| && bytes[..|Utf8(cp)|] == Utf8(cp)
  {
    EscapeLeadingByte(bytes);
    var n := SequenceLength(bytes[0]);
    EscapeLeadingBytes(bytes, n);
    var lead := LeadingBytes(Escape(bytes), n).value;
    FromUtf8Exact(lead);
    cp := FromUtf8(lead).value;
  }

  lemma Utf8TextOfScalar(cp: Scalar, rest: JsString)
    ensures Utf8Text(Utf16(cp) + rest) == Prepend(Utf8(cp), Utf8Text(rest))
  {
    var s := Utf16(cp) + rest;
    FirstScalarOf(cp, rest);
    assert s[|Utf16(cp)|..] == rest;
  }

  lemma FirstScalarOf(cp: Scalar, rest: JsString)
    ensures FirstScalar(Utf16(cp) + rest) == Some((cp, |Utf16(cp)|))
  {
  }

  /** What has decoded behind a scalar is UTF-8 with the scalar in front if it was without. */
  lemma DecodedBehind(cp: Scalar, rest: seq<byte>)
    requires var r := DecodeUriComponent(Escape(rest)); r.Some? ==> Utf8Text(r.value) == Some(rest)
    ensures var r := DecodeUriComponent(Escape(Utf8(cp) + rest)); r.Some? ==> Utf8Text(r.value) == Some(Utf8(cp) + rest)
  {
    DecodeEscapedScalar(cp, rest);
    var r := DecodeUriComponent(Escape(rest));
    if r.Some? {
      Utf8TextOfScalar(cp, r.value);
    }
  }

  lemma {:induction false} DecodedIsUtf8(bytes: seq<byte>)
    ensures var r := DecodeUriComponent(Escape(bytes)); r.Some? ==> Utf8Text(r.value) == Some(bytes)
    decreases |bytes|
  {
    if bytes != [] && DecodeUriComponent(Escape(bytes)).Some? {
      var cp: Scalar;
      if bytes[0] < 0x80 {
        cp := bytes[0];
      } else {
        cp := DecodableStart(bytes);
      }
      var rest := bytes[|Utf8(cp)|..];
      DecodedIsUtf8(rest);
      DecodedBehind(cp, rest);
      assert bytes == Utf8(cp) + rest;
    }
  }

  /** `decodeURIComponent(escape(b))` is `s` iff `b` is the UTF-8 of `s`: malformed, overlong and surrogate forms all throw. */
  lemma DecodesIffUtf8(bytes: seq<byte>, s: JsString)
    ensures DecodeUriComponent(Escape(bytes)) == Some(s) <==> Utf8Text(s) == Some(bytes)
  {
    DecodedIsUtf8(bytes);
    if Utf8Text(s) == Some(bytes) {
      EscapeThenDecode(s);
    }
  }

  // ---------------------------------------------------------------------------------------
  // The escapes themselves
  // ---------------------------------------------------------------------------------------

  lemma HexDigitIs(n: nat)
    requires n < 16
    ensures HexDigit(n) == "0123456789ABCDEF"[n] as int
  {
  }

  /** Hexadecimal digits are read in either case. */
  lemma HexValueIff(c: CodeUnit, v: nat)
    requires v < 16
    ensures HexValue(c) == Some(v) <==> c in {"0123456789ABCDEF"[v] as int, "0123456789abcdef"[v] as int}
  {
    HexDigitIs(v);
    assert "0123456789abcdef"[v] as int == if v < 10 then 48 + v else 87 + v;
  }

  /** Which characters the two functions leave alone, and how the others look, below and above 256. */
  lemma EscapeForms(c: CodeUnit)
    ensures PERCENT == '%' as int && LETTER_U == 'u' as int
    ensures IsAlphanumeric(c) <==> 'a' as int <= c <= 'z' as int || 'A' as int <= c <= 'Z' as int || '0' as int <= c <= '9' as int
    ensures IsUriUnreserved(c) <==>
              IsAlphanumeric(c) || c in {'-' as int, '_' as int, '.' as int, '!' as int, '~' as int, '*' as int, '\'' as int, '(' as int, ')' as int}
    ensures IsEscapeSafe(c) <==>
              IsAlphanumeric(c) || c in {'@' as int, '*' as int, '_' as int, '+' as int, '-' as int, '.' as int, '/' as int}
    ensures EscapeUnit(c) ==
              if IsEscapeSafe(c) then [c]
              else if c < 256 then ['%' as int, HexDigit(c / 16), HexDigit(c % 16)]
              else ['%' as int, 'u' as int, HexDigit(c / 4096), HexDigit(c / 256 % 16), HexDigit(c / 16 % 16), HexDigit(c % 16)]
  {
  }

  lemma HexValueOfDigit(n: nat)
    requires n < 16
    ensures HexValue(HexDigit(n)) == Some(n)
  {
  }

  lemma UnescapeLong(n0: nat, n1: nat, n2: nat, n3: nat, rest: JsString)
    requires n0 < 16 && n1 < 16 && n2 < 16 && n3 < 16
    ensures Unescape([PERCENT, LETTER_U, HexDigit(n0), HexDigit(n1), HexDigit(n2), HexDigit(n3)] + rest)
         == [((n0 * 16 + n1) * 16 + n2) * 16 + n3] + Unescape(rest)
  {
    var s := [PERCENT, LETTER_U, HexDigit(n0), HexDigit(n1), HexDigit(n2), HexDigit(n3)] + rest;
    HexValueOfDigit(n0);
    HexValueOfDigit(n1);
    HexValueOfDigit(n2);
    HexValueOfDigit(n3);
    assert s[6..] == rest;
  }

  lemma FourNibbles(c: CodeUnit)
    ensures c / 0x1000 < 16
    ensures ((c / 0x1000 * 16 + c / 0x100 % 16) * 16 + c / 16 % 16) * 16 + c % 16 == c
  {
    var q1, q2, q3 := c / 16, c / 0x100, c / 0x1000;
    assert q2 == q1 / 16 && q3 == q2 / 16;
  }

  lemma UnescapeLongUnit(c: CodeUnit, rest: JsString)
    requires c >= 256
    ensures Unescape(EscapeUnit(c) + rest) == [c] + Unescape(rest)
  {
    FourNibbles(c);
    UnescapeLong(c / 0x1000, c / 0x100 % 16, c / 16 % 16, c % 16, rest);
  }

  /** `unescape` undoes `escape`, for every string. */
  lemma {:induction false} UnescapeEscape(s: JsString)
    ensures Unescape(Escape(s)) == s
    decreases |s|
  {
    if s != [] {
      var rest := Escape(s[1..]);
      UnescapeEscape(s[1..]);
      if s[0] >= 256 {
        UnescapeLongUnit(s[0], rest);
      } else if IsEscapeSafe(s[0]) {
        assert ([s[0]] + rest)[1..] == rest;
      } else {
        UnescapePercentByte(s[0], rest);
      }
    }
  }

  /** How many bytes a sequence has, by the pattern of its first. */
  lemma LeadPatterns(lead: byte)
    ensures SequenceLength(lead) ==
              if lead / 128 == 0 then 1 else if lead / 32 == 6 then 2 else if lead / 16 == 14 then 3 else if lead / 8 == 30 then 4 else 0
  {
  }
}
