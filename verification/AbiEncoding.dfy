/**
 * The byte strings the two registries hash to obtain their identifiers.
 *
 * Accreditations use `abi.encodePacked` over fixed-width fields (Solidity Contract ABI
 * Specification, section "Non-standard Packed Mode"); credentials use `abi.encode`, whose
 * dynamic string goes to a length-prefixed, zero-padded tail (section "Formal Specification
 * of the Encoding").
 */
module AbiEncoding {
  import opened Evm

  function Pow256(width: nat): (p: nat)
    ensures p >= 1
  {
    if width == 0 then 1 else 256 * Pow256(width - 1)
  }

  function BigEndian(n: nat, width: nat): (s: seq<byte>)
    ensures |s| == width
  {
    if width == 0 then [] else BigEndian(n / 256, width - 1) + [n % 256]
  }

  function FromBigEndian(s: seq<byte>): nat {
    if s == [] then 0 else 256 * FromBigEndian(s[..|s| - 1]) + s[|s| - 1]
  }

  /** A number that fits its field is recovered from the field. */
  lemma {:induction false} BigEndianRoundTrip(n: nat, width: nat)
    requires n < Pow256(width)
    ensures FromBigEndian(BigEndian(n, width)) == n
  {
    if width > 0 {
      BigEndianRoundTrip(n / 256, width - 1);
      var s := BigEndian(n, width);
      assert s[..|s| - 1] == BigEndian(n / 256, width - 1);
    }
  }

  lemma FieldWidths()
    ensures Pow256(1) == 256
    ensures Pow256(20) == TWO_160
    ensures Pow256(32) == TWO_256
  {
    assert Pow256(10) == 0x1_0000000000_0000000000;
    assert Pow256(20) == TWO_160;
    assert Pow256(32) == TWO_256;
  }

  /** `s` is `n` written with the most significant byte first. */
  ghost predicate IsBigEndian(s: seq<byte>, n: nat) {
    forall i | 0 <= i < |s| :: s[i] == n / Pow256(|s| - 1 - i) % 256
  }

  /** `s` holds `n` in the `width` bytes from `at` on. */
  ghost predicate FieldAt(s: seq<byte>, at: nat, width: nat, n: nat) {
    at + width <= |s| && IsBigEndian(s[at..at + width], n)
  }

  lemma {:induction false} BigEndianDigits(n: nat, width: nat)
    ensures IsBigEndian(BigEndian(n, width), n)
  {
    if width > 0 {
      BigEndianDigits(n / 256, width - 1);
      var front := BigEndian(n / 256, width - 1);
      var s := BigEndian(n, width);
      forall i | 0 <= i < |s| ensures s[i] == n / Pow256(|s| - 1 - i) % 256 {
        if i < width - 1 {
          assert s[i] == front[i];
          DivideTwice(n, Pow256(width - 2 - i));
        }
      }
    }
  }

  lemma DivideTwice(n: nat, p: nat)
    requires p > 0
    ensures n / 256 / p == n / (256 * p)
  {
    var q, r := n / 256 / p, n / 256 % p;
    assert n / 256 == q * p + r;
    assert n == (q * p + r) * 256 + n % 256;
    assert n == q * (256 * p) + (r * 256 + n % 256);
    assert r * 256 + n % 256 < 256 * p;
    QuotientIs(n, 256 * p, q, r * 256 + n % 256);
  }

  lemma QuotientIs(n: nat, d: nat, q: nat, r: nat)
    requires d > 0 && r < d && n == q * d + r
    ensures n / d == q
  {
    var k: int := q - n / d;
    assert k * d == n % d - r;
    assert k >= 1 ==> k * d >= d;
    assert k <= -1 ==> k * d <= 0 - d;
  }

  /** A field keeps its contents inside a longer byte string. */
  lemma FieldInside(s: seq<byte>, at: nat, n: nat, width: nat)
    requires at + width <= |s| && s[at..at + width] == BigEndian(n, width)
    ensures FieldAt(s, at, width, n)
  {
    BigEndianDigits(n, width);
  }

  /** Two numbers written in the same field are equal when their bytes are. */
  lemma BigEndianInjective(n: nat, m: nat, width: nat)
    requires n < Pow256(width) && m < Pow256(width)
    requires BigEndian(n, width) == BigEndian(m, width)
    ensures n == m
  {
    BigEndianRoundTrip(n, width);
    BigEndianRoundTrip(m, width);
  }

  /** Equal byte strings that both end in a field of the same width agree on the field and on what precedes it. */
  lemma PeelLast(front: seq<byte>, n: nat, front': seq<byte>, n': nat, width: nat)
    requires n < Pow256(width) && n' < Pow256(width)
    requires front + BigEndian(n, width) == front' + BigEndian(n', width)
    ensures front == front' && n == n'
  {
    var s, s' := front + BigEndian(n, width), front' + BigEndian(n', width);
    assert front == s[..|s| - width] && front' == s'[..|s'| - width];
    assert BigEndian(n, width) == s[|s| - width..] && BigEndian(n', width) == s'[|s'| - width..];
    BigEndianInjective(n, n', width);
  }

  // ---- abi.encodePacked(address, address, uint8, bytes32, uint256) ----

  function PackAccreditation(
    sender: Address, subject: Address, scope: byte, permissionsHash: Bytes32, timestamp: Uint256
  ): (s: seq<byte>)
    ensures |s| == 105
  {
    BigEndian(sender, 20) + BigEndian(subject, 20) + BigEndian(scope, 1)
    + BigEndian(permissionsHash, 32) + BigEndian(timestamp, 32)
  }

  /** Where each input is, in the order of the arguments of `encodePacked`. */
  lemma PackAccreditationLayout(sender: Address, subject: Address, scope: byte, permissionsHash: Bytes32, timestamp: Uint256)
    ensures var s := PackAccreditation(sender, subject, scope, permissionsHash, timestamp);
            && |s| == 105
            && FieldAt(s, 0, 20, sender)
            && FieldAt(s, 20, 20, subject)
            && s[40] == scope
            && FieldAt(s, 41, 32, permissionsHash)
            && FieldAt(s, 73, 32, timestamp)
  {
    var f1, f2, f3 := BigEndian(sender, 20), BigEndian(subject, 20), BigEndian(scope, 1);
    var f4, f5 := BigEndian(permissionsHash, 32), BigEndian(timestamp, 32);
    FiveFields(f1, f2, f3, f4, f5);
    BigEndianDigits(sender, 20);
    BigEndianDigits(subject, 20);
    assert f3 == [scope];
    BigEndianDigits(permissionsHash, 32);
    BigEndianDigits(timestamp, 32);
  }

  lemma FiveFields(f1: seq<byte>, f2: seq<byte>, f3: seq<byte>, f4: seq<byte>, f5: seq<byte>)
    requires |f1| == |f2| == 20 && |f3| == 1 && |f4| == |f5| == 32
    ensures var s := f1 + f2 + f3 + f4 + f5;
            s[0..20] == f1 && s[20..40] == f2 && s[40] == f3[0] && s[41..73] == f4 && s[73..105] == f5
  {
  }

  lemma PackAccreditationInjective(
    sender: Address, subject: Address, scope: byte, permissionsHash: Bytes32, timestamp: Uint256,
    sender': Address, subject': Address, scope': byte, permissionsHash': Bytes32, timestamp': Uint256
  )
    requires PackAccreditation(sender, subject, scope, permissionsHash, timestamp)
          == PackAccreditation(sender', subject', scope', permissionsHash', timestamp')
    ensures sender == sender' && subject == subject' && scope == scope'
    ensures permissionsHash == permissionsHash' && timestamp == timestamp'
  {
    FieldWidths();
    var s1, s1' := BigEndian(sender, 20), BigEndian(sender', 20);
    var s2, s2' := s1 + BigEndian(subject, 20), s1' + BigEndian(subject', 20);
    var s3, s3' := s2 + BigEndian(scope, 1), s2' + BigEndian(scope', 1);
    var s4, s4' := s3 + BigEndian(permissionsHash, 32), s3' + BigEndian(permissionsHash', 32);
    PeelLast(s4, timestamp, s4', timestamp', 32);
    PeelLast(s3, permissionsHash, s3', permissionsHash', 32);
    PeelLast(s2, scope, s2', scope', 1);
    PeelLast(s1, subject, s1', subject', 20);
    BigEndianInjective(sender, sender', 20);
  }

  // ---- abi.encode(address, address, bytes32, string, uint256) ----

  function Zeros(n: nat): (s: seq<byte>)
    ensures |s| == n
  {
    seq(n, _ => 0)
  }

  /** Head of five words, the fourth being the offset of the tail, here always 5 * 32 bytes. */
  function EncodeCredentialHead(sender: Address, holder: Address, credentialHash: Bytes32, timestamp: Uint256): (s: seq<byte>)
    ensures |s| == 160
  {
    BigEndian(sender, 32) + BigEndian(holder, 32) + BigEndian(credentialHash, 32)
    + BigEndian(160, 32) + BigEndian(timestamp, 32)
  }

  /** Length word, then the bytes, zero-padded on the right to whole words. */
  function EncodeStringTail(text: Bytes): (s: seq<byte>)
    ensures |s| >= 32 + |text| && |s| % 32 == 0
  {
    BigEndian(|text|, 32) + text + Zeros((32 - |text| % 32) % 32)
  }

  function EncodeCredential(
    sender: Address, holder: Address, credentialHash: Bytes32, credentialType: Bytes, timestamp: Uint256
  ): (s: seq<byte>)
  {
    EncodeCredentialHead(sender, holder, credentialHash, timestamp) + EncodeStringTail(credentialType)
  }

  lemma HeadLayout(sender: Address, holder: Address, credentialHash: Bytes32, timestamp: Uint256)
    ensures var s := EncodeCredentialHead(sender, holder, credentialHash, timestamp);
            && FieldAt(s, 0, 32, sender)
            && FieldAt(s, 32, 32, holder)
            && FieldAt(s, 64, 32, credentialHash)
            && FieldAt(s, 96, 32, 160)
            && FieldAt(s, 128, 32, timestamp)
  {
    var w0, w1, w2 := BigEndian(sender, 32), BigEndian(holder, 32), BigEndian(credentialHash, 32);
    var w3, w4 := BigEndian(160, 32), BigEndian(timestamp, 32);
    FiveWords(w0, w1, w2, w3, w4);
    BigEndianDigits(sender, 32);
    BigEndianDigits(holder, 32);
    BigEndianDigits(credentialHash, 32);
    BigEndianDigits(160, 32);
    BigEndianDigits(timestamp, 32);
  }

  lemma FiveWords(w0: seq<byte>, w1: seq<byte>, w2: seq<byte>, w3: seq<byte>, w4: seq<byte>)
    requires |w0| == |w1| == |w2| == |w3| == |w4| == 32
    ensures var s := w0 + w1 + w2 + w3 + w4;
            s[0..32] == w0 && s[32..64] == w1 && s[64..96] == w2 && s[96..128] == w3 && s[128..160] == w4
  {
  }

  lemma TailLayout(text: Bytes)
    ensures var s := EncodeStringTail(text);
            && FieldAt(s, 0, 32, |text|)
            && |s| % 32 == 0 && 32 + |text| <= |s| < 32 + |text| + 32
            && s[32..32 + |text|] == text
            && forall i | 32 + |text| <= i < |s| :: s[i] == 0
  {
    FieldInside(EncodeStringTail(text), 0, |text|, 32);
  }

  /** A field of the front part is a field of the whole. */
  lemma FieldOfPrefix(front: seq<byte>, back: seq<byte>, at: nat, width: nat, n: nat)
    requires FieldAt(front, at, width, n)
    ensures FieldAt(front + back, at, width, n)
  {
    assert (front + back)[at..at + width] == front[at..at + width];
  }

  /**
   * Where each input is: five head words, in the order of the arguments of `encode`, the fourth saying where the
   * string is; there, its length, its bytes, and zeros up to a whole word.
   */
  lemma EncodeCredentialLayout(
    sender: Address, holder: Address, credentialHash: Bytes32, credentialType: Bytes, timestamp: Uint256
  )
    ensures var s := EncodeCredential(sender, holder, credentialHash, credentialType, timestamp);
            var n := |credentialType|;
            && FieldAt(s, 0, 32, sender)
            && FieldAt(s, 32, 32, holder)
            && FieldAt(s, 64, 32, credentialHash)
            && FieldAt(s, 96, 32, 160)
            && FieldAt(s, 128, 32, timestamp)
            && FieldAt(s, 160, 32, n)
            && |s| % 32 == 0 && 192 + n <= |s| < 192 + n + 32
            && s[192..192 + n] == credentialType
            && forall i | 192 + n <= i < |s| :: s[i] == 0
  {
    var s := EncodeCredential(sender, holder, credentialHash, credentialType, timestamp);
    var head, tail := EncodeCredentialHead(sender, holder, credentialHash, timestamp), EncodeStringTail(credentialType);
    HeadLayout(sender, holder, credentialHash, timestamp);
    FieldOfPrefix(head, tail, 0, 32, sender);
    FieldOfPrefix(head, tail, 32, 32, holder);
    FieldOfPrefix(head, tail, 64, 32, credentialHash);
    FieldOfPrefix(head, tail, 96, 32, 160);
    FieldOfPrefix(head, tail, 128, 32, timestamp);
    TailLayout(credentialType);
    TailInWhole(head, tail, credentialType);
  }

  lemma TailInWhole(head: seq<byte>, tail: seq<byte>, text: Bytes)
    requires |head| == 160 && FieldAt(tail, 0, 32, |text|)
    requires |tail| % 32 == 0 && 32 + |text| <= |tail| < 32 + |text| + 32
    requires tail[32..32 + |text|] == text && forall i | 32 + |text| <= i < |tail| :: tail[i] == 0
    ensures var s, n := head + tail, |text|;
            && FieldAt(s, 160, 32, n)
            && |s| % 32 == 0 && 192 + n <= |s| < 192 + n + 32
            && s[192..192 + n] == text
            && forall i | 192 + n <= i < |s| :: s[i] == 0
  {
    var s, n := head + tail, |text|;
    assert s[160..192] == tail[0..32];
    assert s[192..192 + n] == tail[32..32 + n];
  }

  lemma EncodeHeadInjective(
    sender: Address, holder: Address, credentialHash: Bytes32, timestamp: Uint256,
    sender': Address, holder': Address, credentialHash': Bytes32, timestamp': Uint256
  )
    requires EncodeCredentialHead(sender, holder, credentialHash, timestamp)
          == EncodeCredentialHead(sender', holder', credentialHash', timestamp')
    ensures sender == sender' && holder == holder' && credentialHash == credentialHash' && timestamp == timestamp'
  {
    FieldWidths();
    var s1, s1' := BigEndian(sender, 32), BigEndian(sender', 32);
    var s2, s2' := s1 + BigEndian(holder, 32), s1' + BigEndian(holder', 32);
    var s3, s3' := s2 + BigEndian(credentialHash, 32), s2' + BigEndian(credentialHash', 32);
    var s4, s4' := s3 + BigEndian(160, 32), s3' + BigEndian(160, 32);
    PeelLast(s4, timestamp, s4', timestamp', 32);
    PeelLast(s3, 160, s3', 160, 32);
    PeelLast(s2, credentialHash, s2', credentialHash', 32);
    PeelLast(s1, holder, s1', holder', 32);
    BigEndianInjective(sender, sender', 32);
  }

  lemma EncodeStringTailInjective(text: Bytes, text': Bytes)
    requires EncodeStringTail(text) == EncodeStringTail(text')
    ensures text == text'
  {
    var s := EncodeStringTail(text);
    var s' := EncodeStringTail(text');
    FieldWidths();
    assert s[0..32] == BigEndian(|text|, 32) && s'[0..32] == BigEndian(|text'|, 32);
    BigEndianInjective(|text|, |text'|, 32);
    assert s[32..32 + |text|] == text && s'[32..32 + |text'|] == text';
  }

  lemma EncodeCredentialInjective(
    sender: Address, holder: Address, credentialHash: Bytes32, credentialType: Bytes, timestamp: Uint256,
    sender': Address, holder': Address, credentialHash': Bytes32, credentialType': Bytes, timestamp': Uint256
  )
    requires EncodeCredential(sender, holder, credentialHash, credentialType, timestamp)
          == EncodeCredential(sender', holder', credentialHash', credentialType', timestamp')
    ensures sender == sender' && holder == holder' && credentialHash == credentialHash'
    ensures credentialType == credentialType' && timestamp == timestamp'
  {
    var s := EncodeCredential(sender, holder, credentialHash, credentialType, timestamp);
    var s' := EncodeCredential(sender', holder', credentialHash', credentialType', timestamp');
    assert s[..160] == EncodeCredentialHead(sender, holder, credentialHash, timestamp);
    assert s'[..160] == EncodeCredentialHead(sender', holder', credentialHash', timestamp');
    EncodeHeadInjective(sender, holder, credentialHash, timestamp, sender', holder', credentialHash', timestamp');
    assert s[160..] == EncodeStringTail(credentialType) && s'[160..] == EncodeStringTail(credentialType');
    EncodeStringTailInjective(credentialType, credentialType');
  }
}
