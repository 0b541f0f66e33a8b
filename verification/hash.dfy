/**
 * Password hashes and challenge responses (LM, NTLM, LMv2, NTLMv2) and the DES key
 * schedule preparation they share. The block cipher, MD4 and HMAC-MD5 are supplied
 * as a `Crypto` value: the model fixes only their output lengths.
 */
module Hash {
  import opened Wrappers
  import opened Buffers

  // ---------------------------------------------------------------------------
  // Opaque primitives
  // ---------------------------------------------------------------------------

  /** DES key material as bit-vectors: 7 secret bytes before, 8 key bytes after expansion. */
  type Key7 = k: seq<bv8> | |k| == 7 witness [0, 0, 0, 0, 0, 0, 0]
  type Key8 = k: seq<bv8> | |k| == 8 witness [0, 0, 0, 0, 0, 0, 0, 0]

  /** The cryptographic primitives the original takes from Node's `crypto` module. */
  datatype Crypto = Crypto(
    /** DES-ECB encryption of one 8-byte block under an 8-byte key. */
    des: (Key8, Bytes8) -> Bytes8,
    /** MD4 digest. */
    md4: Bytes -> Bytes16,
    /** HMAC-MD5 digest under a key. */
    hmacMd5: (Bytes, Bytes) -> Bytes16)

  // ---------------------------------------------------------------------------
  // DES key expansion (calculateDES)
  // ---------------------------------------------------------------------------

  /** Bit `j` (0 = least significant) of a byte. */
  predicate Bit(b: bv8, j: nat)
    requires j < 8
  {
    match j
    case 0 => b & 0x01 != 0
    case 1 => b & 0x02 != 0
    case 2 => b & 0x04 != 0
    case 3 => b & 0x08 != 0
    case 4 => b & 0x10 != 0
    case 5 => b & 0x20 != 0
    case 6 => b & 0x40 != 0
    case _ => b & 0x80 != 0
  }

  /** The original's `(b >> j) % 2` reads bit `j`. */
  lemma ShiftedLowBit(b: bv8, j: nat)
    requires j < 8
    ensures ((b >> j) % 2) as int == if Bit(b, j) then 1 else 0
  {
    assert (b >> j) % 2 == if Bit(b, j) then 1 else 0;
  }

  /** The 56→64-bit spread: each output byte takes the next 7 input bits in its top 7 bits. */
  function SpreadKey(k: Key7): Key8 {
    [k[0] & 0xFE,
     (k[0] << 7) | (k[1] >> 1),
     (k[1] << 6) | (k[2] >> 2),
     (k[2] << 5) | (k[3] >> 3),
     (k[3] << 4) | (k[4] >> 4),
     (k[4] << 3) | (k[5] >> 5),
     (k[5] << 2) | (k[6] >> 6),
     k[6] << 1]
  }

  /** The number of set bits among positions lo .. hi-1. */
  function Ones(b: bv8, lo: nat, hi: nat): nat
    requires lo <= hi <= 8
    decreases hi - lo
  {
    if lo == hi then 0 else Ones(b, lo, hi - 1) + (if Bit(b, hi - 1) then 1 else 0)
  }

  /** The parity step: set bit 0 when bits 7..1 hold an even number of ones; never clear it. */
  function AdjustParity(b: bv8): bv8 {
    if Ones(b, 1, 8) % 2 == 0 then b | 1 else b
  }

  /** The DES key the original builds from 7 bytes of key material. */
  function DesKey(k: Key7): Key8 {
    seq(8, i requires 0 <= i < 8 => AdjustParity(SpreadKey(k)[i]))
  }

  /** The inner loop as written: add up `(b >> j) % 2` for j = 1..7. */
  method CountHighOnes(b: bv8) returns (parity: nat)
    ensures parity == Ones(b, 1, 8)
  {
    parity := 0;
    for j := 1 to 8
      invariant parity == Ones(b, 1, j)
    {
      ShiftedLowBit(b, j);
      parity := parity + ((b >> j) % 2) as int;
    }
  }

  /** The parity loop as written: count bits 1..7 of each byte and OR in the parity bit. */
  method SetParity(spread: Key8) returns (key: Key8)
    ensures forall i :: 0 <= i < 8 ==> key[i] == AdjustParity(spread[i])
  {
    key := spread;
    for i := 0 to 8
      invariant forall k :: 0 <= k < i ==> key[k] == AdjustParity(spread[k])
      invariant forall k :: i <= k < 8 ==> key[k] == spread[k]
    {
      var parity := CountHighOnes(key[i]);
      key := key[i := key[i] | (if parity % 2 == 0 then 1 else 0)];
    }
  }

  /** The 56 bits of key material as one number, first byte most significant. */
  function Material(k: Key7): bv56 {
    (k[0] as bv56 << 48) | (k[1] as bv56 << 40) | (k[2] as bv56 << 32) | (k[3] as bv56 << 24)
    | (k[4] as bv56 << 16) | (k[5] as bv56 << 8) | k[6] as bv56
  }

  /** Bits 7..1 of eight key bytes concatenated in order, first byte most significant. */
  function Carried(key: Key8): bv56 {
    ((key[0] >> 1) as bv56 << 49) | ((key[1] >> 1) as bv56 << 42) | ((key[2] >> 1) as bv56 << 35)
    | ((key[3] >> 1) as bv56 << 28) | ((key[4] >> 1) as bv56 << 21) | ((key[5] >> 1) as bv56 << 14)
    | ((key[6] >> 1) as bv56 << 7) | (key[7] >> 1) as bv56
  }

  /** The parity step only ever touches bit 0. */
  lemma AdjustParityKeepsHighBits(b: bv8)
    ensures AdjustParity(b) >> 1 == b >> 1
    ensures Bit(b, 0) ==> AdjustParity(b) == b
  {
  }

  /** The spread places the 56 input bits, in order, in bits 7..1 of the eight bytes. */
  lemma SpreadCarriesMaterial(k: Key7)
    ensures Carried(SpreadKey(k)) == Material(k)
  {
  }

  /** Bits 7..1 of the eight DES key bytes, read in order, are exactly the 56 input bits. */
  lemma DesKeyCarriesMaterial(k: Key7)
    ensures Carried(DesKey(k)) == Material(k)
  {
    var s := SpreadKey(k);
    var d := DesKey(k);
    forall i | 0 <= i < 8
      ensures d[i] >> 1 == s[i] >> 1
    {
      AdjustParityKeepsHighBits(s[i]);
    }
    SpreadCarriesMaterial(k);
    assert Carried(d) == Carried(s);
  }

  /** Distinct key material gives distinct DES keys. */
  lemma DesKeyInjective(k: Key7, l: Key7)
    ensures DesKey(k) == DesKey(l) <==> k == l
  {
    if DesKey(k) == DesKey(l) {
      DesKeyCarriesMaterial(k);
      DesKeyCarriesMaterial(l);
      MaterialInjective(k, l);
    }
  }

  /** Each input byte can be read back out of the material. */
  lemma MaterialBytes(k: Key7)
    ensures Material(k) >> 48 == k[0] as bv56
    ensures (Material(k) >> 40) & 0xFF == k[1] as bv56
    ensures (Material(k) >> 32) & 0xFF == k[2] as bv56
    ensures (Material(k) >> 24) & 0xFF == k[3] as bv56
    ensures (Material(k) >> 16) & 0xFF == k[4] as bv56
    ensures (Material(k) >> 8) & 0xFF == k[5] as bv56
    ensures Material(k) & 0xFF == k[6] as bv56
  {
  }

  lemma WidenInjective(x: bv8, y: bv8)
    requires x as bv56 == y as bv56
    ensures x == y
  {
    assert (x as bv56) as bv8 == x;
    assert (y as bv56) as bv8 == y;
  }

  /** The material loses nothing: distinct key material gives distinct 56-bit values. */
  lemma MaterialInjective(k: Key7, l: Key7)
    requires Material(k) == Material(l)
    ensures k == l
  {
    MaterialBytes(k);
    MaterialBytes(l);
    forall i | 0 <= i < 7
      ensures k[i] == l[i]
    {
      WidenInjective(k[i], l[i]);
    }
  }

  lemma {:induction false} OnesSplitLowBit(b: bv8, hi: nat)
    requires 1 <= hi <= 8
    ensures Ones(b, 0, hi) == (if Bit(b, 0) then 1 else 0) + Ones(b, 1, hi)
    decreases hi
  {
    if hi > 1 {
      OnesSplitLowBit(b, hi - 1);
    }
  }

  lemma {:induction false} OnesSameHighBits(x: bv8, y: bv8, hi: nat)
    requires 1 <= hi <= 8
    requires forall j :: 1 <= j < 8 ==> Bit(x, j) == Bit(y, j)
    ensures Ones(x, 1, hi) == Ones(y, 1, hi)
    decreases hi
  {
    if hi > 1 {
      OnesSameHighBits(x, y, hi - 1);
    }
  }

  /** Bit 0 ends up set whenever bits 7..1 hold an even number of ones. */
  lemma AdjustParitySetsLowBit(b: bv8)
    ensures Ones(b, 1, 8) % 2 == 0 ==> Bit(AdjustParity(b), 0)
  {
  }

  lemma OrOneKeepsBit(b: bv8, j: nat)
    requires 1 <= j < 8
    ensures Bit(b | 1, j) == Bit(b, j)
  {
  }

  /** A byte whose bit 0 starts clear ends with an odd number of ones. */
  lemma AdjustParityOddWhenLowBitClear(b: bv8)
    requires !Bit(b, 0)
    ensures Ones(AdjustParity(b), 0, 8) % 2 == 1
  {
    var a := AdjustParity(b);
    forall j | 1 <= j < 8
      ensures Bit(a, j) == Bit(b, j)
    {
      OrOneKeepsBit(b, j);
    }
    OnesSameHighBits(a, b, 8);
    OnesSplitLowBit(a, 8);
  }

  /** Key bytes 0 and 7 start with bit 0 clear, so they always end with odd parity. */
  lemma DesKeyOuterBytesOdd(k: Key7)
    ensures Ones(DesKey(k)[0], 0, 8) % 2 == 1
    ensures Ones(DesKey(k)[7], 0, 8) % 2 == 1
  {
    AdjustParityOddWhenLowBitClear(SpreadKey(k)[0]);
    AdjustParityOddWhenLowBitClear(SpreadKey(k)[7]);
  }

  /**
   * Bytes 1..6 keep a stray input bit in bit 0 that the OR cannot clear: key material
   * 00 06 00 00 00 00 00 gives key byte 1 = 0x03, which has even parity.
   */
  lemma DesKeyInnerByteMayBeEven()
    ensures DesKey([0, 6, 0, 0, 0, 0, 0])[1] == 0x03
    ensures Ones(DesKey([0, 6, 0, 0, 0, 0, 0])[1], 0, 8) % 2 == 0
  {
  }

  /** The 7 bytes of key material taken from a byte buffer. */
  function KeyOf(b: Bytes7): Key7 {
    seq(7, i requires 0 <= i < 7 => b[i] as bv8)
  }

  /**
   * `calculateDES`: Node's `update` on a DES-ECB cipher. An 8-byte message yields its
   * encryption; a shorter one is held back by the cipher and yields nothing.
   */
  function CalculateDes(c: Crypto, key: Bytes7, message: Bytes): (r: Bytes)
    requires |message| <= 8
    ensures |r| == if |message| == 8 then 8 else 0
  {
    if |message| == 8 then c.des(DesKey(KeyOf(key)), message) else []
  }

  // ---------------------------------------------------------------------------
  // LM and NTLM (v1)
  // ---------------------------------------------------------------------------

  /** "KGS!@#$%" */
  const LmMagic: Bytes8 := [0x4B, 0x47, 0x53, 0x21, 0x40, 0x23, 0x24, 0x25]

  /** The 14-byte LM password buffer: upper-cased, written as 'ascii', zero-padded. */
  function LmPasswordBlock(password: JsString): (r: Bytes)
    requires |password| <= 14
    ensures |r| == 14
  {
    Latin1Bytes(AsciiUpper(password)) + Zeros(14 - |password|)
  }

  /** Byte `j` of half `h` of the LM password buffer, described character by character. */
  function LmKeyHalf(password: JsString, h: nat): (r: Bytes7)
    requires h < 2
  {
    seq(7, j requires 0 <= j < 7 =>
      var p := 7 * h + j;
      if p < |password| then AsciiUpper(password)[p] % 0x100 else 0)
  }

  /** `createLMHash`: 16 zero bytes beyond 14 characters, else two DES encryptions of the magic. */
  function LMHash(c: Crypto, password: JsString): (r: Bytes16)
    ensures |password| > 14 ==> r == Zeros(16)
    ensures |password| <= 14 ==>
      && r[..8] == c.des(DesKey(KeyOf(LmKeyHalf(password, 0))), LmMagic)
      && r[8..] == c.des(DesKey(KeyOf(LmKeyHalf(password, 1))), LmMagic)
  {
    if |password| > 14 then Zeros(16)
    else
      var block := LmPasswordBlock(password);
      assert block[..7] == LmKeyHalf(password, 0);
      assert block[7..] == LmKeyHalf(password, 1);
      CalculateDes(c, block[..7], LmMagic) + CalculateDes(c, block[7..], LmMagic)
  }

  /** The LM hash does not see the case of ASCII letters. */
  lemma LMHashIgnoresCase(c: Crypto, p: JsString, q: JsString)
    requires SameIgnoringCase(p, q)
    ensures LMHash(c, p) == LMHash(c, q)
  {
    assert |p| == |AsciiUpper(p)| == |q|;
    if |p| <= 14 {
      assert LmKeyHalf(p, 0) == LmKeyHalf(q, 0);
      assert LmKeyHalf(p, 1) == LmKeyHalf(q, 1);
    }
  }

  /** `createNTLMHash`: MD4 over the password's 'ucs2' bytes. */
  function NTHash(c: Crypto, password: JsString): Bytes16 {
    c.md4(Ucs2Bytes(password))
  }

  /** Key `i` of a challenge response: bytes 7i .. 7i+6 of the hash zero-padded to 21 bytes. */
  function ResponseKey(hash: Bytes16, i: nat): (r: Bytes7)
    requires i < 3
  {
    seq(7, j requires 0 <= j < 7 => if 7 * i + j < 16 then hash[7 * i + j] else 0)
  }

  /** One 8-byte slot of a response buffer: whatever DES produced, over a zeroed slot. */
  function Slot(out: Bytes): (r: Bytes8)
    requires |out| <= 8
  {
    out + Zeros(8 - |out|)
  }

  /**
   * `createLMResponse` and `createNTLMResponse` (the same function): the 16-byte hash is
   * zero-padded to 21 bytes and each 7-byte third keys one DES encryption of the challenge.
   */
  function ChallengeResponse(c: Crypto, challenge: Bytes, hash: Bytes16): (r: Bytes)
    requires |challenge| <= 8
    ensures |r| == 24
    ensures forall i :: 0 <= i < 3 ==>
      r[8 * i..8 * i + 8] == if |challenge| == 8 then c.des(DesKey(KeyOf(ResponseKey(hash, i))), challenge) else Zeros(8)
  {
    var padded := hash + Zeros(5);
    assert padded[0..7] == ResponseKey(hash, 0);
    assert padded[7..14] == ResponseKey(hash, 1);
    assert padded[14..21] == ResponseKey(hash, 2);
    var r := Slot(CalculateDes(c, padded[0..7], challenge))
      + Slot(CalculateDes(c, padded[7..14], challenge))
      + Slot(CalculateDes(c, padded[14..21], challenge));
    assert r[0..8] == Slot(CalculateDes(c, padded[0..7], challenge));
    assert r[8..16] == Slot(CalculateDes(c, padded[7..14], challenge));
    assert r[16..24] == Slot(CalculateDes(c, padded[14..21], challenge));
    r
  }

  /** The third response key holds the hash's last two bytes followed by five zero bytes. */
  lemma ThirdKeyIsMostlyPadding(hash: Bytes16)
    ensures ResponseKey(hash, 2) == hash[14..16] + Zeros(5)
  {
  }

  // ---------------------------------------------------------------------------
  // LMv2 and NTLMv2
  // ---------------------------------------------------------------------------

  /** `createNTLMv2Hash`: HMAC-MD5 under the NTLM hash of 'ucs2'(upper(user) + target). */
  function NTLMv2Hash(c: Crypto, ntHash: Bytes16, user: JsString, target: JsString): Bytes16 {
    c.hmacMd5(ntHash, Ucs2Bytes(AsciiUpper(user) + target))
  }

  /** The v2 hash does not see the case of ASCII letters in the user name. */
  lemma NTLMv2HashIgnoresUserCase(c: Crypto, ntHash: Bytes16, u: JsString, v: JsString, target: JsString)
    requires SameIgnoringCase(u, v)
    ensures NTLMv2Hash(c, ntHash, u, target) == NTLMv2Hash(c, ntHash, v, target)
  {
  }

  /** A client nonce: the 16 hex digits `createPseudoRandomValue(16)` yields. */
  type HexNonce = s: string | |s| == 16 && IsHexString(s) witness "0000000000000000"

  /** The server challenge copied into an 8-byte zeroed slot. */
  function ChallengeSlot(challenge: Bytes): (r: Bytes8)
    requires |challenge| <= 8
  {
    Slot(challenge)
  }

  /** `createLMv2Response`: HMAC of challenge and client nonce, followed by the nonce. */
  function LMv2Response(c: Crypto, challenge: Bytes, user: JsString, ntHash: Bytes16, nonce: HexNonce,
                        target: JsString): (r: Bytes)
    requires |challenge| <= 8
    ensures |r| == 24
    ensures r[16..] == HexBytes(nonce)
    ensures r[..16] == c.hmacMd5(NTLMv2Hash(c, ntHash, user, target), ChallengeSlot(challenge) + r[16..])
  {
    var clientNonce := HexBytes(nonce);
    var digest := c.hmacMd5(NTLMv2Hash(c, ntHash, user, target), ChallengeSlot(challenge) + clientNonce);
    assert (digest + clientNonce)[16..] == clientNonce;
    digest + clientNonce
  }

  /** Milliseconds from 1601-01-01 to 1970-01-01, the offset the original adds to `Date.now()`. */
  const EpochOffsetMs: nat := 11644473600000

  /** The blob timestamp in 100-nanosecond ticks since 1601, computed exactly. */
  function FileTime(nowMs: nat): nat {
    (nowMs + EpochOffsetMs) * 10000
  }

  /**
   * The eight timestamp bytes: the last eight hex digits of the tick count are written
   * as the low 32-bit word at offset 24, the leading digits as the high word at 28.
   */
  function TimestampBytes(ticks: nat): (r: Bytes8)
    requires ticks < 0x1_0000_0000_0000_0000
  {
    U32LE(ticks % 0x1_0000_0000) + U32LE(ticks / 0x1_0000_0000)
  }

  /** The two words read back give the tick count: low word plus 2^32 times the high word. */
  lemma TimestampReadsBack(ticks: nat)
    requires ticks < 0x1_0000_0000_0000_0000
    ensures ReadU32LE(TimestampBytes(ticks), 0) + 0x1_0000_0000 * ReadU32LE(TimestampBytes(ticks), 4) == ticks
  {
    var t := TimestampBytes(ticks);
    assert t[0..4] == U32LE(ticks % 0x1_0000_0000);
    assert t[4..8] == U32LE(ticks / 0x1_0000_0000);
    ReadU32LEOfWrite(t, 0, ticks % 0x1_0000_0000);
    ReadU32LEOfWrite(t, 4, ticks / 0x1_0000_0000);
  }

  /** The NTLMv2 blob signature 0x01010000, written big-endian. */
  const BlobSignature: Bytes := [0x01, 0x01, 0x00, 0x00]

  /** The NTLMv2 blob: signature, reserved, timestamp, nonce, zero, target info, zero. */
  function Blob(timestamp: Bytes8, nonce: HexNonce, targetInfo: Bytes): (r: Bytes)
    ensures |r| == 32 + |targetInfo|
  {
    BlobSignature + Zeros(4) + timestamp + HexBytes(nonce) + Zeros(4) + targetInfo + Zeros(4)
  }

  /**
   * `createNTLMv2Response`: a buffer of 48 + |targetInfo| bytes whose first 16 bytes are the
   * HMAC over the challenge and the blob; the digest overwrites the challenge placed at 8..15.
   */
  function NTLMv2Response(c: Crypto, challenge: Bytes, user: JsString, ntHash: Bytes16, nonce: HexNonce,
                          target: JsString, targetInfo: Bytes, timestamp: Bytes8): (r: Bytes)
    requires |challenge| <= 8
    ensures |r| == 48 + |targetInfo|
    ensures r[16..20] == BlobSignature
    ensures AllZero(r[20..24])
    ensures r[24..32] == timestamp
    ensures r[32..40] == HexBytes(nonce)
    ensures AllZero(r[40..44])
    ensures r[44..44 + |targetInfo|] == targetInfo
    ensures AllZero(r[44 + |targetInfo|..])
    ensures r[..16] == c.hmacMd5(NTLMv2Hash(c, ntHash, user, target), ChallengeSlot(challenge) + r[16..])
  {
    var blob := Blob(timestamp, nonce, targetInfo);
    var digest := c.hmacMd5(NTLMv2Hash(c, ntHash, user, target), ChallengeSlot(challenge) + blob);
    var r := digest + blob;
    assert r[16..] == blob;
    assert r[16..20] == blob[0..4];
    assert r[20..24] == blob[4..8];
    assert r[24..32] == blob[8..16];
    assert r[32..40] == blob[16..24];
    assert r[40..44] == blob[24..28];
    assert r[44..44 + |targetInfo|] == blob[28..28 + |targetInfo|];
    assert r[44 + |targetInfo|..] == blob[28 + |targetInfo|..];
    r
  }

  // ---------------------------------------------------------------------------
  // Client nonce
  // ---------------------------------------------------------------------------

  /**
   * `createPseudoRandomValue`: hex digits appended until `length` is reached; `draws`
   * are the successive values of `Math.floor(Math.random() * 16)`.
   */
  function PseudoRandomValue(length: int, draws: seq<Nibble>): (r: string)
    requires |draws| >= length
    ensures |r| == if length <= 0 then 0 else length
    ensures forall i :: 0 <= i < |r| ==> r[i] == HexDigit(draws[i])
  {
    if length <= 0 then "" else PseudoRandomValue(length - 1, draws) + [HexDigit(draws[length - 1])]
  }

  /** Every character of a pseudo-random value is a hex digit. */
  lemma PseudoRandomValueIsHex(length: int, draws: seq<Nibble>)
    requires |draws| >= length
    ensures IsHexString(PseudoRandomValue(length, draws))
  {
    var r := PseudoRandomValue(length, draws);
    forall i | 0 <= i < |r|
      ensures IsHexChar(r[i])
    {
      HexDigitRoundTrip(draws[i]);
    }
  }

  /** The nonce Type3 construction draws, as a 16-digit hex string. */
  function NonceOf(draws: seq<Nibble>): HexNonce
    requires |draws| == 16
  {
    PseudoRandomValueIsHex(16, draws);
    PseudoRandomValue(16, draws)
  }

  /** Writing the nonce as 'hex' gives back the drawn digits, two per byte. */
  lemma NonceBytesFromDraws(draws: seq<Nibble>)
    requires |draws| == 16
    ensures forall i :: 0 <= i < 8 ==> HexBytes(NonceOf(draws))[i] == draws[2 * i] as int * 16 + draws[2 * i + 1] as int
  {
    forall i | 0 <= i < 8
      ensures HexBytes(NonceOf(draws))[i] == draws[2 * i] as int * 16 + draws[2 * i + 1] as int
    {
      HexDigitRoundTrip(draws[2 * i]);
      HexDigitRoundTrip(draws[2 * i + 1]);
    }
  }
}
