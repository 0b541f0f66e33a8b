/**
 * Node `Buffer` semantics the NTLM code relies on: little-endian integer fields,
 * NTLM security buffers, and the string encodings 'ascii', 'ucs2', 'utf8' and 'hex'.
 * JavaScript strings are sequences of UTF-16 code units, so `.length` is `|s|`.
 */
module Buffers {
  import opened Wrappers

  type byte = x: int | 0 <= x < 0x100
  type Bytes = seq<byte>
  type Bytes7 = b: Bytes | |b| == 7 witness [0, 0, 0, 0, 0, 0, 0]
  type Bytes8 = b: Bytes | |b| == 8 witness [0, 0, 0, 0, 0, 0, 0, 0]
  type Bytes16 = b: Bytes | |b| == 16 witness [0, 0, 0, 0, 0, 0, 0, 0, 0, 0, 0, 0, 0, 0, 0, 0]

  type u16 = x: int | 0 <= x < 0x1_0000
  type u32 = x: int | 0 <= x < 0x1_0000_0000

  /** One UTF-16 code unit of a JavaScript string. */
  type CodeUnit = u16
  type JsString = seq<CodeUnit>

  function Zeros(n: nat): (r: Bytes)
    ensures |r| == n
    ensures forall i :: 0 <= i < n ==> r[i] == 0
  {
    seq(n, _ => 0)
  }

  predicate AllZero(b: Bytes) {
    forall i :: 0 <= i < |b| ==> b[i] == 0
  }

  // ---------------------------------------------------------------------------
  // Little-endian integer fields (writeUInt16LE / writeUInt32LE and their readers)
  // ---------------------------------------------------------------------------

  function U16LE(v: u16): (r: Bytes)
    ensures |r| == 2
  {
    [v % 0x100, v / 0x100]
  }

  /** Four bytes, least significant first: the low 16-bit half, then the high one. */
  function U32LE(v: u32): (r: Bytes)
    ensures |r| == 4
  {
    U16LE(v % 0x1_0000) + U16LE(v / 0x1_0000)
  }

  /** readUInt16LE: defined only when both bytes lie in the buffer (Node throws otherwise). */
  function ReadU16LE(b: Bytes, at: nat): u16
    requires at + 2 <= |b|
  {
    b[at] as int + 0x100 * b[at + 1] as int
  }

  /** readUInt32LE: defined only when all four bytes lie in the buffer. */
  function ReadU32LE(b: Bytes, at: nat): u32
    requires at + 4 <= |b|
  {
    ReadU16LE(b, at) + 0x1_0000 * ReadU16LE(b, at + 2)
  }

  /** Reading a 16-bit field back yields the value written there. */
  lemma ReadU16LEOfWrite(b: Bytes, at: nat, v: u16)
    requires at + 2 <= |b| && b[at..at + 2] == U16LE(v)
    ensures ReadU16LE(b, at) == v
  {
    assert b[at] == b[at..at + 2][0];
    assert b[at + 1] == b[at..at + 2][1];
  }

  /** Reading a 32-bit field back yields the value written there. */
  lemma ReadU32LEOfWrite(b: Bytes, at: nat, v: u32)
    requires at + 4 <= |b| && b[at..at + 4] == U32LE(v)
    ensures ReadU32LE(b, at) == v
  {
    assert b[at..at + 2] == b[at..at + 4][0..2] == U16LE(v % 0x1_0000);
    assert b[at + 2..at + 4] == b[at..at + 4][2..4] == U16LE(v / 0x1_0000);
    ReadU16LEOfWrite(b, at, v % 0x1_0000);
    ReadU16LEOfWrite(b, at + 2, v / 0x1_0000);
  }

  /** A window into a region holding `l` holds the matching window of `l`. */
  lemma SubSlice(buf: Bytes, pos: nat, l: Bytes, a: nat, b: nat)
    requires pos + |l| <= |buf| && buf[pos..pos + |l|] == l
    requires a <= b <= |l|
    ensures buf[pos + a..pos + b] == l[a..b]
  {
    forall k | a <= k < b
      ensures buf[pos + k] == l[k]
    {
      assert buf[pos..pos + |l|][k] == buf[pos + k];
    }
  }

  /** The tail of a region holding `l` holds the tail of `l`. */
  lemma SubSliceTail(buf: Bytes, pos: nat, l: Bytes, a: nat)
    requires pos + |l| <= |buf| && buf[pos..pos + |l|] == l
    requires a <= |l|
    ensures buf[pos + a..pos + |l|] == l[a..]
  {
    SubSlice(buf, pos, l, a, |l|);
  }

  // ---------------------------------------------------------------------------
  // NTLM security buffers: (length, allocated length, offset)
  // ---------------------------------------------------------------------------

  /** The 8-byte security buffer the codec writes: length twice, then the offset. */
  function SecBuf(len: u16, offset: u32): (r: Bytes)
    ensures |r| == 8
  {
    U16LE(len) + U16LE(len) + U32LE(offset)
  }

  /** A receiver's view of the security buffer at `at`: the bytes it points to, if they lie in `msg`. */
  function SecBufData(msg: Bytes, at: nat): Option<Bytes>
    requires at + 8 <= |msg|
  {
    var len := ReadU16LE(msg, at);
    var off := ReadU32LE(msg, at + 4);
    if off + len <= |msg| then Some(msg[off..off + len]) else None
  }

  /** A security buffer written at `at` reads back as its length, allocated length and offset. */
  lemma SecBufFields(msg: Bytes, at: nat, len: u16, offset: u32)
    requires at + 8 <= |msg| && msg[at..at + 8] == SecBuf(len, offset)
    ensures ReadU16LE(msg, at) == len
    ensures ReadU16LE(msg, at + 2) == len
    ensures ReadU32LE(msg, at + 4) == offset
  {
    var f := SecBuf(len, offset);
    assert forall k | 0 <= k < 8 :: msg[at + k] == f[k];
  }

  /** Round trip: a security buffer describing bytes that sit where it says yields exactly those bytes. */
  lemma SecBufDataOfWrite(msg: Bytes, at: nat, data: Bytes, offset: nat)
    requires |data| < 0x1_0000 && offset < 0x1_0000_0000
    requires at + 8 <= |msg| && msg[at..at + 8] == SecBuf(|data|, offset)
    requires offset + |data| <= |msg| && msg[offset..offset + |data|] == data
    ensures SecBufData(msg, at) == Some(data)
  {
    SecBufFields(msg, at, |data|, offset);
  }

  // ---------------------------------------------------------------------------
  // String encodings
  // ---------------------------------------------------------------------------

  /** The two encodings a Type2 challenge can select. */
  datatype Encoding = Ascii | Ucs2

  /** Node's 'ascii' (latin1) string write: the low byte of each code unit. */
  function Latin1Bytes(s: JsString): (r: Bytes)
    ensures |r| == |s|
  {
    seq(|s|, i requires 0 <= i < |s| => s[i] % 0x100)
  }

  /** Node's 'ucs2' string write: each code unit as two little-endian bytes. */
  function Ucs2Bytes(s: JsString): (r: Bytes)
    ensures |r| == 2 * |s|
  {
    if s == [] then [] else U16LE(s[0]) + Ucs2Bytes(s[1..])
  }

  function EncodeText(e: Encoding, s: JsString): Bytes {
    match e
    case Ascii => Latin1Bytes(s)
    case Ucs2 => Ucs2Bytes(s)
  }

  /** The byte length the codec records for a string: its length, doubled for 'ucs2'. */
  function TextLength(e: Encoding, s: JsString): nat {
    if e == Ascii then |s| else 2 * |s|
  }

  lemma EncodeTextLength(e: Encoding, s: JsString)
    ensures |EncodeText(e, s)| == TextLength(e, s)
  {
  }

  /** Node's 'ascii' decoding: every byte with its top bit cleared. */
  function AsciiText(b: Bytes): (r: JsString)
    ensures |r| == |b|
    ensures forall i :: 0 <= i < |r| ==> r[i] < 0x80
  {
    seq(|b|, i requires 0 <= i < |b| => b[i] % 0x80)
  }

  /** Node's 'ucs2' decoding: little-endian byte pairs; an odd trailing byte is dropped. */
  function Ucs2Text(b: Bytes): (r: JsString)
    ensures |r| == |b| / 2
  {
    if |b| < 2 then [] else [ReadU16LE(b, 0)] + Ucs2Text(b[2..])
  }

  function DecodeText(e: Encoding, b: Bytes): JsString {
    match e
    case Ascii => AsciiText(b)
    case Ucs2 => Ucs2Text(b)
  }

  /** 'ucs2' decoding inverts 'ucs2' encoding for every string. */
  lemma {:induction false} Ucs2RoundTrip(s: JsString)
    ensures Ucs2Text(Ucs2Bytes(s)) == s
    decreases |s|
  {
    if s != [] {
      var b := Ucs2Bytes(s);
      assert b[..2] == U16LE(s[0]);
      ReadU16LEOfWrite(b, 0, s[0]);
      assert b[2..] == Ucs2Bytes(s[1..]);
      Ucs2RoundTrip(s[1..]);
      assert [s[0]] + s[1..] == s;
    }
  }

  predicate IsAsciiText(s: JsString) {
    forall i :: 0 <= i < |s| ==> s[i] < 0x80
  }

  /** 'ascii' decoding inverts 'ascii' encoding exactly for 7-bit strings. */
  lemma AsciiRoundTrip(s: JsString)
    ensures AsciiText(Latin1Bytes(s)) == s <==> IsAsciiText(s)
  {
    if IsAsciiText(s) {
      assert forall i | 0 <= i < |s| :: AsciiText(Latin1Bytes(s))[i] == s[i];
    }
  }

  /** Decoding undoes encoding whenever the text fits the encoding. */
  lemma DecodeEncodeText(e: Encoding, s: JsString)
    requires e == Ascii ==> IsAsciiText(s)
    ensures DecodeText(e, EncodeText(e, s)) == s
  {
    if e == Ascii {
      AsciiRoundTrip(s);
    } else {
      Ucs2RoundTrip(s);
    }
  }

  /** JavaScript `toUpperCase`, restricted to the ASCII letters. */
  function AsciiUpper(s: JsString): (r: JsString)
    ensures |r| == |s|
  {
    seq(|s|, i requires 0 <= i < |s| => if 'a' as int <= s[i] <= 'z' as int then s[i] - 32 else s[i])
  }

  /** Two strings that differ only in the case of ASCII letters. */
  predicate SameIgnoringCase(a: JsString, b: JsString) {
    AsciiUpper(a) == AsciiUpper(b)
  }

  // ---------------------------------------------------------------------------
  // 'utf8' string write
  // ---------------------------------------------------------------------------

  predicate IsHighSurrogate(u: CodeUnit) {
    0xD800 <= u <= 0xDBFF
  }

  predicate IsLowSurrogate(u: CodeUnit) {
    0xDC00 <= u <= 0xDFFF
  }

  /**
   * One step of Node's 'utf8' write: how many code units the first character
   * occupies and the bytes it becomes. A surrogate pair is one four-byte
   * character; a lone surrogate becomes U+FFFD.
   */
  function Utf8Char(s: JsString): (r: (nat, Bytes))
    requires s != []
    ensures 1 <= r.0 <= |s|
  {
    var u := s[0];
    if u < 0x80 then
      (1, [u])
    else if u < 0x800 then
      (1, [0xC0 + u / 0x40, 0x80 + u % 0x40])
    else if IsHighSurrogate(u) && |s| > 1 && IsLowSurrogate(s[1]) then
      var cp: int := 0x1_0000 + (u as int - 0xD800) * 0x400 + (s[1] as int - 0xDC00);
      (2, [0xF0 + cp / 0x4_0000, 0x80 + cp / 0x1000 % 0x40, 0x80 + cp / 0x40 % 0x40, 0x80 + cp % 0x40])
    else if IsHighSurrogate(u) || IsLowSurrogate(u) then
      (1, [0xEF, 0xBF, 0xBD])
    else
      (1, [0xE0 + u / 0x1000, 0x80 + u / 0x40 % 0x40, 0x80 + u % 0x40])
  }

  /** Node's 'utf8' write of a JavaScript string. */
  function Utf8(s: JsString): Bytes
    decreases |s|
  {
    if s == [] then []
    else
      var (n, bytes) := Utf8Char(s);
      bytes + Utf8(s[n..])
  }

  /** A 7-bit byte comes out of one character exactly when that character is that byte. */
  lemma Utf8CharAsciiByte(s: JsString, c: byte)
    requires s != [] && c < 0x80
    ensures c in Utf8Char(s).1 <==> c in s[..Utf8Char(s).0]
  {
  }

  /** A 7-bit byte occurs in the UTF-8 form exactly when that character occurs in the string. */
  lemma {:induction false} Utf8AsciiByte(s: JsString, c: byte)
    requires c < 0x80
    ensures c in Utf8(s) <==> c in s
    decreases |s|
  {
    if s != [] {
      var (n, bytes) := Utf8Char(s);
      Utf8CharAsciiByte(s, c);
      Utf8AsciiByte(s[n..], c);
      assert s == s[..n] + s[n..];
    }
  }

  /** The first character is decided by at most its first two code units, and a unit that is not a low surrogate cannot extend it. */
  lemma Utf8CharPrefix(a: JsString, rest: JsString)
    requires a != [] && (rest == [] || !IsLowSurrogate(rest[0]))
    ensures Utf8Char(a + rest) == Utf8Char(a)
  {
    if |a| == 1 && rest != [] {
      assert (a + rest)[1] == rest[0];
    } else if |a| > 1 {
      assert (a + rest)[1] == a[1];
    }
  }

  /** An ASCII character splits the UTF-8 form: the encoding of what precedes it is unaffected. */
  lemma {:induction false} Utf8SplitsAtAscii(a: JsString, u: CodeUnit, b: JsString)
    requires u < 0x80
    ensures Utf8(a + [u] + b) == Utf8(a) + [u] + Utf8(b)
    decreases |a|
  {
    var s := a + [u] + b;
    if a == [] {
      assert s == [u] + b;
      assert s[1..] == b;
    } else {
      Utf8CharPrefix(a, [u] + b);
      assert s == a + ([u] + b);
      var (n, bytes) := Utf8Char(a);
      assert s[n..] == a[n..] + [u] + b;
      Utf8SplitsAtAscii(a[n..], u, b);
      calc {
        Utf8(s);
        bytes + Utf8(a[n..] + [u] + b);
        bytes + (Utf8(a[n..]) + [u] + Utf8(b));
        (bytes + Utf8(a[n..])) + [u] + Utf8(b);
        Utf8(a) + [u] + Utf8(b);
      }
    }
  }

  // ---------------------------------------------------------------------------
  // 'base64'
  // ---------------------------------------------------------------------------

  /** Node's 'base64' encoding and (lenient) decoding, supplied as functions. */
  datatype Base64 = Base64(encode: Bytes -> string, decode: string -> Bytes)

  // ---------------------------------------------------------------------------
  // 'hex' strings
  // ---------------------------------------------------------------------------

  type Nibble = x: int | 0 <= x < 16

  /** The digit `Number.prototype.toString(16)` prints for a value below 16. */
  function HexDigit(n: Nibble): char {
    if n < 10 then ('0' as int + n) as char else ('a' as int + n - 10) as char
  }

  predicate IsHexChar(c: char) {
    '0' <= c <= '9' || 'a' <= c <= 'f' || 'A' <= c <= 'F'
  }

  function HexValue(c: char): Nibble
    requires IsHexChar(c)
  {
    if '0' <= c <= '9' then c as int - '0' as int
    else if 'a' <= c <= 'f' then c as int - 'a' as int + 10
    else c as int - 'A' as int + 10
  }

  /** Printing a digit and parsing it back is the identity. */
  lemma HexDigitRoundTrip(n: Nibble)
    ensures IsHexChar(HexDigit(n)) && HexValue(HexDigit(n)) == n
  {
  }

  predicate IsHexString(s: string) {
    forall i :: 0 <= i < |s| ==> IsHexChar(s[i])
  }

  /** Node's 'hex' write of a well-formed hex string: one byte per pair of digits. */
  function HexBytes(s: string): (r: Bytes)
    requires IsHexString(s) && |s| % 2 == 0
    ensures |r| == |s| / 2
  {
    seq(|s| / 2, i requires 0 <= i < |s| / 2 => HexValue(s[2 * i]) * 16 + HexValue(s[2 * i + 1]))
  }
}
