/**
 * The client's first messages: the Basic authorization header and the NTLM Type1
 * (negotiate) token. Base64 is a parameter; `os.hostname()` is passed in as `hostname`.
 */
module Ntlm {
  import opened Wrappers
  import opened Buffers
  import opened Flags
  import opened Type2

  // ---------------------------------------------------------------------------
  // Basic
  // ---------------------------------------------------------------------------

  const Colon: CodeUnit := 0x3A

  const BasicPrefix: string := "Basic "

  /** The credentials Basic sends: 'utf8'(user + ':' + password). */
  function BasicCredentials(user: JsString, password: JsString): (r: Bytes)
    ensures r == Utf8(user) + [Colon] + Utf8(password)
  {
    Utf8SplitsAtAscii(user, Colon, password);
    Utf8(user + [Colon] + password)
  }

  /** `createBasicMessage`: "Basic " followed by the base64 of the credentials. */
  function CreateBasicMessage(b64: Base64, user: JsString, password: JsString): (r: string)
    ensures |r| >= 6 && r[..6] == BasicPrefix
    ensures r[6..] == b64.encode(Utf8(user) + [Colon] + Utf8(password))
  {
    BasicPrefix + b64.encode(BasicCredentials(user, password))
  }

  /** How a server reads Basic credentials: everything before the first colon is the user id. */
  function SplitAtColon(b: Bytes): (r: (Bytes, Bytes))
    ensures Colon !in r.0
    ensures r.0 == b || r.0 + [Colon] + r.1 == b
    decreases |b|
  {
    if b == [] then ([], [])
    else if b[0] == Colon then ([], b[1..])
    else
      var (x, y) := SplitAtColon(b[1..]);
      assert x == b[1..] || x + [Colon] + y == b[1..];
      ([b[0]] + x, y)
  }

  /** A colon-free prefix followed by a colon splits exactly there. */
  lemma {:induction false} SplitAtColonOf(x: Bytes, y: Bytes)
    requires Colon !in x
    ensures SplitAtColon(x + [Colon] + y) == (x, y)
    decreases |x|
  {
    var b := x + [Colon] + y;
    if x == [] {
      assert b == [Colon] + y;
      assert b[1..] == y;
    } else {
      assert b[0] == x[0];
      assert b[1..] == x[1..] + [Colon] + y;
      SplitAtColonOf(x[1..], y);
      assert [x[0]] + x[1..] == x;
    }
  }

  /**
   * The credentials are recoverable: a server splitting the decoded bytes at the first
   * colon gets back the 'utf8' user name and password, provided the user name has no colon.
   */
  lemma BasicCredentialsRecoverable(user: JsString, password: JsString)
    requires Colon !in user
    ensures SplitAtColon(BasicCredentials(user, password)) == (Utf8(user), Utf8(password))
  {
    Utf8AsciiByte(user, Colon);
    SplitAtColonOf(Utf8(user), Utf8(password));
  }

  // ---------------------------------------------------------------------------
  // Type1
  // ---------------------------------------------------------------------------

  /** The size of the buffer the original allocates for an outgoing message. */
  const MessageCapacity: nat := 1024

  /** The offset of a security buffer's data: 0 for an empty field, else where it is written. */
  function DataOffset(length: nat, at: nat): nat {
    if length == 0 then 0 else at
  }

  /**
   * The Type1 bytes: signature, type 1, the negotiate flags, the target (domain) and
   * workstation security buffers, then both names written 'ascii' from offset 32.
   */
  function Type1Bytes(workstation: JsString, target: JsString): (m: Bytes)
    requires 32 + |target| + |workstation| <= MessageCapacity
    ensures |m| == 32 + |target| + |workstation|
  {
    Signature + U32LE(1) + U32LE(Type1Flags as int)
    + SecBuf(|target|, DataOffset(|target|, 32))
    + SecBuf(|workstation|, DataOffset(|workstation|, 32 + |target|))
    + Latin1Bytes(target) + Latin1Bytes(workstation)
  }

  /** The workstation `createType1Message` uses: the given one, else the host name. */
  function Type1Workstation(hostname: JsString, workstation: Option<JsString>): JsString {
    if workstation.Some? then workstation.value else hostname
  }

  /** The target `createType1Message` uses: the given one, else the empty string. */
  function Type1Target(target: Option<JsString>): JsString {
    if target.Some? then target.value else []
  }

  /** `createType1Message`: "NTLM " followed by the base64 of the Type1 bytes. */
  function CreateType1Message(b64: Base64, hostname: JsString, workstation: Option<JsString>,
                              target: Option<JsString>): (r: string)
    requires 32 + |Type1Target(target)| + |Type1Workstation(hostname, workstation)| <= MessageCapacity
    ensures |r| >= 5 && r[..5] == NtlmPrefix
    ensures r[5..] == b64.encode(Type1Bytes(Type1Workstation(hostname, workstation), Type1Target(target)))
  {
    NtlmPrefix + b64.encode(Type1Bytes(Type1Workstation(hostname, workstation), Type1Target(target)))
  }

  /** Where the Type1 header fields sit. */
  lemma Type1Layout(workstation: JsString, target: JsString)
    requires 32 + |target| + |workstation| <= MessageCapacity
    ensures var m := Type1Bytes(workstation, target);
      && m[..8] == Signature
      && m[8..12] == U32LE(1)
      && m[12..16] == U32LE(Type1Flags as int)
      && m[16..24] == SecBuf(|target|, DataOffset(|target|, 32))
      && m[24..32] == SecBuf(|workstation|, DataOffset(|workstation|, 32 + |target|))
      && m[32..32 + |target|] == Latin1Bytes(target)
      && m[32 + |target|..] == Latin1Bytes(workstation)
  {
  }

  /** An empty field reads as empty whatever its offset points at. */
  lemma EmptyFieldReadsBack(m: Bytes, at: nat)
    requires at + 8 <= |m| && m[at..at + 8] == SecBuf(0, 0)
    ensures SecBufData(m, at) == Some([])
  {
    SecBufFields(m, at, 0, 0);
  }

  /** A security buffer at `at` describing `data` written at `offset` reads back as `data`. */
  lemma FieldReadsBack(m: Bytes, at: nat, data: Bytes, offset: nat)
    requires |data| < 0x1_0000 && offset < 0x1_0000_0000
    requires at + 8 <= |m| && m[at..at + 8] == SecBuf(|data|, DataOffset(|data|, offset))
    requires offset + |data| <= |m| && m[offset..offset + |data|] == data
    ensures SecBufData(m, at) == Some(data)
  {
    if |data| == 0 {
      EmptyFieldReadsBack(m, at);
    } else {
      SecBufDataOfWrite(m, at, data, offset);
    }
  }

  /**
   * A receiver of the Type1 bytes finds the signature, message type 1, the flags
   * 0x00088206, and both security buffers pointing at the names as written.
   */
  lemma Type1ReadsBack(workstation: JsString, target: JsString)
    requires 32 + |target| + |workstation| <= MessageCapacity
    ensures var m := Type1Bytes(workstation, target);
      && HasSignature(m)
      && ReadU32LE(m, 8) == 1
      && ReadU32LE(m, 12) == 0x0008_8206
      && SecBufData(m, 16) == Some(Latin1Bytes(target))
      && SecBufData(m, 24) == Some(Latin1Bytes(workstation))
  {
    var m := Type1Bytes(workstation, target);
    Type1Layout(workstation, target);
    SignatureReadsBack();
    ReadU32LEOfWrite(m, 8, 1);
    Type1FlagsValue();
    ReadU32LEOfWrite(m, 12, Type1Flags as int);
    FieldReadsBack(m, 16, Latin1Bytes(target), 32);
    FieldReadsBack(m, 24, Latin1Bytes(workstation), 32 + |target|);
  }

  /** The names come back as text exactly when they are 7-bit. */
  lemma Type1NamesRecoverable(workstation: JsString, target: JsString)
    requires 32 + |target| + |workstation| <= MessageCapacity
    requires IsAsciiText(workstation) && IsAsciiText(target)
    ensures var m := Type1Bytes(workstation, target);
      && SecBufData(m, 16).Some? && AsciiText(SecBufData(m, 16).value) == target
      && SecBufData(m, 24).Some? && AsciiText(SecBufData(m, 24).value) == workstation
  {
    Type1ReadsBack(workstation, target);
    AsciiRoundTrip(target);
    AsciiRoundTrip(workstation);
  }
}
