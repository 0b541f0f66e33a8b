/**
 * The NTLM Type3 (authenticate) message the client builds from a decoded Type2
 * message: the two challenge responses (v1 or v2, as the Type2 message selects),
 * then the target, user and workstation names in the Type2 message's encoding.
 */
module Type3 {
  import opened Wrappers
  import opened Buffers
  import opened Hash
  import opened Type2
  import opened Ntlm

  /** What makes `createType3Message` throw: a v2 challenge without a target information block. */
  datatype Type3Error = MissingTargetInfo

  /** Whether the Type2 message carries a target information block with bytes. */
  predicate HasInfoBlock(t2: Type2) {
    t2.targetInfo.Some? && t2.targetInfo.value.Info?
  }

  /** The v2 response blob includes the target information block, if there is one. */
  function InfoBlock(t2: Type2): Bytes {
    if HasInfoBlock(t2) then t2.targetInfo.value.buffer else []
  }

  /** The combined length of the two responses: 24 + 24 for v1, 24 + 48 + |target info| for v2. */
  function ResponsesLength(t2: Type2): nat {
    if t2.version == 2 then 72 + |InfoBlock(t2)| else 48
  }

  /** The size of the header: 52 bytes, or 64 with the v2 session key and flags. */
  function HeaderLength(t2: Type2): nat {
    if t2.version == 2 then 64 else 52
  }

  /** The message fits the original's 1024-byte buffer, so no write is cut short. */
  predicate Type3Fits(t2: Type2, user: JsString, workstation: JsString, target: JsString) {
    HeaderLength(t2) + ResponsesLength(t2)
    + TextLength(t2.encoding, target) + TextLength(t2.encoding, user) + TextLength(t2.encoding, workstation)
    <= MessageCapacity
  }

  /**
   * The LM-field and NT-field responses. Version 2: the LMv2 and NTLMv2 responses
   * under the NTLM hash, the client nonce and the timestamp; a missing target information
   * block is an error. Otherwise: the v1 responses to the challenge under the LM and NTLM hashes.
   */
  function Responses(c: Crypto, t2: Type2, user: JsString, password: JsString, target: JsString,
                     nonce: HexNonce, timestamp: Bytes8): (r: Result<(Bytes, Bytes), Type3Error>)
    requires |t2.challenge| <= 8
    ensures r.Err? <==> t2.version == 2 && !HasInfoBlock(t2)
    ensures r.Ok? ==> |r.value.0| + |r.value.1| == ResponsesLength(t2)
    ensures r.Ok? && t2.version != 2 ==>
      && r.value.0 == ChallengeResponse(c, t2.challenge, LMHash(c, password))
      && r.value.1 == ChallengeResponse(c, t2.challenge, NTHash(c, password))
    ensures r.Ok? && t2.version == 2 ==>
      && |r.value.0| == 24
      && r.value.0[16..] == HexBytes(nonce)
      && r.value.0[..16] == c.hmacMd5(NTLMv2Hash(c, NTHash(c, password), user, target),
                                      ChallengeSlot(t2.challenge) + r.value.0[16..])
      && r.value.1[24..32] == timestamp
      && r.value.1[32..40] == HexBytes(nonce)
      && r.value.1[44..44 + |InfoBlock(t2)|] == InfoBlock(t2)
      && r.value.1[..16] == c.hmacMd5(NTLMv2Hash(c, NTHash(c, password), user, target),
                                      ChallengeSlot(t2.challenge) + r.value.1[16..])
    ensures r.Ok? && t2.version == 2 ==>
      && r.value.0 == LMv2Response(c, t2.challenge, user, NTHash(c, password), nonce, target)
      && r.value.1 == NTLMv2Response(c, t2.challenge, user, NTHash(c, password), nonce, target,
                                     InfoBlock(t2), timestamp)
  {
    var ntHash := NTHash(c, password);
    if t2.version == 2 then
      if HasInfoBlock(t2) then
        Ok((LMv2Response(c, t2.challenge, user, ntHash, nonce, target),
            NTLMv2Response(c, t2.challenge, user, ntHash, nonce, target, InfoBlock(t2), timestamp)))
      else Err(MissingTargetInfo)
    else
      Ok((ChallengeResponse(c, t2.challenge, LMHash(c, password)), ChallengeResponse(c, t2.challenge, ntHash)))
  }

  // ---------------------------------------------------------------------------
  // Layout
  // ---------------------------------------------------------------------------

  /**
   * The first 52 bytes: signature, type 3, then the LM, NT, target, user and workstation
   * security buffers, whose data follow one another from `start`.
   */
  function Type3Header(lm: u16, nt: u16, target: u16, user: u16, workstation: u16, start: nat): (h: Bytes)
    requires start + lm + nt + target + user < 0x1_0000_0000
    ensures |h| == 52
  {
    Signature + U32LE(3)
    + SecBuf(lm, start) + SecBuf(nt, start + lm) + SecBuf(target, start + lm + nt)
    + SecBuf(user, start + lm + nt + target) + SecBuf(workstation, start + lm + nt + target + user)
  }

  /** The twelve v2 header bytes at 52: an empty session key buffer, then the Type2 flags. */
  function V2Trailer(flags: bv32): (r: Bytes)
    ensures |r| == 12
  {
    Zeros(8) + U32LE(flags as int)
  }

  /** The five fields one after the other, as the original writes them from `dataPos`. */
  function Payload(lm: Bytes, nt: Bytes, target: Bytes, user: Bytes, workstation: Bytes): (p: Bytes)
    ensures |p| == |lm| + |nt| + |target| + |user| + |workstation|
  {
    lm + nt + target + user + workstation
  }

  /** The field sizes leave the message within the 1024-byte buffer. */
  predicate LayoutFits(lm: Bytes, nt: Bytes, target: Bytes, user: Bytes, workstation: Bytes, v2: bool) {
    (if v2 then 64 else 52) + |lm| + |nt| + |target| + |user| + |workstation| <= MessageCapacity
  }

  /** A Type3 message: the header, the v2 trailer when `v2Flags` is present, then the fields. */
  function Type3Layout(lm: Bytes, nt: Bytes, target: Bytes, user: Bytes, workstation: Bytes,
                       v2Flags: Option<bv32>): (m: Bytes)
    requires LayoutFits(lm, nt, target, user, workstation, v2Flags.Some?)
    ensures |m| == (if v2Flags.Some? then 64 else 52) + |lm| + |nt| + |target| + |user| + |workstation|
  {
    var start := if v2Flags.Some? then 64 else 52;
    Type3Header(|lm|, |nt|, |target|, |user|, |workstation|, start)
    + (if v2Flags.Some? then V2Trailer(v2Flags.value) else [])
    + Payload(lm, nt, target, user, workstation)
  }

  /** The Type3 bytes `createType3Message` encodes, for resolved workstation and target. */
  function Type3Bytes(c: Crypto, t2: Type2, user: JsString, password: JsString, workstation: JsString,
                      target: JsString, nonce: HexNonce, timestamp: Bytes8): (r: Result<Bytes, Type3Error>)
    requires |t2.challenge| <= 8 && Type3Fits(t2, user, workstation, target)
    ensures r.Err? <==> t2.version == 2 && !HasInfoBlock(t2)
    ensures r.Ok? ==>
      |r.value| == HeaderLength(t2) + ResponsesLength(t2)
        + TextLength(t2.encoding, target) + TextLength(t2.encoding, user) + TextLength(t2.encoding, workstation)
  {
    var (lm, nt) :- Responses(c, t2, user, password, target, nonce, timestamp);
    EncodeTextLength(t2.encoding, target);
    EncodeTextLength(t2.encoding, user);
    EncodeTextLength(t2.encoding, workstation);
    Ok(Type3Layout(lm, nt, EncodeText(t2.encoding, target), EncodeText(t2.encoding, user),
                   EncodeText(t2.encoding, workstation), if t2.version == 2 then Some(t2.flags) else None))
  }

  /** The workstation `createType3Message` uses: the given one, else the host name. */
  function Type3Workstation(hostname: JsString, workstation: Option<JsString>): JsString {
    if workstation.Some? then workstation.value else hostname
  }

  /** The target `createType3Message` uses: the given one, else the Type2 message's target name. */
  function Type3Target(t2: Type2, target: Option<JsString>): JsString {
    if target.Some? then target.value else t2.targetName
  }

  /**
   * `createType3Message`: "NTLM " and the base64 of the Type3 bytes. `draws` are the random
   * digits of the client nonce and `nowMs` is `Date.now()`; both are used only for version 2.
   */
  function CreateType3Message(c: Crypto, b64: Base64, hostname: JsString, t2: Type2, user: JsString,
                              password: JsString, workstation: Option<JsString>, target: Option<JsString>,
                              draws: seq<Nibble>, nowMs: nat): (r: Result<string, Type3Error>)
    requires |t2.challenge| <= 8 && |draws| == 16 && FileTime(nowMs) < 0x1_0000_0000_0000_0000
    requires Type3Fits(t2, user, Type3Workstation(hostname, workstation), Type3Target(t2, target))
    ensures r.Err? <==> t2.version == 2 && !HasInfoBlock(t2)
    ensures r.Ok? ==> |r.value| >= 5 && r.value[..5] == NtlmPrefix
    ensures r.Ok? ==> r.value[5..] == b64.encode(Type3Bytes(c, t2, user, password,
      Type3Workstation(hostname, workstation), Type3Target(t2, target), NonceOf(draws),
      TimestampBytes(FileTime(nowMs))).value)
  {
    var m :- Type3Bytes(c, t2, user, password, Type3Workstation(hostname, workstation), Type3Target(t2, target),
                        NonceOf(draws), TimestampBytes(FileTime(nowMs)));
    Ok(NtlmPrefix + b64.encode(m))
  }

  // ---------------------------------------------------------------------------
  // The receiving side
  // ---------------------------------------------------------------------------

  /** The five fields a server reads out of a Type3 message. */
  datatype Type3Fields = Type3Fields(lm: Bytes, nt: Bytes, target: Bytes, user: Bytes, workstation: Bytes)

  /** A server's parse: signature, type 3, then the bytes each of the five security buffers points at. */
  function ParseType3(m: Bytes): Option<Type3Fields> {
    if |m| < 52 || !HasSignature(m) || ReadU32LE(m, 8) != 3 then None
    else
      match (SecBufData(m, 12), SecBufData(m, 20), SecBufData(m, 28), SecBufData(m, 36), SecBufData(m, 44))
      case (Some(lm), Some(nt), Some(target), Some(user), Some(workstation)) =>
        Some(Type3Fields(lm, nt, target, user, workstation))
      case _ => None
  }

  /** Where the header fields sit. */
  lemma Type3HeaderLayout(h: Bytes, lm: u16, nt: u16, target: u16, user: u16, workstation: u16, start: nat)
    requires start + lm + nt + target + user < 0x1_0000_0000
    requires h == Type3Header(lm, nt, target, user, workstation, start)
    ensures && h[..8] == Signature
      && h[8..12] == U32LE(3)
      && h[12..20] == SecBuf(lm, start)
      && h[20..28] == SecBuf(nt, start + lm)
      && h[28..36] == SecBuf(target, start + lm + nt)
      && h[36..44] == SecBuf(user, start + lm + nt + target)
      && h[44..52] == SecBuf(workstation, start + lm + nt + target + user)
  {
  }

  /** The field `x` of a payload `before + x + after` placed at `start` lies at `start + |before|`. */
  lemma FieldOfPayload(m: Bytes, start: nat, before: Bytes, x: Bytes, after: Bytes, offset: nat)
    requires start + |before| + |x| + |after| <= |m|
    requires m[start..start + |before| + |x| + |after|] == before + x + after
    requires offset == start + |before|
    ensures offset + |x| <= |m| && m[offset..offset + |x|] == x
  {
    var p := before + x + after;
    assert p[|before|..|before| + |x|] == x;
    SubSlice(m, start, p, |before|, |before| + |x|);
  }

  /** The signature and message type of a message that starts with a Type3 header. */
  lemma Type3HeaderStart(m: Bytes, lm: u16, nt: u16, target: u16, user: u16, workstation: u16, start: nat)
    requires start + lm + nt + target + user < 0x1_0000_0000
    requires |m| >= 52 && m[..52] == Type3Header(lm, nt, target, user, workstation, start)
    ensures HasSignature(m) && ReadU32LE(m, 8) == 3
  {
    var h := m[..52];
    Type3HeaderLayout(h, lm, nt, target, user, workstation, start);
    SubSlice(m, 0, h, 0, 8);
    SignatureReadsBack();
    SubSlice(m, 0, h, 8, 12);
    ReadU32LEOfWrite(m, 8, 3);
  }

  /** The security buffer at `at` of a message starting with header `h` yields the field written at `offset`. */
  lemma HeaderField(m: Bytes, h: Bytes, at: nat, atEnd: nat, x: Bytes, offset: nat)
    requires |h| == 52 && |m| >= 52 && m[..52] == h
    requires |x| < 0x1_0000 && offset < 0x1_0000_0000
    requires atEnd == at + 8 <= 52 && h[at..atEnd] == SecBuf(|x|, offset)
    requires offset + |x| <= |m| && m[offset..offset + |x|] == x
    ensures SecBufData(m, at) == Some(x)
  {
    SubSlice(m, 0, h, at, at + 8);
    SecBufDataOfWrite(m, at, x, offset);
  }

  /** The v2 trailer reads back: a zero session key buffer and the flags. */
  lemma V2TrailerReadsBack(m: Bytes, flags: bv32)
    requires |m| >= 64 && m[52..64] == V2Trailer(flags)
    ensures AllZero(m[52..60]) && ReadU32LE(m, 60) as bv32 == flags
  {
    var t := V2Trailer(flags);
    SubSlice(m, 52, t, 0, 8);
    SubSlice(m, 52, t, 8, 12);
    assert t[0..8] == Zeros(8);
    assert t[8..12] == U32LE(flags as int);
    ReadU32LEOfWrite(m, 60, flags as int);
    FlagsWidenBack(flags);
  }

  /** Where the parts of a Type3 message sit. */
  lemma Type3LayoutParts(lm: Bytes, nt: Bytes, target: Bytes, user: Bytes, workstation: Bytes,
                         v2Flags: Option<bv32>)
    requires LayoutFits(lm, nt, target, user, workstation, v2Flags.Some?)
    ensures var m := Type3Layout(lm, nt, target, user, workstation, v2Flags);
      var start := if v2Flags.Some? then 64 else 52;
      && m[..52] == Type3Header(|lm|, |nt|, |target|, |user|, |workstation|, start)
      && (v2Flags.Some? ==> m[52..64] == V2Trailer(v2Flags.value))
      && m[start..start + |lm| + |nt| + |target| + |user| + |workstation|]
         == Payload(lm, nt, target, user, workstation)
  {
  }

  /**
   * The LM and NT fields of the payload, written `before + x + after`.
   */
  lemma ResponseFields(m: Bytes, start: nat, lm: Bytes, nt: Bytes, target: Bytes, user: Bytes, workstation: Bytes)
    requires start + |lm| + |nt| + |target| + |user| + |workstation| <= |m|
    requires m[start..start + |lm| + |nt| + |target| + |user| + |workstation|]
             == Payload(lm, nt, target, user, workstation)
    ensures m[start..start + |lm|] == lm
    ensures start + |lm| + |nt| <= |m| && m[start + |lm|..start + |lm| + |nt|] == nt
  {
    var rest := target + user + workstation;
    assert Payload(lm, nt, target, user, workstation) == [] + lm + (nt + rest);
    FieldOfPayload(m, start, [], lm, nt + rest, start);
    assert Payload(lm, nt, target, user, workstation) == lm + nt + rest;
    FieldOfPayload(m, start, lm, nt, rest, start + |lm|);
  }

  /** The target, user and workstation fields of the payload. */
  lemma NameFields(m: Bytes, start: nat, lm: Bytes, nt: Bytes, target: Bytes, user: Bytes, workstation: Bytes)
    requires start + |lm| + |nt| + |target| + |user| + |workstation| <= |m|
    requires m[start..start + |lm| + |nt| + |target| + |user| + |workstation|]
             == Payload(lm, nt, target, user, workstation)
    ensures m[start + |lm| + |nt|..start + |lm| + |nt| + |target|] == target
    ensures m[start + |lm| + |nt| + |target|..start + |lm| + |nt| + |target| + |user|] == user
    ensures m[start + |lm| + |nt| + |target| + |user|..start + |lm| + |nt| + |target| + |user| + |workstation|]
            == workstation
  {
    assert Payload(lm, nt, target, user, workstation) == (lm + nt) + target + (user + workstation);
    FieldOfPayload(m, start, lm + nt, target, user + workstation, start + |lm| + |nt|);
    assert Payload(lm, nt, target, user, workstation) == (lm + nt + target) + user + workstation;
    FieldOfPayload(m, start, lm + nt + target, user, workstation, start + |lm| + |nt| + |target|);
    assert Payload(lm, nt, target, user, workstation) == (lm + nt + target + user) + workstation + [];
    FieldOfPayload(m, start, lm + nt + target + user, workstation, [], start + |lm| + |nt| + |target| + |user|);
  }

  /** The response security buffers of a header `h` at the front of `m` point at the responses. */
  lemma ResponseBuffersRead(m: Bytes, h: Bytes, start: nat, lm: Bytes, nt: Bytes, target: Bytes, user: Bytes,
                            workstation: Bytes)
    requires |h| == 52 && |m| >= 52 && m[..52] == h
    requires start + |lm| + |nt| + |target| + |user| + |workstation| <= |m| <= MessageCapacity
    requires m[start..start + |lm| + |nt| + |target| + |user| + |workstation|]
             == Payload(lm, nt, target, user, workstation)
    requires h[12..20] == SecBuf(|lm|, start)
    requires h[20..28] == SecBuf(|nt|, start + |lm|)
    ensures SecBufData(m, 12) == Some(lm) && SecBufData(m, 20) == Some(nt)
  {
    ResponseFields(m, start, lm, nt, target, user, workstation);
    HeaderField(m, h, 12, 20, lm, start);
    HeaderField(m, h, 20, 28, nt, start + |lm|);
  }

  /** The name security buffers of a header `h` at the front of `m` point at the names. */
  lemma NameBuffersRead(m: Bytes, h: Bytes, start: nat, lm: Bytes, nt: Bytes, target: Bytes, user: Bytes,
                        workstation: Bytes)
    requires |h| == 52 && |m| >= 52 && m[..52] == h
    requires start + |lm| + |nt| + |target| + |user| + |workstation| <= |m| <= MessageCapacity
    requires m[start..start + |lm| + |nt| + |target| + |user| + |workstation|]
             == Payload(lm, nt, target, user, workstation)
    requires h[28..36] == SecBuf(|target|, start + |lm| + |nt|)
    requires h[36..44] == SecBuf(|user|, start + |lm| + |nt| + |target|)
    requires h[44..52] == SecBuf(|workstation|, start + |lm| + |nt| + |target| + |user|)
    ensures SecBufData(m, 28) == Some(target) && SecBufData(m, 36) == Some(user)
    ensures SecBufData(m, 44) == Some(workstation)
  {
    NameFields(m, start, lm, nt, target, user, workstation);
    HeaderField(m, h, 28, 36, target, start + |lm| + |nt|);
    HeaderField(m, h, 36, 44, user, start + |lm| + |nt| + |target|);
    HeaderField(m, h, 44, 52, workstation, start + |lm| + |nt| + |target| + |user|);
  }

  /** A server parsing a message made of a Type3 header and, from `start`, the payload. */
  lemma Type3LaidOutParses(m: Bytes, start: nat, lm: Bytes, nt: Bytes, target: Bytes, user: Bytes,
                           workstation: Bytes)
    requires start >= 52 && start + |lm| + |nt| + |target| + |user| + |workstation| <= |m|
    requires |m| <= MessageCapacity
    requires m[..52] == Type3Header(|lm|, |nt|, |target|, |user|, |workstation|, start)
    requires m[start..start + |lm| + |nt| + |target| + |user| + |workstation|]
             == Payload(lm, nt, target, user, workstation)
    ensures ParseType3(m) == Some(Type3Fields(lm, nt, target, user, workstation))
  {
    var h := m[..52];
    Type3HeaderStart(m, |lm|, |nt|, |target|, |user|, |workstation|, start);
    Type3HeaderLayout(h, |lm|, |nt|, |target|, |user|, |workstation|, start);
    ResponseBuffersRead(m, h, start, lm, nt, target, user, workstation);
    NameBuffersRead(m, h, start, lm, nt, target, user, workstation);
  }

  /**
   * A server parsing the laid-out message finds every field where its security buffer
   * points, and for version 2 a zero session key buffer and the Type2 flags at 60.
   */
  lemma Type3LayoutParses(lm: Bytes, nt: Bytes, target: Bytes, user: Bytes, workstation: Bytes,
                          v2Flags: Option<bv32>)
    requires LayoutFits(lm, nt, target, user, workstation, v2Flags.Some?)
    ensures var m := Type3Layout(lm, nt, target, user, workstation, v2Flags);
      ParseType3(m) == Some(Type3Fields(lm, nt, target, user, workstation))
    ensures var m := Type3Layout(lm, nt, target, user, workstation, v2Flags);
      v2Flags.Some? ==> AllZero(m[52..60]) && ReadU32LE(m, 60) as bv32 == v2Flags.value
  {
    var m := Type3Layout(lm, nt, target, user, workstation, v2Flags);
    var start := if v2Flags.Some? then 64 else 52;
    Type3LayoutParts(lm, nt, target, user, workstation, v2Flags);
    Type3LaidOutParses(m, start, lm, nt, target, user, workstation);
    if v2Flags.Some? {
      V2TrailerReadsBack(m, v2Flags.value);
    }
  }

  /**
   * A server parsing the Type3 bytes finds the two responses and the target, user and
   * workstation names in the Type2 message's encoding; for version 2 it also finds a zero
   * session key buffer and the Type2 flags.
   */
  lemma Type3BytesParse(c: Crypto, t2: Type2, user: JsString, password: JsString, workstation: JsString,
                        target: JsString, nonce: HexNonce, timestamp: Bytes8)
    requires |t2.challenge| <= 8 && Type3Fits(t2, user, workstation, target)
    requires t2.version != 2 || HasInfoBlock(t2)
    ensures Type3Bytes(c, t2, user, password, workstation, target, nonce, timestamp).Ok?
    ensures ParseType3(Type3Bytes(c, t2, user, password, workstation, target, nonce, timestamp).value)
      == Some(Type3Fields(
           Responses(c, t2, user, password, target, nonce, timestamp).value.0,
           Responses(c, t2, user, password, target, nonce, timestamp).value.1,
           EncodeText(t2.encoding, target), EncodeText(t2.encoding, user), EncodeText(t2.encoding, workstation)))
    ensures t2.version == 2 ==>
      var m := Type3Bytes(c, t2, user, password, workstation, target, nonce, timestamp).value;
      AllZero(m[52..60]) && ReadU32LE(m, 60) as bv32 == t2.flags
  {
    var (lm, nt) := Responses(c, t2, user, password, target, nonce, timestamp).value;
    EncodeTextLength(t2.encoding, target);
    EncodeTextLength(t2.encoding, user);
    EncodeTextLength(t2.encoding, workstation);
    Type3LayoutParses(lm, nt, EncodeText(t2.encoding, target), EncodeText(t2.encoding, user),
                      EncodeText(t2.encoding, workstation), if t2.version == 2 then Some(t2.flags) else None);
  }

  /** The names a server reads back decode to the names sent, when they fit the encoding. */
  lemma Type3NamesRecoverable(c: Crypto, t2: Type2, user: JsString, password: JsString, workstation: JsString,
                              target: JsString, nonce: HexNonce, timestamp: Bytes8)
    requires |t2.challenge| <= 8 && Type3Fits(t2, user, workstation, target)
    requires t2.version != 2 || HasInfoBlock(t2)
    requires t2.encoding == Ascii ==> IsAsciiText(user) && IsAsciiText(workstation) && IsAsciiText(target)
    ensures var f := ParseType3(Type3Bytes(c, t2, user, password, workstation, target, nonce, timestamp).value);
      && f.Some?
      && DecodeText(t2.encoding, f.value.target) == target
      && DecodeText(t2.encoding, f.value.user) == user
      && DecodeText(t2.encoding, f.value.workstation) == workstation
  {
    Type3BytesParse(c, t2, user, password, workstation, target, nonce, timestamp);
    DecodeEncodeText(t2.encoding, target);
    DecodeEncodeText(t2.encoding, user);
    DecodeEncodeText(t2.encoding, workstation);
  }
}
