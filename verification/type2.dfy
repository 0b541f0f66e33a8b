/**
 * Decoding of the NTLM challenge (Type2) message: signature and type checks, the
 * flag-derived encoding and version, the challenge, the target name and the
 * target-information list of attribute/value pairs. A server-side encoder is
 * given as a partner, and decoding is proved to invert it.
 */
module Type2 {
  import opened Wrappers
  import opened Buffers
  import opened Flags

  /** "NTLMSSP\0" as the code units of a JavaScript string. */
  const SignatureText: JsString := [0x4E, 0x54, 0x4C, 0x4D, 0x53, 0x53, 0x50, 0x00]

  /** The signature as it is written with the 'ascii' encoding. */
  const Signature: Bytes := Latin1Bytes(SignatureText)

  /** The attribute types the decoder names; other types are skipped. */
  datatype AvId = Server | Domain | Fqdn | Dns | ParentDns

  /** The type code of a named attribute. */
  function AvCode(id: AvId): (t: u16)
    ensures 1 <= t <= 5
  {
    match id
    case Server => 1
    case Domain => 2
    case Fqdn => 3
    case Dns => 4
    case ParentDns => 5
  }

  /** The attribute a type code names, if any. */
  function AvIdOf(t: u16): (r: Option<AvId>)
    ensures r.Some? <==> 1 <= t <= 5
  {
    if t == 1 then Some(Server)
    else if t == 2 then Some(Domain)
    else if t == 3 then Some(Fqdn)
    else if t == 4 then Some(Dns)
    else if t == 5 then Some(ParentDns)
    else None
  }

  lemma AvIdOfCode(id: AvId)
    ensures AvIdOf(AvCode(id)) == Some(id)
  {
  }

  /**
   * The decoded target information: `Bare` is the empty object produced when the
   * length field is zero; otherwise the parsed attributes and a copy of the raw bytes.
   */
  datatype TargetInfo = Bare | Info(parsed: map<AvId, JsString>, buffer: Bytes)

  /** A decoded Type2 message. */
  datatype Type2 = Type2(
    flags: bv32,
    encoding: Encoding,
    version: nat,
    challenge: Bytes,
    targetName: JsString,
    targetInfo: Option<TargetInfo>)

  /** The exceptions the decoder throws. */
  datatype Type2Error =
    | InvalidArgument
    | BadSignature
    | WrongMessageType
    | BadType2Message
    /** A field read past the end of the buffer (Node's range error). */
    | OutOfRange

  /** The text encoding a Type2 message selects: 'ascii' when it negotiates OEM, else 'ucs2'. */
  function EncodingOf(flags: bv32): Encoding {
    if HasFlag(flags, NegotiateOem) then Ascii else Ucs2
  }

  /** The response version a Type2 message selects: 2 when it negotiates the NTLM2 key, else 1. */
  function VersionOf(flags: bv32): nat {
    if HasFlag(flags, NegotiateNtlm2Key) then 2 else 1
  }

  /** The signature check: the first eight bytes, read as 'ascii', spell the signature. */
  predicate HasSignature(buf: Bytes) {
    AsciiText(buf[..Min(8, |buf|)]) == SignatureText
  }

  // ---------------------------------------------------------------------------
  // The target information walk
  // ---------------------------------------------------------------------------

  /**
   * The walk over attribute/value pairs from `pos` until `end` or a zero type: each
   * named attribute's value is read as 'ucs2', a later pair overriding an earlier one.
   * Reads of type and length past the buffer fail; a value running past the buffer is cut.
   */
  function Walk(buf: Bytes, pos: nat, end: nat, acc: map<AvId, JsString>): Result<map<AvId, JsString>, Type2Error>
    decreases end - pos
  {
    if pos >= end then Ok(acc)
    else if pos + 4 > |buf| then Err(OutOfRange)
    else
      var blockType := ReadU16LE(buf, pos);
      var blockLength := ReadU16LE(buf, pos + 2);
      if blockType == 0 then Ok(acc)
      else
        var next := match AvIdOf(blockType)
          case Some(id) => acc[id := Ucs2Text(buf[pos + 4..Min(pos + 4 + blockLength, |buf|)])]
          case None => acc;
        Walk(buf, pos + 4 + blockLength, end, next)
  }

  /** The walk as the original's loop writes it. */
  method WalkTargetInfo(buf: Bytes, offset: nat, length: nat) returns (r: Result<map<AvId, JsString>, Type2Error>)
    ensures r == Walk(buf, offset, offset + length, map[])
  {
    var info: map<AvId, JsString> := map[];
    var pos := offset;
    while pos < offset + length
      invariant Walk(buf, pos, offset + length, info) == Walk(buf, offset, offset + length, map[])
      decreases offset + length - pos
    {
      if pos + 4 > |buf| {
        return Err(OutOfRange);
      }
      var blockType := ReadU16LE(buf, pos);
      var blockLength := ReadU16LE(buf, pos + 2);
      if blockType == 0 {
        return Ok(info);
      }
      match AvIdOf(blockType) {
        case Some(id) =>
          info := info[id := Ucs2Text(buf[pos + 4..Min(pos + 4 + blockLength, |buf|)])];
        case None =>
      }
      pos := pos + 4 + blockLength;
    }
    return Ok(info);
  }

  // ---------------------------------------------------------------------------
  // Decoding
  // ---------------------------------------------------------------------------

  /** The target name: empty for a zero length, else the named bytes, which must lie past the header. */
  function TargetName(buf: Bytes, encoding: Encoding): (r: Result<JsString, Type2Error>)
    requires |buf| >= 24
    ensures
      var length := ReadU16LE(buf, 12);
      var offset := ReadU32LE(buf, 16);
      && (length == 0 ==> r == Ok([]))
      && (length != 0 && (offset + length > |buf| || offset < 32) ==> r == Err(BadType2Message))
      && (length != 0 && offset + length <= |buf| && offset >= 32 ==>
            r == Ok(DecodeText(encoding, buf[offset..offset + length])))
  {
    var length := ReadU16LE(buf, 12);
    var offset := ReadU32LE(buf, 16);
    if length == 0 then Ok([])
    else if offset + length > |buf| || offset < 32 then Err(BadType2Message)
    else Ok(DecodeText(encoding, buf[offset..offset + length]))
  }

  /** The target information block, present only when the flags negotiate it. */
  function TargetInfoOf(buf: Bytes): (r: Result<TargetInfo, Type2Error>)
    ensures |buf| < 48 ==> r == Err(OutOfRange)
    ensures |buf| >= 48 && ReadU16LE(buf, 40) == 0 ==> r == Ok(Bare)
    ensures r.Ok? && r.value.Info? ==>
      var length := ReadU16LE(buf, 40);
      var offset := ReadU32LE(buf, 44);
      && 32 <= offset && offset + length <= |buf|
      && r.value.buffer == buf[offset..offset + length]
      && Walk(buf, offset, offset + length, map[]) == Ok(r.value.parsed)
    ensures |buf| >= 48 && ReadU16LE(buf, 40) != 0 ==>
      var length := ReadU16LE(buf, 40);
      var offset := ReadU32LE(buf, 44);
      && (offset + length > |buf| || offset < 32 ==> r == Err(BadType2Message))
      && (offset + length <= |buf| && offset >= 32 ==>
            && (r.Ok? <==> Walk(buf, offset, offset + length, map[]).Ok?)
            && (r.Ok? ==> r.value.Info?)
            && (r.Err? ==> r.error == Walk(buf, offset, offset + length, map[]).error))
  {
    if |buf| < 48 then Err(OutOfRange)
    else
      var length := ReadU16LE(buf, 40);
      var offset := ReadU32LE(buf, 44);
      if length == 0 then Ok(Bare)
      else if offset + length > |buf| || offset < 32 then Err(BadType2Message)
      else
        var parsed :- Walk(buf, offset, offset + length, map[]);
        Ok(Info(parsed, buf[offset..offset + length]))
  }

  /** `decodeType2Message` on the decoded bytes. */
  function DecodeType2Bytes(buf: Bytes): (r: Result<Type2, Type2Error>)
    ensures r.Ok? ==>
      && |buf| >= 24
      && HasSignature(buf)
      && ReadU32LE(buf, 8) == 2
      && r.value.flags == ReadU32LE(buf, 20) as bv32
      && r.value.encoding == EncodingOf(r.value.flags)
      && r.value.version == VersionOf(r.value.flags)
      && r.value.challenge == buf[24..Min(32, |buf|)]
      && TargetName(buf, r.value.encoding) == Ok(r.value.targetName)
      && (r.value.targetInfo.Some? <==> HasFlag(r.value.flags, NegotiateTargetInfo))
      && (r.value.targetInfo.Some? ==> TargetInfoOf(buf) == Ok(r.value.targetInfo.value))
    ensures !HasSignature(buf) ==> r == Err(BadSignature)
    ensures HasSignature(buf) && |buf| < 12 ==> r == Err(OutOfRange)
    ensures HasSignature(buf) && |buf| >= 12 && ReadU32LE(buf, 8) != 2 ==> r == Err(WrongMessageType)
  {
    if !HasSignature(buf) then Err(BadSignature)
    else if |buf| < 12 then Err(OutOfRange)
    else if ReadU32LE(buf, 8) != 2 then Err(WrongMessageType)
    else if |buf| < 24 then Err(OutOfRange)
    else
      var flags := ReadU32LE(buf, 20) as bv32;
      var encoding := EncodingOf(flags);
      var targetName :- TargetName(buf, encoding);
      var targetInfo :- if HasFlag(flags, NegotiateTargetInfo) then
          var info :- TargetInfoOf(buf); Ok(Some(info))
        else Ok(None);
      Ok(Type2(flags, encoding, VersionOf(flags), buf[24..Min(32, |buf|)], targetName, targetInfo))
  }

  /** Conversely, a buffer that passes every check decodes to the fields it holds. */
  lemma DecodeType2BytesSucceeds(buf: Bytes, flags: bv32, challenge: Bytes, name: JsString, info: TargetInfo)
    requires |buf| >= 32 && HasSignature(buf) && ReadU32LE(buf, 8) == 2
    requires ReadU32LE(buf, 20) as bv32 == flags && buf[24..32] == challenge
    requires TargetName(buf, EncodingOf(flags)) == Ok(name)
    requires HasFlag(flags, NegotiateTargetInfo) ==> TargetInfoOf(buf) == Ok(info)
    ensures DecodeType2Bytes(buf) == Ok(Type2(flags, EncodingOf(flags), VersionOf(flags), challenge, name,
      if HasFlag(flags, NegotiateTargetInfo) then Some(info) else None))
  {
  }

  // ---------------------------------------------------------------------------
  // The header value and the base64 token
  // ---------------------------------------------------------------------------

  /** The characters JavaScript's `\s` matches. */
  predicate IsJsSpace(c: char) {
    c == '\t' || c == '\n' || c == '\U{000B}' || c == '\U{000C}' || c == '\r' || c == ' '
    || c == '\U{00A0}' || c == '\U{1680}' || '\U{2000}' <= c <= '\U{200A}' || c == '\U{2028}'
    || c == '\U{2029}' || c == '\U{202F}' || c == '\U{205F}' || c == '\U{3000}' || c == '\U{FEFF}'
  }

  /** A character of the class `[^,\s]`. */
  predicate IsTokenChar(c: char) {
    c != ',' && !IsJsSpace(c)
  }

  /** The longest prefix of token characters. */
  function TokenRun(s: string): (r: string)
    ensures |r| <= |s| && r == s[..|r|]
    ensures forall i :: 0 <= i < |r| ==> IsTokenChar(r[i])
    ensures |r| < |s| ==> !IsTokenChar(s[|r|])
  {
    if s == [] || !IsTokenChar(s[0]) then [] else [s[0]] + TokenRun(s[1..])
  }

  const NtlmPrefix: string := "NTLM "

  /** Whether `/^NTLM ([^,\s]+)/` matches. */
  predicate MatchesNtlm(s: string) {
    |s| > 5 && s[..5] == NtlmPrefix && IsTokenChar(s[5])
  }

  /** The token the decoder base64-decodes: the regular expression's group when it matches, else the whole text. */
  function ExtractToken(s: string): (r: string)
    ensures MatchesNtlm(s) ==>
      && 1 <= |r| && 5 + |r| <= |s| && s[5..5 + |r|] == r
      && (forall i :: 0 <= i < |r| ==> IsTokenChar(r[i]))
      && (5 + |r| == |s| || !IsTokenChar(s[5 + |r|]))
    ensures !MatchesNtlm(s) ==> r == s
  {
    if MatchesNtlm(s) then TokenRun(s[5..]) else s
  }

  /** What the decoder is given: nothing, a string, or a response object that may carry the header. */
  datatype Type2Input =
    | Undefined
    | Text(text: string)
    /** A non-string argument; `wwwAuthenticate` is its `headers['www-authenticate']`, if it has one. */
    | Carrier(wwwAuthenticate: Option<string>)

  /** `decodeType2Message`. */
  function DecodeType2Message(b64: Base64, input: Type2Input): (r: Result<Type2, Type2Error>)
    ensures input == Undefined || input == Carrier(None) ==> r == Err(InvalidArgument)
    ensures input.Text? ==> r == DecodeType2Bytes(b64.decode(ExtractToken(input.text)))
    ensures input.Carrier? && input.wwwAuthenticate.Some? ==>
      r == DecodeType2Bytes(b64.decode(ExtractToken(input.wwwAuthenticate.value)))
  {
    match input
    case Undefined => Err(InvalidArgument)
    case Text(s) => DecodeType2Bytes(b64.decode(ExtractToken(s)))
    case Carrier(None) => Err(InvalidArgument)
    case Carrier(Some(s)) => DecodeType2Bytes(b64.decode(ExtractToken(s)))
  }

  /** The token of a well-formed header: `NTLM ` followed by a token and then a comma, a space or nothing. */
  lemma ExtractTokenOfHeader(token: string, rest: string)
    requires token != [] && forall i :: 0 <= i < |token| ==> IsTokenChar(token[i])
    requires rest == [] || !IsTokenChar(rest[0])
    ensures ExtractToken(NtlmPrefix + token + rest) == token
  {
    var s := NtlmPrefix + token + rest;
    assert s[..5] == NtlmPrefix;
    assert s[5] == token[0];
    var r := ExtractToken(s);
    assert s[5..] == token + rest;
    TokenRunOf(token, rest);
  }

  lemma {:induction false} TokenRunOf(token: string, rest: string)
    requires forall i :: 0 <= i < |token| ==> IsTokenChar(token[i])
    requires rest == [] || !IsTokenChar(rest[0])
    ensures TokenRun(token + rest) == token
    decreases |token|
  {
    if token == [] {
      assert token + rest == rest;
    } else {
      assert (token + rest)[1..] == token[1..] + rest;
      TokenRunOf(token[1..], rest);
      assert [token[0]] + token[1..] == token;
    }
  }

  // ---------------------------------------------------------------------------
  // Encoding side: what a server sends, and decoding it back
  // ---------------------------------------------------------------------------

  /** A value whose 'ucs2' length fits the 16-bit length field. */
  type AvValue = s: JsString | 2 * |s| < 0x1_0000

  /** One attribute/value pair as a server lists it. */
  datatype AvPair = AvPair(id: AvId, value: AvValue)

  /** A pair on the wire: type, byte length, then the value in 'ucs2'. */
  function EncodeAvPair(p: AvPair): (r: Bytes)
    ensures |r| == 4 + 2 * |p.value|
  {
    U16LE(AvCode(p.id)) + U16LE(2 * |p.value|) + Ucs2Bytes(p.value)
  }

  function EncodeAvPairs(ps: seq<AvPair>): Bytes
  {
    if ps == [] then [] else EncodeAvPair(ps[0]) + EncodeAvPairs(ps[1..])
  }

  /** The pairs followed by the end-of-list pair (type 0, length 0). */
  function AvList(ps: seq<AvPair>): Bytes
  {
    EncodeAvPairs(ps) + Zeros(4)
  }

  /** The attribute map a list of pairs describes: later pairs override earlier ones. */
  function ApplyAv(acc: map<AvId, JsString>, ps: seq<AvPair>): map<AvId, JsString>
    decreases |ps|
  {
    if ps == [] then acc else ApplyAv(acc[ps[0].id := ps[0].value], ps[1..])
  }

  /** A named pair at `pos` as the walk reads it: its type code, its length, and its value. */
  predicate PairAt(buf: Bytes, pos: nat, p: AvPair) {
    && pos + 4 + 2 * |p.value| <= |buf|
    && ReadU16LE(buf, pos) == AvCode(p.id)
    && ReadU16LE(buf, pos + 2) == 2 * |p.value|
    && Ucs2Text(buf[pos + 4..pos + 4 + 2 * |p.value|]) == p.value
  }

  /** The pairs `ps` one after the other from `pos`, then an end-of-list pair ending at `end`. */
  predicate ListAt(buf: Bytes, pos: nat, end: nat, ps: seq<AvPair>)
    decreases |ps|
  {
    if ps == [] then pos + 4 == end <= |buf| && ReadU16LE(buf, pos) == 0
    else pos < end && PairAt(buf, pos, ps[0]) && ListAt(buf, pos + 4 + 2 * |ps[0].value|, end, ps[1..])
  }

  /** The step of the walk over one named pair. */
  lemma WalkNamedStep(buf: Bytes, pos: nat, end: nat, acc: map<AvId, JsString>, p: AvPair)
    requires pos < end && PairAt(buf, pos, p)
    ensures Walk(buf, pos, end, acc) == Walk(buf, pos + 4 + 2 * |p.value|, end, acc[p.id := p.value])
  {
    AvIdOfCode(p.id);
  }

  lemma ApplyAvHead(acc: map<AvId, JsString>, ps: seq<AvPair>)
    requires ps != []
    ensures ApplyAv(acc, ps) == ApplyAv(acc[ps[0].id := ps[0].value], ps[1..])
  {
  }

  /** The walk over pairs laid out as `ListAt` describes yields the map the pairs describe. */
  lemma {:induction false} WalkListAt(buf: Bytes, pos: nat, end: nat, acc: map<AvId, JsString>, ps: seq<AvPair>)
    requires ListAt(buf, pos, end, ps)
    ensures Walk(buf, pos, end, acc) == Ok(ApplyAv(acc, ps))
    decreases |ps|
  {
    if ps == [] {
      WalkAtEnd(buf, pos, end, acc);
    } else {
      ListAtCons(buf, pos, end, ps);
      WalkNamedStep(buf, pos, end, acc, ps[0]);
      WalkListAt(buf, pos + 4 + 2 * |ps[0].value|, end, acc[ps[0].id := ps[0].value], ps[1..]);
      ApplyAvHead(acc, ps);
    }
  }

  /** The walk stops at the end-of-list pair. */
  lemma WalkAtEnd(buf: Bytes, pos: nat, end: nat, acc: map<AvId, JsString>)
    requires ListAt(buf, pos, end, [])
    ensures Walk(buf, pos, end, acc) == Ok(acc)
  {
  }

  lemma ListAtCons(buf: Bytes, pos: nat, end: nat, ps: seq<AvPair>)
    requires ps != [] && ListAt(buf, pos, end, ps)
    ensures pos < end && PairAt(buf, pos, ps[0])
    ensures ListAt(buf, pos + 4 + 2 * |ps[0].value|, end, ps[1..])
  {
  }

  /** A non-empty list is its first pair followed by the list of the rest. */
  lemma AvListCons(ps: seq<AvPair>)
    requires ps != []
    ensures AvList(ps) == EncodeAvPair(ps[0]) + AvList(ps[1..])
  {
  }

  /** The fields of an encoded pair. */
  lemma EncodeAvPairFields(p: AvPair, rest: Bytes)
    ensures var region := EncodeAvPair(p) + rest;
      && region[0..2] == U16LE(AvCode(p.id))
      && region[2..4] == U16LE(2 * |p.value|)
      && region[4..4 + 2 * |p.value|] == Ucs2Bytes(p.value)
      && region[4 + 2 * |p.value|..] == rest
  {
  }

  /** Where the fields of an encoded pair sit in a buffer holding it at `pos`, followed by `rest`. */
  lemma PairRegionFields(buf: Bytes, pos: nat, end: nat, p: AvPair, rest: Bytes)
    requires end == pos + |EncodeAvPair(p)| + |rest| <= |buf| && buf[pos..end] == EncodeAvPair(p) + rest
    ensures buf[pos..pos + 2] == U16LE(AvCode(p.id))
    ensures buf[pos + 2..pos + 4] == U16LE(2 * |p.value|)
    ensures buf[pos + 4..pos + 4 + 2 * |p.value|] == Ucs2Bytes(p.value)
    ensures buf[pos + 4 + 2 * |p.value|..end] == rest
  {
    var region := EncodeAvPair(p) + rest;
    var n := 4 + 2 * |p.value|;
    EncodeAvPairFields(p, rest);
    SubSlice(buf, pos, region, 0, 2);
    SubSlice(buf, pos, region, 2, 4);
    SubSlice(buf, pos, region, 4, n);
    SubSliceTail(buf, pos, region, n);
  }

  /** A region holding an encoded pair and then `rest` holds that pair, followed by `rest`. */
  lemma PairFieldsAt(buf: Bytes, pos: nat, end: nat, p: AvPair, rest: Bytes)
    returns (after: nat)
    requires end == pos + |EncodeAvPair(p)| + |rest| <= |buf| && buf[pos..end] == EncodeAvPair(p) + rest
    ensures after == pos + 4 + 2 * |p.value|
    ensures PairAt(buf, pos, p)
    ensures end == after + |rest| && buf[after..end] == rest
  {
    after := pos + 4 + 2 * |p.value|;
    PairRegionFields(buf, pos, end, p, rest);
    ReadU16LEOfWrite(buf, pos, AvCode(p.id));
    ReadU16LEOfWrite(buf, pos + 2, 2 * |p.value|);
    Ucs2RoundTrip(p.value);
  }

  /** The end-of-list pair reads as type 0. */
  lemma TerminatorAt(buf: Bytes, pos: nat, end: nat)
    requires end == pos + |AvList([])| <= |buf| && buf[pos..end] == AvList([])
    ensures ListAt(buf, pos, end, [])
  {
    assert AvList([]) == Zeros(4);
    assert buf[pos] == buf[pos..end][0];
    assert buf[pos + 1] == buf[pos..end][1];
  }

  /** An encoded list in `pos .. end` is laid out as `ListAt` describes. */
  lemma {:induction false} ListAtOfAvList(buf: Bytes, pos: nat, end: nat, ps: seq<AvPair>)
    requires end == pos + |AvList(ps)| <= |buf| && buf[pos..end] == AvList(ps)
    ensures ListAt(buf, pos, end, ps)
    decreases |ps|
  {
    if ps == [] {
      TerminatorAt(buf, pos, end);
    } else {
      AvListCons(ps);
      var after := PairFieldsAt(buf, pos, end, ps[0], AvList(ps[1..]));
      ListAtOfAvList(buf, after, end, ps[1..]);
    }
  }

  /** The walk over an encoded list in `pos .. end` yields exactly the map the list describes. */
  lemma WalkAvList(buf: Bytes, pos: nat, end: nat, acc: map<AvId, JsString>, ps: seq<AvPair>)
    requires end == pos + |AvList(ps)| <= |buf| && buf[pos..end] == AvList(ps)
    ensures Walk(buf, pos, end, acc) == Ok(ApplyAv(acc, ps))
  {
    ListAtOfAvList(buf, pos, end, ps);
    WalkListAt(buf, pos, end, acc, ps);
  }

  /** The size limits of the 16-bit length fields. */
  predicate Type2Fits(flags: bv32, targetName: JsString, info: seq<AvPair>) {
    && TextLength(EncodingOf(flags), targetName) < 0x1_0000
    && |AvList(info)| < 0x1_0000
  }

  /** The 48-byte header of a Type2 message as a server lays it out. */
  function Type2Header(flags: bv32, challenge: Bytes8, nameLength: u16, infoLength: u16): (h: Bytes)
    ensures |h| == 48
  {
    Signature + U32LE(2) + SecBuf(nameLength, 48) + U32LE(flags as int) + challenge + Zeros(8)
    + SecBuf(infoLength, 48 + nameLength)
  }

  /**
   * A Type2 message as a server lays it out: the header (signature, type 2, target-name
   * buffer, flags, challenge, eight reserved bytes, target-info buffer), then the target
   * name in the encoding the flags select, then the target information.
   */
  function BuildType2(flags: bv32, challenge: Bytes8, targetName: JsString, info: seq<AvPair>): (m: Bytes)
    requires Type2Fits(flags, targetName, info)
    ensures |m| == 48 + TextLength(EncodingOf(flags), targetName) + |AvList(info)|
  {
    var name := EncodeText(EncodingOf(flags), targetName);
    EncodeTextLength(EncodingOf(flags), targetName);
    var ti := AvList(info);
    Type2Header(flags, challenge, |name|, |ti|) + name + ti
  }

  lemma SignatureReadsBack()
    ensures AsciiText(Signature) == SignatureText
  {
    AsciiRoundTrip(SignatureText);
  }

  lemma FlagsWidenBack(flags: bv32)
    ensures (flags as int) as bv32 == flags
  {
  }

  /** Where the header fields sit. */
  lemma Type2HeaderLayout(flags: bv32, challenge: Bytes8, nameLength: u16, infoLength: u16)
    ensures var h := Type2Header(flags, challenge, nameLength, infoLength);
      && h[..8] == Signature
      && h[8..12] == U32LE(2)
      && h[12..20] == SecBuf(nameLength, 48)
      && h[20..24] == U32LE(flags as int)
      && h[24..32] == challenge
      && h[40..48] == SecBuf(infoLength, 48 + nameLength)
  {
  }

  /** The signature, message type and target-name buffer of an encoded header read back. */
  lemma Type2HeaderFrontReadsBack(m: Bytes, flags: bv32, challenge: Bytes8, nameLength: u16, infoLength: u16)
    requires |m| >= 48 && m[..48] == Type2Header(flags, challenge, nameLength, infoLength)
    ensures HasSignature(m)
    ensures ReadU32LE(m, 8) == 2
    ensures ReadU16LE(m, 12) == nameLength && ReadU32LE(m, 16) == 48
  {
    var h := m[..48];
    Type2HeaderLayout(flags, challenge, nameLength, infoLength);
    SubSlice(m, 0, h, 0, 8);
    SignatureReadsBack();
    SubSlice(m, 0, h, 8, 12);
    ReadU32LEOfWrite(m, 8, 2);
    SubSlice(m, 0, h, 12, 20);
    SecBufFields(m, 12, nameLength, 48);
  }

  /** The flags, challenge and target-information buffer of an encoded header read back. */
  lemma Type2HeaderBackReadsBack(m: Bytes, flags: bv32, challenge: Bytes8, nameLength: u16, infoLength: u16)
    requires |m| >= 48 && m[..48] == Type2Header(flags, challenge, nameLength, infoLength)
    ensures ReadU32LE(m, 20) as bv32 == flags
    ensures m[24..32] == challenge
    ensures ReadU16LE(m, 40) == infoLength && ReadU32LE(m, 44) == 48 + nameLength
  {
    var h := m[..48];
    Type2HeaderLayout(flags, challenge, nameLength, infoLength);
    SubSlice(m, 0, h, 20, 24);
    ReadU32LEOfWrite(m, 20, flags as int);
    FlagsWidenBack(flags);
    SubSlice(m, 0, h, 24, 32);
    SubSlice(m, 0, h, 40, 48);
    SecBufFields(m, 40, infoLength, 48 + nameLength);
  }

  /** Where the parts of an encoded message sit. */
  lemma BuildType2Layout(flags: bv32, challenge: Bytes8, targetName: JsString, info: seq<AvPair>)
    requires Type2Fits(flags, targetName, info)
    ensures var m := BuildType2(flags, challenge, targetName, info);
      var name := EncodeText(EncodingOf(flags), targetName);
      var ti := AvList(info);
      && |name| < 0x1_0000
      && |m| == 48 + |name| + |ti|
      && m[..48] == Type2Header(flags, challenge, |name|, |ti|)
      && m[48..48 + |name|] == name
      && m[48 + |name|..48 + |name| + |ti|] == ti
  {
    EncodeTextLength(EncodingOf(flags), targetName);
  }

  /** The target name field read from a buffer whose security buffer points at an encoded name. */
  lemma TargetNameLaidOut(m: Bytes, enc: Encoding, targetName: JsString, name: Bytes)
    requires |m| >= 48 && name == EncodeText(enc, targetName)
    requires enc == Ascii ==> IsAsciiText(targetName)
    requires ReadU16LE(m, 12) == |name| && ReadU32LE(m, 16) == 48
    requires 48 + |name| <= |m| && m[48..48 + |name|] == name
    ensures TargetName(m, enc) == Ok(targetName)
  {
    DecodeEncodeText(enc, targetName);
    EncodeTextLength(enc, targetName);
  }

  /** The target information read from a buffer whose security buffer points at an encoded list. */
  lemma TargetInfoLaidOut(m: Bytes, infoAt: nat, info: seq<AvPair>, ti: Bytes)
    requires |m| >= 48 && ti == AvList(info) && infoAt >= 32
    requires ReadU16LE(m, 40) == |ti| && ReadU32LE(m, 44) == infoAt
    requires infoAt + |ti| <= |m| && m[infoAt..infoAt + |ti|] == ti
    ensures TargetInfoOf(m) == Ok(Info(ApplyAv(map[], info), ti))
  {
    WalkAvList(m, infoAt, infoAt + |ti|, map[], info);
    TargetInfoReadsBack(m, infoAt, |ti|, ApplyAv(map[], info), ti);
  }

  /** A non-empty, in-bounds target-information buffer whose walk succeeds reads back. */
  lemma TargetInfoReadsBack(m: Bytes, offset: nat, length: nat, parsed: map<AvId, JsString>, ti: Bytes)
    requires |m| >= 48 && ReadU16LE(m, 40) == length && ReadU32LE(m, 44) == offset
    requires length != 0 && 32 <= offset && offset + length <= |m| && m[offset..offset + length] == ti
    requires Walk(m, offset, offset + length, map[]) == Ok(parsed)
    ensures TargetInfoOf(m) == Ok(Info(parsed, ti))
  {
  }

  /** Decoding a buffer laid out as header, target name and target information. */
  lemma DecodeLaidOutType2(m: Bytes, flags: bv32, challenge: Bytes8, targetName: JsString, info: seq<AvPair>,
                           name: Bytes, ti: Bytes)
    requires name == EncodeText(EncodingOf(flags), targetName) && |name| < 0x1_0000
    requires ti == AvList(info) && |ti| < 0x1_0000
    requires EncodingOf(flags) == Ascii ==> IsAsciiText(targetName)
    requires |m| == 48 + |name| + |ti|
    requires m[..48] == Type2Header(flags, challenge, |name|, |ti|)
    requires m[48..48 + |name|] == name
    requires m[48 + |name|..48 + |name| + |ti|] == ti
    ensures DecodeType2Bytes(m) ==
      Ok(Type2(flags, EncodingOf(flags), VersionOf(flags), challenge, targetName,
        if HasFlag(flags, NegotiateTargetInfo) then Some(Info(ApplyAv(map[], info), ti)) else None))
  {
    Type2HeaderFrontReadsBack(m, flags, challenge, |name|, |ti|);
    Type2HeaderBackReadsBack(m, flags, challenge, |name|, |ti|);
    TargetNameLaidOut(m, EncodingOf(flags), targetName, name);
    TargetInfoLaidOut(m, 48 + |name|, info, ti);
    DecodeType2BytesSucceeds(m, flags, challenge, targetName, Info(ApplyAv(map[], info), ti));
  }

  /**
   * Decoding inverts the encoder: every field comes back, and the target information
   * is present exactly when the flags negotiate it. An 'ascii' target name must be 7-bit.
   */
  lemma DecodeBuiltType2(flags: bv32, challenge: Bytes8, targetName: JsString, info: seq<AvPair>)
    requires Type2Fits(flags, targetName, info)
    requires EncodingOf(flags) == Ascii ==> IsAsciiText(targetName)
    ensures DecodeType2Bytes(BuildType2(flags, challenge, targetName, info)) ==
      Ok(Type2(flags, EncodingOf(flags), VersionOf(flags), challenge, targetName,
        if HasFlag(flags, NegotiateTargetInfo) then Some(Info(ApplyAv(map[], info), AvList(info))) else None))
  {
    BuildType2Layout(flags, challenge, targetName, info);
    DecodeLaidOutType2(BuildType2(flags, challenge, targetName, info), flags, challenge, targetName, info,
      EncodeText(EncodingOf(flags), targetName), AvList(info));
  }
}
