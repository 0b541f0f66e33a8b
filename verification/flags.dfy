/**
 * The NTLM negotiate flags. Each exported constant of the original is `1 << k`;
 * here every flag names its bit position and its mask is an unsigned 32-bit value,
 * so `Negotiate56` is 0x8000_0000 rather than JavaScript's negative `1 << 31`.
 */
module Flags {
  import opened Wrappers

  datatype Flag =
    | NegotiateUnicode | NegotiateOem | RequestTarget | NegotiateSign | NegotiateSeal
    | NegotiateDatagramStyle | NegotiateLmKey | NegotiateNetware | NegotiateNtlmKey
    | NegotiateAnonymous | NegotiateDomainSupplied | NegotiateWorkstationSupplied
    | NegotiateLocalCall | NegotiateAlwaysSign | TargetTypeDomain | TargetTypeServer
    | TargetTypeShare | NegotiateNtlm2Key | RequestInitResponse | RequestAcceptResponse
    | RequestNonNtSessionKey | NegotiateTargetInfo | Negotiate128 | NegotiateKeyExchange
    | Negotiate56

  /** The bit `k` of the constant `1 << k` that defines each flag. */
  function Position(f: Flag): (k: nat)
    ensures k < 32
  {
    match f
    case NegotiateUnicode => 0
    case NegotiateOem => 1
    case RequestTarget => 2
    case NegotiateSign => 4
    case NegotiateSeal => 5
    case NegotiateDatagramStyle => 6
    case NegotiateLmKey => 7
    case NegotiateNetware => 8
    case NegotiateNtlmKey => 9
    case NegotiateAnonymous => 11
    case NegotiateDomainSupplied => 12
    case NegotiateWorkstationSupplied => 13
    case NegotiateLocalCall => 14
    case NegotiateAlwaysSign => 15
    case TargetTypeDomain => 16
    case TargetTypeServer => 17
    case TargetTypeShare => 18
    case NegotiateNtlm2Key => 19
    case RequestInitResponse => 20
    case RequestAcceptResponse => 21
    case RequestNonNtSessionKey => 22
    case NegotiateTargetInfo => 23
    case Negotiate128 => 29
    case NegotiateKeyExchange => 30
    case Negotiate56 => 31
  }

  /** The flag defined at bit `k`, if any; bits 3, 10 and 24..28 are unassigned. */
  function FlagAt(k: nat): Option<Flag> {
    match k
    case 0 => Some(NegotiateUnicode)
    case 1 => Some(NegotiateOem)
    case 2 => Some(RequestTarget)
    case 4 => Some(NegotiateSign)
    case 5 => Some(NegotiateSeal)
    case 6 => Some(NegotiateDatagramStyle)
    case 7 => Some(NegotiateLmKey)
    case 8 => Some(NegotiateNetware)
    case 9 => Some(NegotiateNtlmKey)
    case 11 => Some(NegotiateAnonymous)
    case 12 => Some(NegotiateDomainSupplied)
    case 13 => Some(NegotiateWorkstationSupplied)
    case 14 => Some(NegotiateLocalCall)
    case 15 => Some(NegotiateAlwaysSign)
    case 16 => Some(TargetTypeDomain)
    case 17 => Some(TargetTypeServer)
    case 18 => Some(TargetTypeShare)
    case 19 => Some(NegotiateNtlm2Key)
    case 20 => Some(RequestInitResponse)
    case 21 => Some(RequestAcceptResponse)
    case 22 => Some(RequestNonNtSessionKey)
    case 23 => Some(NegotiateTargetInfo)
    case 29 => Some(Negotiate128)
    case 30 => Some(NegotiateKeyExchange)
    case 31 => Some(Negotiate56)
    case _ => None
  }

  /** The unsigned 32-bit mask of a flag. */
  function Mask(f: Flag): bv32 {
    1 << Position(f)
  }

  /** Looking a flag up by its position finds that flag. */
  lemma FlagAtPosition(f: Flag)
    ensures FlagAt(Position(f)) == Some(f)
  {
  }

  /** No two flags share a bit position. */
  lemma PositionInjective(f: Flag, g: Flag)
    ensures Position(f) == Position(g) <==> f == g
  {
    FlagAtPosition(f);
    FlagAtPosition(g);
  }

  lemma SingleBitNonzero(j: nat)
    requires j < 32
    ensures (1 as bv32 << j) != 0
  {
  }

  lemma SingleBitsDisjoint(j: nat, k: nat)
    requires j < 32 && k < 32 && j != k
    ensures (1 as bv32 << j) & (1 as bv32 << k) == 0
  {
  }

  /** Every mask is a single nonzero bit. */
  lemma MaskNonzero(f: Flag)
    ensures Mask(f) != 0
  {
    SingleBitNonzero(Position(f));
  }

  /** Distinct flags have disjoint masks. */
  lemma MasksDisjoint(f: Flag, g: Flag)
    requires f != g
    ensures Mask(f) & Mask(g) == 0
  {
    var j, k := Position(f), Position(g);
    PositionInjective(f, g);
    SingleBitsDisjoint(j, k);
  }

  /** Whether `flags` has the bit of `f` set (the original tests `flags & FLAG` for truthiness). */
  predicate HasFlag(flags: bv32, f: Flag) {
    flags & Mask(f) != 0
  }

  /** The flag word of a Type1 message: OEM, request-target, NTLM key, always-sign, NTLM2 key. */
  const Type1Flags: bv32 :=
    Mask(NegotiateOem) | Mask(RequestTarget) | Mask(NegotiateNtlmKey) | Mask(NegotiateAlwaysSign) | Mask(NegotiateNtlm2Key)

  lemma Type1FlagsValue()
    ensures Type1Flags == 0x0008_8206
  {
  }

  /** The bits the Type2 decoder tests, and the top bit read as an unsigned mask. */
  lemma DecoderFlagBits()
    ensures Mask(NegotiateOem) == 0x0000_0002
    ensures Mask(NegotiateNtlm2Key) == 0x0008_0000
    ensures Mask(NegotiateTargetInfo) == 0x0080_0000
    ensures Mask(Negotiate56) == 0x8000_0000
  {
  }
}
