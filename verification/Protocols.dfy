// The twelve protocols: what each decoder makes of a recorded buffer, and what each sender puts on the wire.
module Protocols {
  import opened Digits
  import opened Pulse
  import opened Wire
  import opened PhaseCode
  import opened PhaseRuns

  const NEC: uint8 := 1
  const SONY: uint8 := 2
  const RC5: uint8 := 3
  const RC6: uint8 := 4
  const PANASONIC_OLD: uint8 := 5
  const JVC: uint8 := 6
  const NECX: uint8 := 7
  const SAMSUNG36: uint8 := 8
  const GICABLE: uint8 := 9
  const DIRECTV: uint8 := 10
  const RCMM: uint8 := 11
  const CYKM: uint8 := 12
  const REPEAT_CODE: uint32 := 0xffff_ffff

  // The decoder's public fields after a successful decode.
  datatype Decoded = Decoded(protocolNum: uint8, value: uint32, address: uint16, bits: uint8)

  // --- Payload formats ---

  function PulseDistance(mark: nat, one: nat, zero: nat): Alphabet {
    Alphabet([[Percent(mark), Percent(zero)], [Percent(mark), Percent(one)]])
  }

  // The frame of decodeGeneric: its last mark is never looked at.
  function Generic(headMark: nat, headSpace: nat, mark: nat, one: nat, zero: nat): Format {
    Format([Percent(headMark), Percent(headSpace)], PulseDistance(mark, one, zero), [Unchecked(mark)])
  }

  function NECFormat(): Format { Generic(564 * 16, 564 * 8, 564, 564 * 3, 564) }
  function PanasonicOldFormat(): Format { Generic(833 * 4, 833 * 4, 833, 833 * 3, 833) }
  function JVCFormat(): Format { Generic(525 * 16, 525 * 8, 525, 525 * 3, 525) }
  function JVCRepeatFormat(): Format { JVCFormat().(head := []) }
  function NECxFormat(): Format { Generic(564 * 8, 564 * 8, 564, 564 * 3, 564) }
  function GICableFormat(): Format { Generic(490 * 18, 490 * 9, 490, 490 * 9, 2205) }
  function CYKMFormat(): Format { Generic(3100, 3100, 650, 650 * 3, 650) }

  // Sony sends the bit in the length of the mark.
  function SonyFormat(): Format { Format([Percent(600 * 4)], PulseDistance(600, 600 * 2, 600), []) }

  // DirecTV sends one bit in every mark and one in every space.
  function DirecTVFormat(first: bool): Format {
    Format([Percent(if first then 6000 else 3000), Percent(1200)],
           Alphabet([[Percent(600)], [Percent(1200)]]), [Unchecked(600)])
  }

  // RC-MM sends two bits in every space.
  function RCMMCode(space: nat): seq<Window> { [Absolute(167, 80), Absolute(space, 80)] }

  function RCMMFormat(): Format {
    Format([Percent(417), Percent(278)],
           Alphabet([RCMMCode(278), RCMMCode(444), RCMMCode(611), RCMMCode(778)]), [Percent(167)])
  }

  // Samsung36 sends a 16-bit address and 20 bits of data behind a second header.
  function Samsung36Alphabet(): Alphabet { PulseDistance(500, 500 * 3, 500) }

  function Samsung36Pattern(address: seq<nat>, data: seq<nat>): seq<Window> {
    [Percent(500 * 9), Percent(500 * 9)] + Pattern(address, Samsung36Alphabet())
    + [Percent(500), Percent(500 * 9)] + Pattern(data, Samsung36Alphabet()) + [Unchecked(500)]
  }

  // --- Decoders, on the recorded buffer ---

  function Low32(x: nat): uint32 { x % 0x1_0000_0000 }

  function FromBits(protocolNum: uint8, symbols: Option<seq<nat>>): Option<Decoded> {
    match symbols
    case None => None
    case Some(s) =>
      Some(Decoded(protocolNum, Low32(Val(s, 2)), (Val(s, 2) / 0x1_0000_0000) % 0x1_0000, |s| % 0x100))
  }

  predicate IsDitto(buf: seq<uint16>, mark: nat, space: nat, last: nat) {
    |buf| == 4 && Match(buf[1], mark) && Match(buf[2], space) && Match(buf[3], last)
  }

  function DecodeNEC(buf: seq<uint16>): Option<Decoded> {
    if IsDitto(buf, 564 * 16, 564 * 4, 564) then Some(Decoded(NEC, REPEAT_CODE, 0, 0))
    else FromBits(NEC, DecodePulse(NECFormat(), buf, 68))
  }

  function DecodeSony(buf: seq<uint16>): Option<Decoded> {
    if |buf| != 18 && |buf| != 26 && |buf| != 32 && |buf| != 42 then None
    else FromBits(SONY, DecodePulse(SonyFormat(), buf, |buf|))
  }

  function FromPhase(protocolNum: uint8, symbols: Option<seq<nat>>, longForm: nat): Option<Decoded> {
    match symbols
    case None => None
    case Some(s) => Some(Decoded(protocolNum, Low32(Val(s, 2)), 0, if |s| == longForm then 32 else |s| % 0x100))
  }

  function DecodeRC5(buf: seq<uint16>): Option<Decoded> {
    if |buf| < 13 then None
    else FromPhase(RC5, DecodePhase(RC5Code, [MARK], Levels(buf, 1, T1(RC5Code))), 32)
  }

  function DecodeRC6(buf: seq<uint16>): Option<Decoded> {
    if |buf| < 23 || |buf| > 77 || !Match(buf[1], 2666) || !Match(buf[2], 889) then None
    else FromPhase(RC6, DecodePhase(RC6Code, [MARK, SPACE], Levels(buf, 3, T1(RC6Code))), 36)
  }

  function DecodePanasonicOld(buf: seq<uint16>): Option<Decoded> {
    FromBits(PANASONIC_OLD, DecodePulse(PanasonicOldFormat(), buf, 48))
  }

  function DecodeJVC(buf: seq<uint16>): Option<Decoded> {
    var headed := FromBits(JVC, DecodePulse(JVCFormat(), buf, 36));
    if headed.Some? then Some(headed.value.(address := 1))
    else FromBits(JVC, DecodePulse(JVCRepeatFormat(), buf, 34))
  }

  predicate IsNECxRepeat(buf: seq<uint16>) {
    |buf| == 6 && Match(buf[1], 564 * 8) && Match(buf[2], 564 * 8) && Match(buf[3], 564) && Match(buf[5], 564)
  }

  function DecodeNECx(buf: seq<uint16>): Option<Decoded> {
    if IsNECxRepeat(buf) then Some(Decoded(NECX, REPEAT_CODE, 0, 0))
    else FromBits(NECX, DecodePulse(NECxFormat(), buf, 68))
  }

  // The decoder takes the 68us break off the entry behind the one it was sent in, in 16 bits.
  function WithoutBreak(buf: seq<uint16>): (r: seq<uint16>)
    requires |buf| == 78
  {
    var shortened: int := buf[62];
    buf[62 := (shortened - 68) % 0x1_0000]
  }

  function DecodeSamsung36(buf: seq<uint16>): Option<Decoded> {
    if |buf| != 78 || !Conforms(buf[1..3], [Percent(500 * 9), Percent(500 * 9)]) then None
    else match Parse(buf[3..35], Samsung36Alphabet())
      case None => None
      case Some(address) =>
        if !Conforms(buf[35..37], [Percent(500), Percent(500 * 9)]) then None
        else match Parse(WithoutBreak(buf)[37..77], Samsung36Alphabet())
          case None => None
          case Some(data) => Some(Decoded(SAMSUNG36, Low32(Val(data, 2)), Val(address, 2) % 0x1_0000, 36))
  }

  function DecodeGICable(buf: seq<uint16>): Option<Decoded> {
    if IsDitto(buf, 490 * 18, 2205, 490) then Some(Decoded(GICABLE, REPEAT_CODE, 0, 0))
    else FromBits(GICABLE, DecodePulse(GICableFormat(), buf, 36))
  }

  function DecodeDirecTV(buf: seq<uint16>): Option<Decoded> {
    var again, first := FromBits(DIRECTV, DecodePulse(DirecTVFormat(false), buf, 20)),
                        FromBits(DIRECTV, DecodePulse(DirecTVFormat(true), buf, 20));
    if again.Some? then again else if first.Some? then Some(first.value.(address := 1)) else None
  }

  function DecodeRCMM(buf: seq<uint16>): Option<Decoded> {
    if |buf| != 16 && |buf| != 28 && |buf| != 36 then None
    else match DecodePulse(RCMMFormat(), buf, |buf|)
      case None => None
      case Some(s) => Some(Decoded(RCMM, Low32(Val(s, 4)), 0, |buf| - 4))
  }

  function DecodeCYKM(buf: seq<uint16>): Option<Decoded> {
    FromBits(CYKM, DecodePulse(CYKMFormat(), buf, 34))
  }

  // Decoder number p of IRLibCombo.h on its own.
  function DecodeBy(p: uint8, buf: seq<uint16>): Option<Decoded> {
    if p == NEC then DecodeNEC(buf)
    else if p == SONY then DecodeSony(buf)
    else if p == RC5 then DecodeRC5(buf)
    else if p == RC6 then DecodeRC6(buf)
    else if p == PANASONIC_OLD then DecodePanasonicOld(buf)
    else if p == JVC then DecodeJVC(buf)
    else if p == NECX then DecodeNECx(buf)
    else if p == SAMSUNG36 then DecodeSamsung36(buf)
    else if p == GICABLE then DecodeGICable(buf)
    else if p == DIRECTV then DecodeDirecTV(buf)
    else if p == RCMM then DecodeRCMM(buf)
    else if p == CYKM then DecodeCYKM(buf)
    else None
  }

  // The chain from decoder p on: the first that accepts wins.
  function ChainFrom(p: uint8, buf: seq<uint16>): Option<Decoded>
    decreases 13 - p
  {
    if p > 12 then None
    else if DecodeBy(p, buf).Some? then DecodeBy(p, buf)
    else ChainFrom(p + 1, buf)
  }

  function DecodeChain(buf: seq<uint16>): Option<Decoded> { ChainFrom(1, buf) }

  // --- Messages and their frames ---

  datatype Message =
    | NECMessage(data: uint32)
    | SonyMessage(data: uint32, nbits: uint8)
    | RC5Message(data: uint32, nbits: uint8)
    | RC6Message(data: uint32, nbits: uint8)
    | PanasonicOldMessage(data: uint32)
    | JVCMessage(data: uint32, first: bool)
    | NECxMessage(data: uint32)
    | Samsung36Message(data: uint32, address: uint32)
    | GICableMessage(data: uint32)
    | DirecTVMessage(data: uint32, first: bool)
    | RCMMMessage(data: uint32, nbits: uint8)
    | CYKMMessage(data: uint32)

  function Bits(data: nat, n: nat): seq<nat> { ToDigits(data, n, 2) }

  function RC5Units(data: uint32, n: nat): seq<Event> {
    [Event(MARK, 1)] + PhaseUnits(RC5Code, Bits(data, n), 0)
  }

  // The 32-bit variety is sent as 36 bits, with 0xC in front.
  function RC6Bits(data: uint32, n: nat): seq<nat> {
    if n == 32 then Bits(0xC_0000_0000 + data, 36) else Bits(data, n)
  }

  function RC6Units(data: uint32, n: nat): seq<Event> {
    [Event(MARK, 1), Event(SPACE, 1)] + PhaseUnits(RC6Code, RC6Bits(data, n), 0)
  }

  function Samsung36Frame(address: uint32, data: uint32): seq<nat> {
    var ds := Nominal(Samsung36Pattern(Bits(address, 16), Bits(data, 20)));
    if |ds| == 77 then ds[59 := ds[59] + 68] else ds
  }

  // The intervals of one frame as its sender times them, from the first mark to the last.
  function Frame(m: Message): seq<nat> {
    match m
    case NECMessage(d) =>
      if d == REPEAT_CODE then [564 * 16, 564 * 4, 564] else Nominal(FramePattern(NECFormat(), Bits(d, 32)))
    case SonyMessage(d, n) => Nominal(FramePattern(SonyFormat(), Bits(d, n)))
    case RC5Message(d, n) => Capture(Scale(RC5Units(d, n), 889))
    case RC6Message(d, n) => [2666, 889] + Capture(Scale(RC6Units(d, n), 444))
    case PanasonicOldMessage(d) => Nominal(FramePattern(PanasonicOldFormat(), Bits(d, 22)))
    case JVCMessage(d, first) => Nominal(FramePattern(if first then JVCFormat() else JVCRepeatFormat(), Bits(d, 16)))
    case NECxMessage(d) =>
      if d == REPEAT_CODE then [564 * 8, 564 * 8, 564, 564, 564] else Nominal(FramePattern(NECxFormat(), Bits(d, 32)))
    case Samsung36Message(d, a) => Samsung36Frame(a, d)
    case GICableMessage(d) =>
      if d == REPEAT_CODE then [490 * 18, 2205, 490] else Nominal(FramePattern(GICableFormat(), Bits(d, 16)))
    case DirecTVMessage(d, first) => Nominal(FramePattern(DirecTVFormat(first), Bits(d, 16)))
    case RCMMMessage(d, n) => Nominal(FramePattern(RCMMFormat(), RCMMDigits(d, n)))
    case CYKMMessage(d) => Nominal(FramePattern(CYKMFormat(), Bits(d, 15)))
  }

  // RC-MM sends the bits two by two, from the top of n bits down: an odd last one stays behind.
  function RCMMDigits(data: uint32, n: nat): seq<nat> { ToDigits(if n % 2 == 1 then data / 2 else data, n / 2, 4) }

  // How many entries the frame of phase-coded bits fills in the buffer, with the gap and the header of
  // RC6 in front. The start bit of either protocol ends like a one, and silence at the end is not recorded.
  function PhaseEntries(k: Kind, bits: seq<nat>): nat {
    var last := if bits == [] then MARK else Opposite(FirstLevel(k, bits[|bits| - 1]));
    (if k.RC5Code? then 2 else 5) + 2 * |bits| - Turns(1, bits) - if last == SPACE then 1 else 0
  }

  // What the decoders can take: the documented widths, and for RC5 and RC6 every payload whose frame
  // has as many entries as the decoder asks for.
  predicate Supported(m: Message) {
    match m
    case SonyMessage(_, n) => n == 8 || n == 12 || n == 15 || n == 20
    case RC5Message(d, n) => 1 <= n <= 32 && 13 <= PhaseEntries(RC5Code, Bits(d, n))
    case RC6Message(d, n) => 1 <= n <= 64 && 23 <= PhaseEntries(RC6Code, RC6Bits(d, n)) <= 77
    case RCMMMessage(_, n) => n == 12 || n == 24 || n == 32
    case _ => true
  }

  // The low n bits of a payload, as a 32-bit value.
  function Low(d: nat, n: nat): uint32 { Low32(d % Pow(2, n)) }

  // What the decoder's fields must hold after the frame of m. The ditto of G.I. Cable cannot be
  // told from NEC's.
  function Expected(m: Message): Decoded {
    match m
    case NECMessage(d) => if d == REPEAT_CODE then Decoded(NEC, REPEAT_CODE, 0, 0) else Decoded(NEC, d, 0, 32)
    case SonyMessage(d, n) => Decoded(SONY, Low(d, n), 0, n)
    case RC5Message(d, n) => Decoded(RC5, Low(d, n), 0, n)
    case RC6Message(d, n) => Decoded(RC6, Low(d, n), 0, if n == 36 then 32 else n)
    case PanasonicOldMessage(d) => Decoded(PANASONIC_OLD, Low(d, 22), 0, 22)
    case JVCMessage(d, first) => Decoded(JVC, Low(d, 16), if first then 1 else 0, 16)
    case NECxMessage(d) => if d == REPEAT_CODE then Decoded(NECX, REPEAT_CODE, 0, 0) else Decoded(NECX, d, 0, 32)
    case Samsung36Message(d, a) => Decoded(SAMSUNG36, Low(d, 20), a % 0x1_0000, 36)
    case GICableMessage(d) =>
      if d == REPEAT_CODE then Decoded(NEC, REPEAT_CODE, 0, 0) else Decoded(GICABLE, Low(d, 16), 0, 16)
    case DirecTVMessage(d, first) => Decoded(DIRECTV, Low(d, 16), if first then 1 else 0, 16)
    case RCMMMessage(d, n) => Decoded(RCMM, Low(d, n), 0, n)
    case CYKMMessage(d) => Decoded(CYKM, Low(d, 15), 0, 15)
  }
}
