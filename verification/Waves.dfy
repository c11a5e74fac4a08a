// What every send method puts on the wire, and the registers it shifts the payload out of.
module Waves {
  import opened Digits
  import opened Pulse
  import opened Wire
  import opened PhaseCode
  import opened PhaseRuns
  import opened Protocols

  // --- What goes on the wire ---

  // The mark and space of one data bit.
  datatype Timing = Timing(markOne: nat, markZero: nat, spaceOne: nat, spaceZero: nat) {
    function Cell(bit: nat): seq<Event> {
      if bit == 1
      then [Event(MARK, markOne), Event(SPACE, spaceOne)]
      else [Event(MARK, markZero), Event(SPACE, spaceZero)]
    }
  }

  function BitEvents(bits: seq<nat>, t: Timing): seq<Event> {
    if bits == [] then [] else t.Cell(bits[0]) + BitEvents(bits[1..], t)
  }

  function Header(headMark: nat, headSpace: nat): seq<Event> {
    (if headMark != 0 then [Event(MARK, headMark)] else [])
    + (if headSpace != 0 then [Event(SPACE, headSpace)] else [])
  }

  // The rest of a frame of the given total length, as space() receives it in 16 bits.
  function Remainder(total: nat, body: seq<Event>): (r: nat)
    ensures r < 0x1_0000
  {
    (total - Total(body)) % 0x1_0000
  }

  function Silence(times: seq<nat>): seq<Event> { seq(|times|, i requires 0 <= i < |times| => Event(SPACE, times[i])) }

  function PulseWave(frame: seq<nat>, silence: seq<nat>): seq<Event> {
    Alternate(frame, MARK) + Silence(silence)
  }

  function SonyBody(d: uint32, n: uint8): seq<Event> { Alternate(Frame(SonyMessage(d, n)), MARK) + [Event(SPACE, 600)] }

  // The two parts of a Samsung36 frame, with a break of 68us between them.
  function Samsung36Before(a: uint32, d: uint32): seq<nat> {
    var al := Samsung36Alphabet();
    [500 * 9, 500 * 9] + Nominal(Pattern(Bits(a, 16), al)) + [500, 500 * 9] + Nominal(Pattern(Bits(d, 20)[..12], al))
  }

  function Samsung36After(d: uint32): seq<nat> {
    Nominal(Pattern(Bits(d, 20)[12..], Samsung36Alphabet())) + [500]
  }

  function Copies(es: seq<Event>, n: nat): seq<Event> { if n == 0 then [] else Copies(es, n - 1) + es }

  function NECWave(d: uint32): seq<Event> {
    var frame := Frame(NECMessage(d));
    PulseWave(frame, if d == REPEAT_CODE then [572, 97000] else [Remainder(108000, Alternate(frame, MARK))])
  }

  function SonyOnce(d: uint32, n: uint8): seq<Event> {
    SonyBody(d, n) + [Event(SPACE, Remainder(45000, SonyBody(d, n)))]
  }

  function RC5Wave(d: uint32, n: nat): seq<Event> {
    var body := Scale(RC5Units(d, n), 889);
    body + [Event(SPACE, Remainder(114000, body))]
  }

  function RC6Body(d: uint32, n: nat): seq<Event> {
    [Event(MARK, 2666), Event(SPACE, 889)] + Scale(RC6Units(d, n), 444)
  }

  function RC6Wave(d: uint32, n: nat): seq<Event> { RC6Body(d, n) + [Event(SPACE, Remainder(107000, RC6Body(d, n)))] }

  function JVCWave(d: uint32, first: bool): seq<Event> { PulseWave(Frame(JVCMessage(d, first)), [525 * 3, 525 * 45]) }

  function NECxWave(d: uint32): seq<Event> {
    PulseWave(Frame(NECxMessage(d)), if d == REPEAT_CODE then [412, 98000] else [564 * 3])
  }

  function Samsung36Wave(d: uint32, a: uint32): seq<Event> {
    Alternate(Samsung36Before(a, d), MARK) + [Event(SPACE, 68)]
    + Alternate(Samsung36After(d), MARK) + [Event(SPACE, 118 * 500)]
  }

  function GICableWave(d: uint32): seq<Event> {
    PulseWave(Frame(GICableMessage(d)), if d == REPEAT_CODE then [220, 87000] else [490 * 9, 37 * 490])
  }

  function DirecTVWave(d: uint32, first: bool, longLeadOut: bool): seq<Event> {
    PulseWave(Frame(DirecTVMessage(d, first)), [if longLeadOut then 50 * 600 else 15 * 600])
  }

  function RCMMWave(d: uint32, n: uint8): seq<Event> {
    var frame := Frame(RCMMMessage(d, n));
    PulseWave(frame, [Remainder(27778, Alternate(frame, MARK))])
  }

  // Everything that one call of a send method emits.
  function WaveOf(m: Message, longLeadOut: bool): seq<Event> {
    match m
    case NECMessage(d) => NECWave(d)
    case SonyMessage(d, n) => Copies(SonyOnce(d, n), 3)
    case RC5Message(d, n) => RC5Wave(d, n)
    case RC6Message(d, n) => RC6Wave(d, n)
    case PanasonicOldMessage(_) => PulseWave(Frame(m), [833 * 3])
    case JVCMessage(d, first) => JVCWave(d, first) + (if first then JVCWave(d, false) else [])
    case NECxMessage(d) => NECxWave(d)
    case Samsung36Message(d, a) => Samsung36Wave(d, a)
    case GICableMessage(d) => GICableWave(d)
    case DirecTVMessage(d, first) => DirecTVWave(d, first, longLeadOut)
    case RCMMMessage(d, n) => RCMMWave(d, n)
    case CYKMMessage(_) => PulseWave(Frame(m), [650 * 3, 10000])
  }

  // What send(protocolNum, data, data2) sends: data2 is a bit count, a flag or an address.
  function MessageFor(protocolNum: uint8, data: uint32, data2: uint16): Option<Message> {
    var n: uint8 := data2 % 0x100;
    if protocolNum == NEC then Some(NECMessage(data))
    else if protocolNum == SONY then Some(SonyMessage(data, n))
    else if protocolNum == RC5 then Some(RC5Message(data, if n == 0 then 13 else n))
    else if protocolNum == RC6 then Some(RC6Message(data, if n == 0 then 16 else n))
    else if protocolNum == PANASONIC_OLD then Some(PanasonicOldMessage(data))
    else if protocolNum == JVC then Some(JVCMessage(data, data2 != 0))
    else if protocolNum == NECX then Some(NECxMessage(data))
    else if protocolNum == SAMSUNG36 then Some(Samsung36Message(data, data2))
    else if protocolNum == GICABLE then Some(GICableMessage(data))
    else if protocolNum == DIRECTV then Some(DirecTVMessage(data, data2 != 0))
    else if protocolNum == RCMM then Some(RCMMMessage(data, if n == 0 then 12 else n))
    else if protocolNum == CYKM then Some(CYKMMessage(data))
    else None
  }

  // What send is asked for is what a decoder is to find: its own number. Only the ditto of G.I. Cable is
  // taken for NEC's.
  lemma NumberAsAsked(protocolNum: uint8, data: uint32, data2: uint16)
    ensures var m := MessageFor(protocolNum, data, data2);
            && (m.Some? <==> 1 <= protocolNum <= 12)
            && (m.Some? && m.value != GICableMessage(REPEAT_CODE) ==> Expected(m.value).protocolNum == protocolNum)
  {
  }

  // data2 is the width of four protocols, 0 standing for the default, the address of one and a flag of
  // two; the others have a width of their own.
  lemma FieldsAsAsked(protocolNum: uint8, data: uint32, data2: uint16)
    requires 1 <= protocolNum <= 12 && data != 0xffff_ffff
    ensures var result := Expected(MessageFor(protocolNum, data, data2).value);
            match protocolNum
            case 1 => result == Decoded(1, data, 0, 32)
            case 2 => 0 < data2 < 0x100 ==> result == Decoded(2, Low(data, data2), 0, data2)
            case 5 => result == Decoded(5, Low(data, 22), 0, 22)
            case 6 => result == Decoded(6, Low(data, 16), if data2 == 0 then 0 else 1, 16)
            case 7 => result == Decoded(7, data, 0, 32)
            case 8 => result == Decoded(8, Low(data, 20), data2, 36)
            case 9 => result == Decoded(9, Low(data, 16), 0, 16)
            case 10 => result == Decoded(10, Low(data, 16), if data2 == 0 then 0 else 1, 16)
            case 12 => result == Decoded(12, Low(data, 15), 0, 15)
            case _ => true
  {
  }

  lemma WidthsAsAsked(protocolNum: uint8, data: uint32, data2: uint8)
    requires protocolNum == 3 || protocolNum == 4 || protocolNum == 11
    ensures var n := if data2 != 0 then data2 else if protocolNum == 3 then 13 else if protocolNum == 4 then 16 else 12;
            Expected(MessageFor(protocolNum, data, data2).value)
            == Decoded(protocolNum, Low(data, n), 0, if protocolNum == 4 && n == 36 then 32 else n)
  {
  }

  // Dittos give the repeat code without bits.
  lemma DittosAsAsked(data2: uint16)
    ensures Expected(MessageFor(1, 0xffff_ffff, data2).value) == Decoded(1, 0xffff_ffff, 0, 0)
    ensures Expected(MessageFor(7, 0xffff_ffff, data2).value) == Decoded(7, 0xffff_ffff, 0, 0)
    ensures Expected(MessageFor(9, 0xffff_ffff, data2).value) == Decoded(1, 0xffff_ffff, 0, 0)
  {
  }

  // Bit counts for which no register is shifted by more than its width, or by less than nothing.
  predicate Shiftable(m: Message) {
    match m
    case SonyMessage(_, n) => 1 <= n <= 32
    case RC5Message(_, n) => n <= 32
    case RC6Message(_, n) => n <= 64
    case RCMMMessage(_, n) => n <= 32
    case _ => true
  }

  // The same for the count of bits that send was given.
  predicate WidthFits(protocolNum: uint8, n: uint8) {
    && (protocolNum == SONY ==> 1 <= n <= 32) && (protocolNum == RC5 || protocolNum == RCMM ==> n <= 32)
    && (protocolNum == RC6 ==> n <= 64)
  }

  // es is what the send method with this number emits.
  predicate Meant(protocolNum: uint8, data: uint32, data2: uint16, long: bool, es: seq<Event>) {
    var n: uint8 := data2 % 0x100;
    match protocolNum
    case 1 => es == NECWave(data)
    case 2 => es == Copies(SonyOnce(data, n), 3)
    case 3 => es == RC5Wave(data, if n == 0 then 13 else n)
    case 4 => es == RC6Wave(data, if n == 0 then 16 else n)
    case 5 => es == PulseWave(Frame(PanasonicOldMessage(data)), [833 * 3])
    case 6 => es == JVCWave(data, data2 != 0) + (if data2 != 0 then JVCWave(data, false) else [])
    case 7 => es == NECxWave(data)
    case 8 => es == Samsung36Wave(data, data2)
    case 9 => es == GICableWave(data)
    case 10 => es == DirecTVWave(data, data2 != 0, long)
    case 11 => es == RCMMWave(data, if n == 0 then 12 else n)
    case 12 => es == PulseWave(Frame(CYKMMessage(data)), [650 * 3, 10000])
    case _ => es == []
  }

  // The message and the send method with the same number agree.
  lemma MeantFor(protocolNum: uint8, data: uint32, data2: uint16, long: bool)
    ensures var m := MessageFor(protocolNum, data, data2);
            Meant(protocolNum, data, data2, long, if m.Some? then WaveOf(m.value, long) else [])
  {
    var m := MessageFor(protocolNum, data, data2);
    if m.Some? {
      if protocolNum <= 4 {
        MeantFirst(m.value, protocolNum, data, data2, long);
      } else if protocolNum <= 8 {
        MeantSecond(m.value, protocolNum, data, data2, long);
      } else {
        MeantThird(m.value, protocolNum, data, data2, long);
      }
    }
  }

  lemma MeantFirst(m: Message, protocolNum: uint8, data: uint32, data2: uint16, long: bool)
    requires 1 <= protocolNum <= 4 && MessageFor(protocolNum, data, data2) == Some(m)
    ensures Meant(protocolNum, data, data2, long, WaveOf(m, long))
  {
    match m {
      case NECMessage(_) =>
      case SonyMessage(_, _) =>
      case RC5Message(_, _) =>
      case RC6Message(_, _) =>
    }
  }

  lemma MeantSecond(m: Message, protocolNum: uint8, data: uint32, data2: uint16, long: bool)
    requires 5 <= protocolNum <= 8 && MessageFor(protocolNum, data, data2) == Some(m)
    ensures Meant(protocolNum, data, data2, long, WaveOf(m, long))
  {
    match m {
      case PanasonicOldMessage(_) =>
      case JVCMessage(_, _) =>
      case NECxMessage(_) =>
      case Samsung36Message(_, _) =>
    }
  }

  lemma MeantThird(m: Message, protocolNum: uint8, data: uint32, data2: uint16, long: bool)
    requires 9 <= protocolNum <= 12 && MessageFor(protocolNum, data, data2) == Some(m)
    ensures Meant(protocolNum, data, data2, long, WaveOf(m, long))
  {
    match m {
      case GICableMessage(_) =>
      case DirecTVMessage(_, _) =>
      case RCMMMessage(_, _) =>
      case CYKMMessage(_) =>
    }
  }

  lemma WidthFitsFor(protocolNum: uint8, data: uint32, data2: uint16)
    requires var m := MessageFor(protocolNum, data, data2); m.Some? ==> Shiftable(m.value)
    ensures WidthFits(protocolNum, data2 % 0x100)
  {
  }

  // --- Generic frames alternate ---

  lemma {:induction false} BitEventsAlternate(bits: seq<nat>, mark: nat, one: nat, zero: nat)
    requires InBase(bits, 2)
    ensures BitEvents(bits, Timing(mark, mark, one, zero))
            == Alternate(Nominal(Pattern(bits, PulseDistance(mark, one, zero))), MARK)
  {
    if bits != [] {
      var a, t := PulseDistance(mark, one, zero), Timing(mark, mark, one, zero);
      var rest, space := Nominal(Pattern(bits[1..], a)), if bits[0] == 1 then one else zero;
      BitEventsAlternate(bits[1..], mark, one, zero);
      NominalConcat(a.codes[bits[0]], Pattern(bits[1..], a));
      assert Nominal(a.codes[bits[0]]) == [mark, space];
      AlternateConcat([mark, space], rest, MARK);
      AlternateTwo(mark, space);
      assert t.Cell(bits[0]) == [Event(MARK, mark), Event(SPACE, space)];
    }
  }

  lemma AlternateTwo(x: nat, y: nat)
    ensures Alternate([x, y], MARK) == [Event(MARK, x), Event(SPACE, y)]
  {
    assert [x, y][1..] == [y];
  }

  lemma NominalConcat(ws: seq<Window>, vs: seq<Window>)
    ensures Nominal(ws + vs) == Nominal(ws) + Nominal(vs)
  {
  }

  // Three pieces of a frame, the first two of which begin and end on the same level.
  lemma AlternateThree(x: seq<nat>, y: seq<nat>, z: seq<nat>)
    requires |x| % 2 == 0 && |y| % 2 == 0
    ensures Alternate(x + y + z, MARK) == Alternate(x, MARK) + Alternate(y, MARK) + Alternate(z, MARK)
  {
    AlternateConcat(x + y, z, MARK);
    AlternateConcat(x, y, MARK);
  }

  lemma AlternateOne(x: nat)
    ensures Alternate([x], MARK) == [Event(MARK, x)]
  {
  }

  lemma AlternateFrame(f: Format, symbols: seq<nat>)
    requires |f.head| % 2 == 0 && |Pattern(symbols, f.alphabet)| % 2 == 0
    ensures Alternate(Nominal(FramePattern(f, symbols)), MARK)
            == Alternate(Nominal(f.head), MARK) + Alternate(Nominal(Pattern(symbols, f.alphabet)), MARK)
               + Alternate(Nominal(f.tail), MARK)
  {
    var body := Pattern(symbols, f.alphabet);
    NominalConcat(f.head + body, f.tail);
    NominalConcat(f.head, body);
    AlternateThree(Nominal(f.head), Nominal(body), Nominal(f.tail));
  }

  lemma NominalOne(w: Window)
    ensures Nominal([w]) == [w.nominal]
  {
  }

  lemma NominalTwo(w: Window, v: Window)
    ensures Nominal([w, v]) == [w.nominal, v.nominal]
  {
  }

  // sendGeneric emits the intervals of the frame that decodeGeneric expects.
  lemma GenericFrame(f: Format, bits: seq<nat>, headMark: nat, headSpace: nat, mark: nat, one: nat, zero: nat)
    requires InBase(bits, 2) && f.alphabet == PulseDistance(mark, one, zero) && f.tail == [Unchecked(mark)]
    requires f.head == if headMark == 0 then [] else [Percent(headMark), Percent(headSpace)]
    requires headMark == 0 <==> headSpace == 0
    ensures Header(headMark, headSpace) + BitEvents(bits, Timing(mark, mark, one, zero)) + [Event(MARK, mark)]
            == Alternate(Nominal(FramePattern(f, bits)), MARK)
  {
    PatternEven(bits, mark, one, zero);
    BitEventsAlternate(bits, mark, one, zero);
    AlternateFrame(f, bits);
    NominalOne(Unchecked(mark));
    AlternateOne(mark);
    if headMark != 0 {
      NominalTwo(Percent(headMark), Percent(headSpace));
      AlternateTwo(headMark, headSpace);
    }
  }

  lemma {:induction false} PatternEven(bits: seq<nat>, mark: nat, one: nat, zero: nat)
    requires InBase(bits, 2)
    ensures |Pattern(bits, PulseDistance(mark, one, zero))| == 2 * |bits|
  {
    if bits != [] { PatternEven(bits[1..], mark, one, zero); }
  }

  // Sony's mark carries the bit, so its cells straddle those of the other protocols.
  lemma {:induction false} SonyAlternate(bits: seq<nat>)
    requires InBase(bits, 2)
    ensures [Event(SPACE, 600)] + BitEvents(bits, Timing(1200, 600, 600, 600))
            == Alternate(Nominal(Pattern(bits, PulseDistance(600, 1200, 600))), SPACE) + [Event(SPACE, 600)]
  {
    var a, t := PulseDistance(600, 1200, 600), Timing(1200, 600, 600, 600);
    if bits != [] {
      var rest, mark := Nominal(Pattern(bits[1..], a)), if bits[0] == 1 then 1200 else 600;
      SonyAlternate(bits[1..]);
      NominalConcat(a.codes[bits[0]], Pattern(bits[1..], a));
      NominalTwo(Percent(600), Percent(mark));
      AlternateConcat([600, mark], rest, SPACE);
      AlternateSpaceMark(600, mark);
      assert BitEvents(bits, t) == [Event(MARK, mark), Event(SPACE, 600)] + BitEvents(bits[1..], t);
      Straddle(mark, BitEvents(bits[1..], t));
    }
  }

  lemma AlternateSpaceMark(x: nat, y: nat)
    ensures Alternate([x, y], SPACE) == [Event(SPACE, x), Event(MARK, y)]
  {
    assert [x, y][1..] == [y];
  }

  lemma Straddle(mark: nat, events: seq<Event>)
    ensures [Event(SPACE, 600)] + ([Event(MARK, mark), Event(SPACE, 600)] + events)
            == [Event(SPACE, 600), Event(MARK, mark)] + ([Event(SPACE, 600)] + events)
  {
  }

  lemma Assoc(w: seq<Event>, x: seq<Event>, y: seq<Event>)
    ensures (w + x) + y == w + (x + y)
  {
  }

  lemma SilenceOne(x: nat)
    ensures Silence([x]) == [Event(SPACE, x)]
  {
  }

  lemma SilenceTwo(x: nat, y: nat)
    ensures Silence([x, y]) == [Event(SPACE, x), Event(SPACE, y)]
  {
  }

  lemma LongerWave(before: seq<Event>, ds: seq<nat>, x: nat, y: nat)
    ensures before + PulseWave(ds, [x]) + [Event(SPACE, y)] == before + PulseWave(ds, [x, y])
  {
    SilenceOne(x);
    SilenceTwo(x, y);
  }

  lemma NECBody(data: uint32)
    requires data != REPEAT_CODE
    ensures GenericBody(Bits(data, 32), 9024, 4512, Timing(564, 564, 1692, 564), true)
            == Alternate(Frame(NECMessage(data)), MARK)
  {
    GenericFrame(NECFormat(), Bits(data, 32), 9024, 4512, 564, 1692, 564);
    assert Frame(NECMessage(data)) == Nominal(FramePattern(NECFormat(), Bits(data, 32)));
  }

  // --- Registers ---

  function ShiftLeft(x: uint32): uint32 { (2 * x) % 0x1_0000_0000 }

  // data << (32 - n)
  function Load(data: uint32, n: nat): uint32
    requires n <= 32
  {
    var p: nat := data * Pow(2, 32 - n);
    p % 0x1_0000_0000
  }

  predicate TopSet(x: uint32) { x >= 0x8000_0000 }

  function TopBitOf(x: uint32): nat { if TopSet(x) then 1 else 0 }

  // The top bit of a 32-bit register, as data & TOPBIT tests it, and one shift.
  lemma TopBit(x: uint32, n: nat)
    requires n > 0
    ensures TopDigits(x, 32, n, 2) == [TopBitOf(x)] + TopDigits(ShiftLeft(x), 32, n - 1, 2)
  {
    Pow31();
    Pow32();
  }

  lemma LoadedBits(data: uint32, n: nat)
    requires n <= 32
    ensures TopDigits(Load(data, n), 32, n, 2) == Bits(data, n)
  {
    Pow32();
    TopDigitsOfLoaded(data, 32, n, 2, 0);
  }

  lemma RemainderOfExtent(total: int, elapsed: int)
    ensures (total - elapsed % 0x1_0000_0000) % 0x1_0000 == (total - elapsed) % 0x1_0000
  {
  }

  lemma ExtentGrows(elapsed: int, time: nat)
    ensures (elapsed % 0x1_0000_0000 + time) % 0x1_0000_0000 == (elapsed + time) % 0x1_0000_0000
  {
  }

  function GenericBody(bits: seq<nat>, headMark: nat, headSpace: nat, t: Timing, useStop: bool): seq<Event> {
    Header(headMark, headSpace) + BitEvents(bits, t) + (if useStop then [Event(MARK, t.markOne)] else [])
  }

  // What is still to be sent of a register whose top n bits make a payload.
  function Pending(x: uint32, n: nat, t: Timing): seq<Event> { BitEvents(TopDigits(x, 32, n, 2), t) }

  // Emitting one more bit takes it from the pending ones to the emitted ones.
  lemma EmitBit(done: seq<Event>, x: uint32, n: nat, t: Timing)
    requires n > 0
    ensures done + Pending(x, n, t) == (done + t.Cell(TopBitOf(x))) + Pending(ShiftLeft(x), n - 1, t)
  {
    var bit, rest := TopBitOf(x), TopDigits(ShiftLeft(x), 32, n - 1, 2);
    TopBit(x, n);
    assert ([bit] + rest)[1..] == rest;
    assert BitEvents([bit] + rest, t) == t.Cell(bit) + BitEvents(rest, t);
  }

  lemma AllEmitted(x: uint32, t: Timing)
    ensures Pending(x, 0, t) == []
  {
  }

  // --- Samsung36 ---

  function ShiftLeft12(x: uint32): uint32 { (4096 * x) % 0x1_0000_0000 }

  lemma {:induction false} TopPrefix(x: nat, m: nat, n: nat)
    requires m <= n
    ensures TopDigits(x, 32, n, 2)[..m] == TopDigits(x, 32, m, 2)
    decreases n
  {
    if m > 0 { TopPrefix((2 * x) % Pow(2, 32), m - 1, n - 1); }
  }

  lemma {:induction false} BitsSuffix(v: nat, k: nat, n: nat)
    requires k <= n
    ensures Bits(v, n)[n - k..] == Bits(v, k)
    decreases n
  {
    if k > 0 {
      BitsSuffix(Shorten(v, 2), k - 1, n - 1);
      assert Bits(v, n)[n - k..] == Bits(Shorten(v, 2), n - 1)[n - k..] + [v % 2];
    }
  }

  lemma Samsung36Shift(data: uint32)
    ensures ShiftLeft12(Load(data, 20)) == Load(data, 8)
  {
    Pow12();
    assert Pow(2, 24) == 0x100_0000 by { PowAdd(2, 12, 12); }
    ShiftTwice(data);
  }

  lemma ShiftTwice(data: nat)
    ensures (4096 * ((data * 4096) % 0x1_0000_0000)) % 0x1_0000_0000 == (data * 0x100_0000) % 0x1_0000_0000
  {
    var q, r := (data * 4096) / 0x1_0000_0000, (data * 4096) % 0x1_0000_0000;
    var q2, r2 := (4096 * r) / 0x1_0000_0000, (4096 * r) % 0x1_0000_0000;
    ModUnique(data * 0x100_0000, 0x1_0000_0000, 4096 * q + q2, r2);
  }

  lemma Samsung36Registers(data: uint32)
    ensures TopDigits(Load(data, 20), 32, 12, 2) == Bits(data, 20)[..12]
    ensures TopDigits(ShiftLeft12(Load(data, 20)), 32, 8, 2) == Bits(data, 20)[12..]
  {
    LoadedBits(data, 20);
    TopPrefix(Load(data, 20), 12, 20);
    LoadedBits(data, 8);
    BitsSuffix(data, 8, 20);
    Samsung36Shift(data);
  }

  function Samsung36Timing(): Timing { Timing(500, 500, 500 * 3, 500) }

  function Samsung36Address(a: uint32): seq<Event> {
    Header(4500, 4500) + BitEvents(Bits(a, 16), Samsung36Timing()) + Header(500, 4500)
  }

  function Samsung36Early(d: uint32, a: uint32): seq<Event> {
    Samsung36Address(a) + BitEvents(Bits(d, 20)[..12], Samsung36Timing())
  }

  function Samsung36Late(d: uint32): seq<Event> {
    BitEvents(Bits(d, 20)[12..], Samsung36Timing()) + [Event(MARK, 500)]
  }

  lemma Samsung36Events(d: uint32, a: uint32)
    ensures Samsung36Early(d, a) == Alternate(Samsung36Before(a, d), MARK)
    ensures Samsung36Late(d) == Alternate(Samsung36After(d), MARK)
  {
    Samsung36AddressEvents(a);
    var al := Samsung36Alphabet();
    var early, late := Bits(d, 20)[..12], Bits(d, 20)[12..];
    var na, ne, nl := Samsung36AddressTimes(a), Nominal(Pattern(early, al)), Nominal(Pattern(late, al));
    BitEventsAlternate(early, 500, 1500, 500);
    BitEventsAlternate(late, 500, 1500, 500);
    PatternEven(late, 500, 1500, 500);
    AlternateConcat(na, ne, MARK);
    AlternateConcat(nl, [500], MARK);
    assert Alternate([500], MARK) == [Event(MARK, 500)];
  }

  function Samsung36AddressTimes(a: uint32): seq<nat> {
    [4500, 4500] + Nominal(Pattern(Bits(a, 16), Samsung36Alphabet())) + [500, 4500]
  }

  lemma Samsung36AddressEvents(a: uint32)
    ensures Samsung36Address(a) == Alternate(Samsung36AddressTimes(a), MARK)
    ensures |Samsung36AddressTimes(a)| == 36
  {
    BitEventsAlternate(Bits(a, 16), 500, 1500, 500);
    PatternEven(Bits(a, 16), 500, 1500, 500);
    AlternateTwo(4500, 4500);
    AlternateTwo(500, 4500);
    AlternateThree([4500, 4500], Nominal(Pattern(Bits(a, 16), Samsung36Alphabet())), [500, 4500]);
  }

  // --- DirecTV ---

  function Bit15(x: uint32): nat { (x / 0x8000) % 2 }

  function DirecTVTime(bit: nat): uint16 { if bit == 1 then 1200 else 600 }

  function DirecTVTimes(bits: seq<nat>): seq<nat> {
    seq(|bits|, i requires 0 <= i < |bits| => DirecTVTime(bits[i]) as nat)
  }

  lemma Low16(x: uint32)
    ensures (x % 0x1_0000) / 0x8000 == Bit15(x)
    ensures (2 * (x % 0x1_0000)) % 0x1_0000 == ShiftLeft(x) % 0x1_0000
  {
    var high, low := x / 0x1_0000, x % 0x1_0000;
    var bit, rest, lost := low / 0x8000, low % 0x8000, 2 * x / 0x1_0000_0000;
    ModUnique(x, 0x8000, 2 * high + bit, rest);
    ModUnique(2 * high + bit, 2, high, bit);
    ModUnique(2 * low, 0x1_0000, bit, 2 * rest);
    ModUnique(ShiftLeft(x), 0x1_0000, 2 * high + bit - 0x1_0000 * lost, 2 * rest);
  }

  lemma TopBit16(x: uint32, n: nat)
    requires n > 0
    ensures TopDigits(x % 0x1_0000, 16, n, 2) == [Bit15(x)] + TopDigits(ShiftLeft(x) % 0x1_0000, 16, n - 1, 2)
  {
    Pow15();
    Pow16();
    Low16(x);
  }

  lemma LoadedBits16(data: uint32)
    ensures TopDigits(data % 0x1_0000, 16, 16, 2) == Bits(data, 16)
  {
    Pow16();
    TopDigitsOfLoaded(data, 16, 16, 2, 0);
    assert Pow(2, 0) == 1;
  }

  function DirecTVPending(x: uint32, n: nat): seq<Event> {
    Alternate(DirecTVTimes(TopDigits(x % 0x1_0000, 16, n, 2)), MARK)
  }

  // Two bits make a mark and a space.
  function DirecTVCell(x: nat, y: nat): seq<Event> { [Event(MARK, DirecTVTime(x)), Event(SPACE, DirecTVTime(y))] }

  lemma DirecTVStep(done: seq<Event>, x: uint32, n: nat)
    requires n >= 2
    ensures var y := ShiftLeft(x);
            done + DirecTVPending(x, n)
            == (done + DirecTVCell(Bit15(x), Bit15(y))) + DirecTVPending(ShiftLeft(y), n - 2)
  {
    var y := ShiftLeft(x);
    var rest := TopDigits(ShiftLeft(y) % 0x1_0000, 16, n - 2, 2);
    TopBit16(x, n);
    TopBit16(y, n - 1);
    DirecTVTwo(Bit15(x), Bit15(y), rest);
    Assoc(done, DirecTVCell(Bit15(x), Bit15(y)), Alternate(DirecTVTimes(rest), MARK));
  }

  lemma DirecTVStart(data: uint32, n: nat)
    requires n == 16
    ensures DirecTVPending(data, n) == Alternate(DirecTVTimes(Bits(data, 16)), MARK)
  {
    LoadedBits16(data);
  }

  lemma DirecTVDone(x: uint32)
    ensures DirecTVPending(x, 0) == []
  {
  }

  lemma DirecTVTwo(x: nat, y: nat, rest: seq<nat>)
    ensures Alternate(DirecTVTimes([x] + ([y] + rest)), MARK)
            == DirecTVCell(x, y) + Alternate(DirecTVTimes(rest), MARK)
  {
    var a, b := DirecTVTime(x) as nat, DirecTVTime(y) as nat;
    assert DirecTVTimes([x] + ([y] + rest)) == [a, b] + DirecTVTimes(rest);
    AlternateConcat([a, b], DirecTVTimes(rest), MARK);
    AlternateTwo(a, b);
  }

  lemma {:induction false} DirecTVPattern(bits: seq<nat>, first: bool)
    requires InBase(bits, 2)
    ensures Nominal(Pattern(bits, DirecTVFormat(first).alphabet)) == DirecTVTimes(bits)
    ensures |Pattern(bits, DirecTVFormat(first).alphabet)| == |bits|
  {
    if bits != [] {
      var a := DirecTVFormat(first).alphabet;
      DirecTVPattern(bits[1..], first);
      NominalConcat(a.codes[bits[0]], Pattern(bits[1..], a));
      assert Nominal(a.codes[bits[0]]) == [DirecTVTime(bits[0]) as nat];
      assert DirecTVTimes(bits) == [DirecTVTime(bits[0]) as nat] + DirecTVTimes(bits[1..]);
    }
  }

  lemma DirecTVEvents(d: uint32, first: bool, long: bool)
    ensures var header := [Event(MARK, if first then 6000 else 3000), Event(SPACE, 1200)];
            DirecTVWave(d, first, long)
            == header + Alternate(DirecTVTimes(Bits(d, 16)), MARK) + [Event(MARK, 600)]
               + [Event(SPACE, if long then 30000 else 9000)]
  {
    DirecTVFrame(Bits(d, 16), first);
    assert Frame(DirecTVMessage(d, first)) == Nominal(FramePattern(DirecTVFormat(first), Bits(d, 16)));
    SilenceOne(if long then 30000 else 9000);
  }

  lemma DirecTVFrame(bits: seq<nat>, first: bool)
    requires InBase(bits, 2) && |bits| % 2 == 0
    ensures Alternate(Nominal(FramePattern(DirecTVFormat(first), bits)), MARK)
            == [Event(MARK, if first then 6000 else 3000), Event(SPACE, 1200)]
               + Alternate(DirecTVTimes(bits), MARK) + [Event(MARK, 600)]
  {
    var f := DirecTVFormat(first);
    var mark: nat := if first then 6000 else 3000;
    DirecTVPattern(bits, first);
    AlternateFrame(f, bits);
    NominalTwo(Percent(mark), Percent(1200));
    NominalOne(Unchecked(600));
    AlternateTwo(mark, 1200);
    AlternateOne(600);
  }

  // --- RC-MM ---

  function ShiftLeft2(x: uint32): uint32 { (4 * x) % 0x1_0000_0000 }

  // data & 0xC0000000
  function TopTwo(x: uint32): nat { x / 0x4000_0000 }

  function RCMMSpace(digit: nat): nat {
    if digit == 0 then 278 else if digit == 1 then 444 else if digit == 2 then 611 else 778
  }

  function RCMMCell(digit: nat): seq<Event> { [Event(MARK, 167), Event(SPACE, RCMMSpace(digit))] }

  function RCMMEvents(digits: seq<nat>): seq<Event> {
    if digits == [] then [] else RCMMCell(digits[0]) + RCMMEvents(digits[1..])
  }

  lemma TopDigit4(x: uint32, n: nat)
    requires n > 0
    ensures TopDigits(x, 16, n, 4) == [TopTwo(x)] + TopDigits(ShiftLeft2(x), 16, n - 1, 4)
  {
    FourTo15();
    FourTo16();
  }

  lemma DigitsLoaded(data: nat, h: nat, s: nat, low: nat)
    requires h <= 16 && s == Pow(4, 16 - h) && low < s
    ensures TopDigits((data * s + low) % 0x1_0000_0000, 16, h, 4) == ToDigits(data, h, 4)
  {
    FourTo16();
    TopDigitsOfLoaded(data, 16, h, 4, low);
  }

  // The register holds an odd last bit behind the digits.
  lemma LoadedDigits(data: uint32, n: nat)
    requires n <= 32
    ensures TopDigits(Load(data, n), 16, n / 2, 4) == RCMMDigits(data, n)
  {
    var h := n / 2;
    if n % 2 == 1 {
      assert n == 2 * h + 1;
      OddLoaded(data, h);
    } else {
      assert n == 2 * h;
      EvenLoaded(data, h);
    }
  }

  lemma EvenLoaded(data: uint32, h: nat)
    requires h <= 16
    ensures TopDigits(Load(data, 2 * h), 16, h, 4) == ToDigits(data, h, 4)
  {
    var s := Pow(2, 32 - 2 * h);
    assert s == Pow(4, 16 - h) by { PowFour(16 - h); }
    DigitsLoaded(data, h, s, 0);
  }

  lemma HalfOfFour(h: nat)
    requires h <= 15
    ensures Pow(4, 16 - h) == 2 * Pow(2, 31 - 2 * h)
  {
    PowFour(16 - h);
    PowNext(2, 31 - 2 * h);
  }

  lemma OddLoaded(data: uint32, h: nat)
    requires h <= 15
    ensures TopDigits(Load(data, 2 * h + 1), 16, h, 4) == ToDigits(data / 2, h, 4)
  {
    var p := Pow(2, 31 - 2 * h);
    HalfOfFour(h);
    OddSplit(data, p);
    DigitsLoaded(data / 2, h, 2 * p, data % 2 * p);
  }

  lemma OddSplit(data: nat, p: nat)
    requires p > 0
    ensures data * p == data / 2 * (2 * p) + data % 2 * p && 0 <= data % 2 * p < 2 * p
  {
    Regrouped(data / 2, data % 2, p);
    MulLess(data % 2, 2, p);
  }

  lemma Regrouped(top: nat, last: nat, p: nat)
    ensures (2 * top + last) * p == top * (2 * p) + last * p
  {
  }

  lemma {:induction false} RCMMAlternate(digits: seq<nat>)
    requires InBase(digits, 4)
    ensures RCMMEvents(digits) == Alternate(Nominal(Pattern(digits, RCMMFormat().alphabet)), MARK)
    ensures |Pattern(digits, RCMMFormat().alphabet)| == 2 * |digits|
  {
    if digits != [] {
      var a, d := RCMMFormat().alphabet, digits[0];
      var rest := Pattern(digits[1..], a);
      RCMMAlternate(digits[1..]);
      assert a.codes[d] == RCMMCode(RCMMSpace(d));
      NominalConcat(a.codes[d], rest);
      assert Nominal(a.codes[d]) == [167, RCMMSpace(d)];
      AlternateConcat([167, RCMMSpace(d)], Nominal(rest), MARK);
      AlternateTwo(167, RCMMSpace(d));
    }
  }

  lemma RCMMFrame(data: uint32, n: uint8)
    ensures Header(417, 278) + RCMMEvents(RCMMDigits(data, n)) + [Event(MARK, 167)]
            == Alternate(Frame(RCMMMessage(data, n)), MARK)
  {
    RCMMPulse(RCMMDigits(data, n));
    assert Frame(RCMMMessage(data, n)) == Nominal(FramePattern(RCMMFormat(), RCMMDigits(data, n)));
  }

  function RCMMPending(x: uint32, n: nat): seq<Event> { RCMMEvents(TopDigits(x, 16, n, 4)) }

  // One more symbol.
  lemma RCMMStep(done: seq<Event>, x: uint32, n: nat)
    requires n > 0
    ensures done + RCMMPending(x, n) == (done + RCMMCell(TopTwo(x))) + RCMMPending(ShiftLeft2(x), n - 1)
  {
    TopDigit4(x, n);
    var rest := TopDigits(ShiftLeft2(x), 16, n - 1, 4);
    assert ([TopTwo(x)] + rest)[1..] == rest;
    Assoc(done, RCMMCell(TopTwo(x)), RCMMEvents(rest));
  }

  lemma RCMMDone(x: uint32)
    ensures RCMMPending(x, 0) == []
  {
  }

  lemma RCMMPulse(digits: seq<nat>)
    requires InBase(digits, 4)
    ensures Header(417, 278) + RCMMEvents(digits) + [Event(MARK, 167)]
            == Alternate(Nominal(FramePattern(RCMMFormat(), digits)), MARK)
  {
    RCMMAlternate(digits);
    AlternateFrame(RCMMFormat(), digits);
    NominalTwo(Percent(417), Percent(278));
    NominalOne(Percent(167));
    AlternateTwo(417, 278);
    AlternateOne(167);
  }

  // --- Phase-coded registers ---

  function ShiftLeft64(x: uint64): uint64 { (2 * x) % 0x1_0000_0000_0000_0000 }

  predicate TopSet64(x: uint64) { x >= 0x8000_0000_0000_0000 }

  // bigData << (64 - n)
  function Load64(data: nat, n: nat): (x: uint64)
    requires n <= 64
    ensures TopDigits(x, 64, n, 2) == Bits(data, n)
  {
    Pow64();
    TopDigitsOfLoaded(data, 64, n, 2, 0);
    (data * Pow(2, 64 - n)) % 0x1_0000_0000_0000_0000
  }

  lemma TopBit64(x: uint64, n: nat)
    requires n > 0
    ensures TopDigits(x, 64, n, 2) == [if TopSet64(x) then 1 else 0] + TopDigits(ShiftLeft64(x), 64, n - 1, 2)
  {
    Pow63();
    Pow64();
  }

  // The two events of one phase-coded bit.
  function PhaseCell(k: Kind, bit: nat, i: nat, t1: nat): seq<Event> {
    var first, t := FirstLevel(k, bit), HalfWidth(k, i) * t1;
    [Event(first, t), Event(Opposite(first), t)]
  }

  lemma EmitPhaseBit(k: Kind, done: seq<Event>, bit: nat, rest: seq<nat>, i: nat, t1: nat)
    ensures done + Scale(PhaseUnits(k, [bit] + rest, i), t1)
            == (done + PhaseCell(k, bit, i, t1)) + Scale(PhaseUnits(k, rest, i + 1), t1)
  {
    assert ([bit] + rest)[1..] == rest;
    var w, first := HalfWidth(k, i), FirstLevel(k, bit);
    assert PhaseUnits(k, [bit] + rest, i) == [Event(first, w), Event(Opposite(first), w)] + PhaseUnits(k, rest, i + 1);
    assert Scale(PhaseUnits(k, [bit] + rest, i), t1)
           == PhaseCell(k, bit, i, t1) + Scale(PhaseUnits(k, rest, i + 1), t1);
  }

  function TopBitOf64(x: uint64): nat { if TopSet64(x) then 1 else 0 }

  // What is still to be sent of a register whose top n bits make a frame, from bit i on.
  function RC5Pending(x: uint32, n: nat, i: nat): seq<Event> {
    Scale(PhaseUnits(RC5Code, TopDigits(x, 32, n, 2), i), 889)
  }

  lemma RC5Step(done: seq<Event>, x: uint32, n: nat, i: nat)
    requires n > 0
    ensures done + RC5Pending(x, n, i)
            == (done + PhaseCell(RC5Code, TopBitOf(x), i, 889)) + RC5Pending(ShiftLeft(x), n - 1, i + 1)
  {
    TopBit(x, n);
    EmitPhaseBit(RC5Code, done, TopBitOf(x), TopDigits(ShiftLeft(x), 32, n - 1, 2), i, 889);
  }

  lemma RC5CellEvents(x: uint32, i: nat)
    ensures PhaseCell(RC5Code, TopBitOf(x), i, 889)
            == if !TopSet(x) then [Event(MARK, 889), Event(SPACE, 889)] else [Event(SPACE, 889), Event(MARK, 889)]
  {
  }

  lemma RC5Done(x: uint32, i: nat)
    ensures RC5Pending(x, 0, i) == []
  {
  }

  function RC6Pending(x: uint64, n: nat, i: nat): seq<Event> {
    Scale(PhaseUnits(RC6Code, TopDigits(x, 64, n, 2), i), 444)
  }

  lemma RC6Step(done: seq<Event>, x: uint64, n: nat, i: nat)
    requires n > 0
    ensures done + RC6Pending(x, n, i)
            == (done + PhaseCell(RC6Code, TopBitOf64(x), i, 444)) + RC6Pending(ShiftLeft64(x), n - 1, i + 1)
  {
    TopBit64(x, n);
    EmitPhaseBit(RC6Code, done, TopBitOf64(x), TopDigits(ShiftLeft64(x), 64, n - 1, 2), i, 444);
  }

  lemma RC6CellEvents(x: uint64, i: nat, t: nat)
    requires t == if i == 3 then 888 else 444
    ensures PhaseCell(RC6Code, TopBitOf64(x), i, 444)
            == if TopSet64(x) then [Event(MARK, t), Event(SPACE, t)] else [Event(SPACE, t), Event(MARK, t)]
  {
  }

  lemma RC6Done(x: uint64, i: nat)
    ensures RC6Pending(x, 0, i) == []
  {
  }

  lemma RC5Start(data: uint32, n: nat)
    ensures Scale(RC5Units(data, n), 889) == [Event(MARK, 889)] + Scale(PhaseUnits(RC5Code, Bits(data, n), 0), 889)
  {
  }

  function RC6Opening(): seq<Event> { Header(2666, 889) + [Event(MARK, 444), Event(SPACE, 444)] }

  lemma RC6Start(data: uint32, n: nat)
    ensures RC6Body(data, n) == RC6Opening() + Scale(PhaseUnits(RC6Code, RC6Bits(data, n), 0), 444)
  {
    assert Scale(RC6Units(data, n), 444)
           == [Event(MARK, 444), Event(SPACE, 444)] + Scale(PhaseUnits(RC6Code, RC6Bits(data, n), 0), 444);
    Assoc(Header(2666, 889), [Event(MARK, 444), Event(SPACE, 444)],
          Scale(PhaseUnits(RC6Code, RC6Bits(data, n), 0), 444));
  }

  // sendGeneric with Sony's parameters.
  lemma SonyGeneric(data: uint32, n: uint8)
    ensures GenericBody(Bits(data, n), 2400, 600, Timing(1200, 600, 600, 600), false) == SonyBody(data, n)
  {
    var f, bits := SonyFormat(), Bits(data, n);
    var ds := Nominal(Pattern(bits, f.alphabet));
    var data := BitEvents(bits, Timing(1200, 600, 600, 600));
    SonyAlternate(bits);
    assert FramePattern(f, bits) == f.head + Pattern(bits, f.alphabet);
    NominalConcat(f.head, Pattern(bits, f.alphabet));
    assert Nominal(f.head) == [2400];
    AlternateConcat([2400], ds, MARK);
    assert Alternate([2400], MARK) == [Event(MARK, 2400)];
    assert Header(2400, 600) + data == [Event(MARK, 2400)] + ([Event(SPACE, 600)] + data);
    assert [Event(MARK, 2400)] + (Alternate(ds, SPACE) + [Event(SPACE, 600)])
           == ([Event(MARK, 2400)] + Alternate(ds, SPACE)) + [Event(SPACE, 600)];
  }

  lemma DittoWave(mark: nat, space: nat, last: nat, x: nat, y: nat)
    ensures PulseWave([mark, space, last], [x, y])
            == [Event(MARK, mark), Event(SPACE, space), Event(MARK, last), Event(SPACE, x), Event(SPACE, y)]
  {
    AlternateTwo(mark, space);
    assert [mark, space, last] == [mark, space] + [last];
    AlternateConcat([mark, space], [last], MARK);
    SilenceTwo(x, y);
  }

  lemma NECxRepeatWave()
    ensures PulseWave([4512, 4512, 564, 564, 564], [412, 98000])
            == [Event(MARK, 4512), Event(SPACE, 4512), Event(MARK, 564), Event(SPACE, 564), Event(MARK, 564),
                Event(SPACE, 412), Event(SPACE, 98000)]
  {
    assert [4512, 4512, 564, 564, 564] == [4512, 4512] + ([564, 564] + [564]);
    AlternateConcat([4512, 4512], [564, 564] + [564], MARK);
    AlternateConcat([564, 564], [564], MARK);
    AlternateTwo(4512, 4512);
    AlternateTwo(564, 564);
    SilenceTwo(412, 98000);
  }
}
