// Every supported message reaches its own decoder through the whole chain.
module Delivery {
  import opened Digits
  import opened Pulse
  import opened Wire
  import opened PhaseCode
  import opened PhaseRuns
  import opened Protocols
  import opened RoundTrip
  import opened Chain

  // --- Each decoder accepts whatever lies in its windows around a frame of its sender ---

  function OwnProtocol(m: Message): uint8 {
    match m
    case NECMessage(_) => NEC
    case SonyMessage(_, _) => SONY
    case RC5Message(_, _) => RC5
    case RC6Message(_, _) => RC6
    case PanasonicOldMessage(_) => PANASONIC_OLD
    case JVCMessage(_, _) => JVC
    case NECxMessage(_) => NECX
    case Samsung36Message(_, _) => SAMSUNG36
    case GICableMessage(_) => GICABLE
    case DirecTVMessage(_, _) => DIRECTV
    case RCMMMessage(_, _) => RCMM
    case CYKMMessage(_) => CYKM
  }

  // The symbol format and payload of a message, except for dittos, RC5, RC6 and Samsung36.
  predicate IsPulse(m: Message) {
    match m
    case NECMessage(d) => d != REPEAT_CODE
    case NECxMessage(d) => d != REPEAT_CODE
    case GICableMessage(d) => d != REPEAT_CODE
    case RC5Message(_, _) => false
    case RC6Message(_, _) => false
    case Samsung36Message(_, _) => false
    case _ => true
  }

  function FormatOf(m: Message): Format
    requires IsPulse(m)
  {
    match m
    case NECMessage(_) => NECFormat()
    case SonyMessage(_, _) => SonyFormat()
    case PanasonicOldMessage(_) => PanasonicOldFormat()
    case JVCMessage(_, first) => if first then JVCFormat() else JVCRepeatFormat()
    case NECxMessage(_) => NECxFormat()
    case GICableMessage(_) => GICableFormat()
    case DirecTVMessage(_, first) => DirecTVFormat(first)
    case RCMMMessage(_, _) => RCMMFormat()
    case CYKMMessage(_) => CYKMFormat()
  }

  function SymbolsOf(m: Message): seq<nat>
    requires IsPulse(m)
  {
    match m
    case NECMessage(d) => Bits(d, 32)
    case SonyMessage(d, n) => Bits(d, n)
    case PanasonicOldMessage(d) => Bits(d, 22)
    case JVCMessage(d, _) => Bits(d, 16)
    case NECxMessage(d) => Bits(d, 32)
    case GICableMessage(d) => Bits(d, 16)
    case DirecTVMessage(d, _) => Bits(d, 16)
    case RCMMMessage(d, n) => RCMMDigits(d, n)
    case CYKMMessage(d) => Bits(d, 15)
  }

  predicate Holds(buf: seq<uint16>, f: Format, symbols: seq<nat>) {
    |buf| >= 1 && Conforms(buf[1..], FramePattern(f, symbols))
  }

  // buf lies within the own decoder's timing windows around the frame of m.
  predicate InWindows(m: Message, buf: seq<uint16>) {
    |buf| >= 1 &&
    if IsPulse(m) then Holds(buf, FormatOf(m), SymbolsOf(m))
    else match m
      case NECMessage(_) => IsDitto(buf, 564 * 16, 564 * 4, 564)
      case NECxMessage(_) => IsNECxRepeat(buf)
      case GICableMessage(_) => IsDitto(buf, 490 * 18, 2205, 490)
      case RC5Message(d, n) => HoldsUnits(RC5Code, buf, 1, RC5Units(d, n))
      case RC6Message(d, n) =>
        |buf| >= 3 && Match(buf[1], 2666) && Match(buf[2], 889) && HoldsUnits(RC6Code, buf, 3, RC6Units(d, n))
      case Samsung36Message(d, a) =>
        |buf| == 78 && Conforms(WithoutBreak(buf)[1..], Samsung36Pattern(Bits(a, 16), Bits(d, 20)))
  }

  // What the own decoder returns. The chain returns the same, but for the ditto of G.I. Cable.
  function OwnResult(m: Message): Decoded {
    if m == GICableMessage(REPEAT_CODE) then Decoded(GICABLE, REPEAT_CODE, 0, 0) else Expected(m)
  }

  lemma NECDelivered(d: uint32, buf: seq<uint16>)
    requires Holds(buf, NECFormat(), Bits(d, 32))
    ensures DecodeNEC(buf) == Some(Decoded(NEC, d, 0, 32))
  {
    PulseDistanceValid(564, 564 * 3, 564);
    PulseRoundTrip(NECFormat(), buf, 68, Bits(d, 32));
    PayloadFields(NEC, d, 32);
    FullWidth(d);
  }

  lemma NECxDelivered(d: uint32, buf: seq<uint16>)
    requires Holds(buf, NECxFormat(), Bits(d, 32))
    ensures DecodeNECx(buf) == Some(Decoded(NECX, d, 0, 32))
  {
    PulseDistanceValid(564, 564 * 3, 564);
    PulseRoundTrip(NECxFormat(), buf, 68, Bits(d, 32));
    PayloadFields(NECX, d, 32);
    FullWidth(d);
  }

  lemma GICableDelivered(d: uint32, buf: seq<uint16>)
    requires Holds(buf, GICableFormat(), Bits(d, 16))
    ensures DecodeGICable(buf) == Some(Decoded(GICABLE, Low(d, 16), 0, 16))
  {
    PulseDistanceValid(490, 490 * 9, 2205);
    PulseRoundTrip(GICableFormat(), buf, 36, Bits(d, 16));
    PayloadFields(GICABLE, d, 16);
  }

  lemma PanasonicOldDelivered(d: uint32, buf: seq<uint16>)
    requires Holds(buf, PanasonicOldFormat(), Bits(d, 22))
    ensures DecodePanasonicOld(buf) == Some(Decoded(PANASONIC_OLD, Low(d, 22), 0, 22))
  {
    PulseDistanceValid(833, 833 * 3, 833);
    PulseRoundTrip(PanasonicOldFormat(), buf, 48, Bits(d, 22));
    PayloadFields(PANASONIC_OLD, d, 22);
  }

  lemma CYKMDelivered(d: uint32, buf: seq<uint16>)
    requires Holds(buf, CYKMFormat(), Bits(d, 15))
    ensures DecodeCYKM(buf) == Some(Decoded(CYKM, Low(d, 15), 0, 15))
  {
    PulseDistanceValid(650, 650 * 3, 650);
    PulseRoundTrip(CYKMFormat(), buf, 34, Bits(d, 15));
    PayloadFields(CYKM, d, 15);
  }

  lemma SonyDelivered(d: uint32, n: uint8, buf: seq<uint16>)
    requires n == 8 || n == 12 || n == 15 || n == 20
    requires Holds(buf, SonyFormat(), Bits(d, n))
    ensures DecodeSony(buf) == Some(Decoded(SONY, Low(d, n), 0, n))
  {
    PulseDistanceValid(600, 600 * 2, 600);
    PulseRoundTrip(SonyFormat(), buf, 2 + 2 * n, Bits(d, n));
    PayloadFields(SONY, d, n);
  }

  lemma JVCDelivered(d: uint32, buf: seq<uint16>)
    requires Holds(buf, JVCFormat(), Bits(d, 16))
    ensures DecodeJVC(buf) == Some(Decoded(JVC, Low(d, 16), 1, 16))
  {
    PulseDistanceValid(525, 525 * 3, 525);
    PulseRoundTrip(JVCFormat(), buf, 36, Bits(d, 16));
    PayloadFields(JVC, d, 16);
  }

  lemma JVCRepeatDelivered(d: uint32, buf: seq<uint16>)
    requires Holds(buf, JVCRepeatFormat(), Bits(d, 16))
    ensures DecodeJVC(buf) == Some(Decoded(JVC, Low(d, 16), 0, 16))
  {
    PulseDistanceValid(525, 525 * 3, 525);
    PulseRoundTrip(JVCRepeatFormat(), buf, 34, Bits(d, 16));
    PayloadFields(JVC, d, 16);
  }

  lemma DirecTVDelivered(d: uint32, first: bool, buf: seq<uint16>)
    requires Holds(buf, DirecTVFormat(first), Bits(d, 16))
    ensures DecodeDirecTV(buf) == Some(Decoded(DIRECTV, Low(d, 16), if first then 1 else 0, 16))
  {
    DirecTVValid(first);
    PulseRoundTrip(DirecTVFormat(first), buf, 20, Bits(d, 16));
    PayloadFields(DIRECTV, d, 16);
    if first {
      PulseShape(DirecTVFormat(true), buf, 20);
      PulseRejects(DirecTVFormat(false), buf, 20, 0);
    }
  }

  lemma PulseRejects(f: Format, buf: seq<uint16>, length: nat, i: nat)
    requires i < |f.head| && i + 1 < |buf| && !Within(buf[1 + i], f.head[i])
    ensures DecodePulse(f, buf, length).None?
  {
    if |buf| >= 1 + |f.head| { assert buf[1..1 + |f.head|][i] == buf[1 + i]; }
  }

  lemma RCMMDelivered(d: uint32, n: uint8, buf: seq<uint16>)
    requires n == 12 || n == 24 || n == 32
    requires Holds(buf, RCMMFormat(), RCMMDigits(d, n))
    ensures DecodeRCMM(buf) == Some(Decoded(RCMM, Low(d, n), 0, n))
  {
    RCMMValid();
    PulseRoundTrip(RCMMFormat(), buf, n + 4, RCMMDigits(d, n));
    RCMMFields(d, n);
  }

  lemma RCMMFields(d: uint32, n: nat)
    requires n % 2 == 0
    ensures Low32(Val(RCMMDigits(d, n), 4)) == Low(d, n)
  {
    assert Pow(4, n / 2) == Pow(2, n) by { PowFour(n / 2); }
    assert RCMMDigits(d, n) == ToDigits(d, n / 2, 4);
    assert Val(ToDigits(d, n / 2, 4), 4) == d % Pow(2, n) by { ValOfToDigits(d, n / 2, 4); }
  }

  // The parts of a Samsung36 frame, found in the buffer with the break taken out.
  lemma Samsung36Parts(address: seq<nat>, data: seq<nat>, entries: seq<uint16>)
    requires |address| == 16 && |data| == 20 && InBase(address, 2) && InBase(data, 2)
    requires Conforms(entries, Samsung36Pattern(address, data))
    ensures |entries| == 77
    ensures Conforms(entries[..2], [Percent(500 * 9), Percent(500 * 9)])
    ensures Conforms(entries[2..34], Pattern(address, Samsung36Alphabet()))
    ensures Conforms(entries[34..36], [Percent(500), Percent(500 * 9)])
    ensures Conforms(entries[36..76], Pattern(data, Samsung36Alphabet()))
  {
    var al := Samsung36Alphabet();
    var pa, pd := Pattern(address, al), Pattern(data, al);
    var header, second := [Percent(500 * 9), Percent(500 * 9)], [Percent(500), Percent(500 * 9)];
    var stop := [Unchecked(500)];
    PulseDistanceValid(500, 500 * 3, 500);
    PatternLength(address, al);
    PatternLength(data, al);
    var rest3 := pd + stop;
    var rest2 := second + rest3;
    var rest1 := pa + rest2;
    assert Samsung36Pattern(address, data) == header + rest1;
    ConformsConcat(entries, header, rest1);
    ConformsConcat(entries[2..], pa, rest2);
    assert entries[2..][..32] == entries[2..34] && entries[2..][32..] == entries[34..];
    ConformsConcat(entries[34..], second, rest3);
    assert entries[34..][..2] == entries[34..36] && entries[34..][2..] == entries[36..];
    ConformsConcat(entries[36..], pd, stop);
    assert entries[36..][..40] == entries[36..76];
  }

  lemma Samsung36Delivered(d: uint32, a: uint32, buf: seq<uint16>)
    requires |buf| == 78 && Conforms(WithoutBreak(buf)[1..], Samsung36Pattern(Bits(a, 16), Bits(d, 20)))
    ensures DecodeSamsung36(buf) == Some(Decoded(SAMSUNG36, Low(d, 20), a % 0x1_0000, 36))
  {
    var al, plain, address, data := Samsung36Alphabet(), WithoutBreak(buf), Bits(a, 16), Bits(d, 20);
    Samsung36Parts(address, data, plain[1..]);
    assert plain[1..][..2] == buf[1..3] && plain[1..][2..34] == buf[3..35];
    assert plain[1..][34..36] == buf[35..37] && plain[1..][36..76] == plain[37..77];
    PulseDistanceValid(500, 500 * 3, 500);
    ParseComplete(buf[3..35], al, address);
    ParseComplete(plain[37..77], al, data);
    Samsung36Fields(d, a);
  }

  lemma Samsung36Fields(d: uint32, a: uint32)
    ensures Low32(Val(Bits(d, 20), 2)) == Low(d, 20)
    ensures Val(Bits(a, 16), 2) % 0x1_0000 == a % 0x1_0000
  {
    BitsValue(d, 20);
    var v := Val(Bits(a, 16), 2);
    assert v == a % 0x1_0000 by {
      ValOfToDigits(a, 16, 2);
      Pow16();
    }
    ModBelow(v, 0x1_0000);
  }

  predicate Delivered(m: Message, buf: seq<uint16>) {
    DecodeBy(OwnProtocol(m), buf) == Some(OwnResult(m))
  }

  lemma DeliverNEC(m: Message, buf: seq<uint16>)
    requires m.NECMessage? && Supported(m) && InWindows(m, buf)
    ensures Delivered(m, buf)
  {
    if m.data != REPEAT_CODE { NECDelivered(m.data, buf); }
  }

  lemma DeliverSony(m: Message, buf: seq<uint16>)
    requires m.SonyMessage? && Supported(m) && InWindows(m, buf)
    ensures Delivered(m, buf)
  {
    SonyDelivered(m.data, m.nbits, buf);
  }

  lemma DeliverRC5(m: Message, buf: seq<uint16>)
    requires m.RC5Message? && Supported(m) && InWindows(m, buf)
    ensures Delivered(m, buf)
  {
    RC5RoundTrip(m.data, m.nbits, buf);
  }

  lemma DeliverRC6(m: Message, buf: seq<uint16>)
    requires m.RC6Message? && Supported(m) && InWindows(m, buf)
    ensures Delivered(m, buf)
  {
    RC6RoundTrip(m.data, m.nbits, buf);
  }

  lemma DeliverPanasonicOld(m: Message, buf: seq<uint16>)
    requires m.PanasonicOldMessage? && Supported(m) && InWindows(m, buf)
    ensures Delivered(m, buf)
  {
    PanasonicOldDelivered(m.data, buf);
  }

  lemma DeliverJVC(m: Message, buf: seq<uint16>)
    requires m.JVCMessage? && Supported(m) && InWindows(m, buf)
    ensures Delivered(m, buf)
  {
    if m.first { JVCDelivered(m.data, buf); } else { JVCRepeatDelivered(m.data, buf); }
  }

  lemma DeliverNECx(m: Message, buf: seq<uint16>)
    requires m.NECxMessage? && Supported(m) && InWindows(m, buf)
    ensures Delivered(m, buf)
  {
    if m.data != REPEAT_CODE { NECxDelivered(m.data, buf); }
  }

  lemma DeliverSamsung36(m: Message, buf: seq<uint16>)
    requires m.Samsung36Message? && Supported(m) && InWindows(m, buf)
    ensures Delivered(m, buf)
  {
    Samsung36Delivered(m.data, m.address, buf);
  }

  lemma DeliverGICable(m: Message, buf: seq<uint16>)
    requires m.GICableMessage? && Supported(m) && InWindows(m, buf)
    ensures Delivered(m, buf)
  {
    if m.data != REPEAT_CODE { GICableDelivered(m.data, buf); }
  }

  lemma DeliverDirecTV(m: Message, buf: seq<uint16>)
    requires m.DirecTVMessage? && Supported(m) && InWindows(m, buf)
    ensures Delivered(m, buf)
  {
    DirecTVDelivered(m.data, m.first, buf);
  }

  lemma DeliverRCMM(m: Message, buf: seq<uint16>)
    requires m.RCMMMessage? && Supported(m) && InWindows(m, buf)
    ensures Delivered(m, buf)
  {
    RCMMDelivered(m.data, m.nbits, buf);
  }

  lemma DeliverCYKM(m: Message, buf: seq<uint16>)
    requires m.CYKMMessage? && Supported(m) && InWindows(m, buf)
    ensures Delivered(m, buf)
  {
    CYKMDelivered(m.data, buf);
  }

  // Whatever jitter its windows allow, the frame of every message decodes to that message.
  lemma OwnDecoderDelivers(m: Message, buf: seq<uint16>)
    requires Supported(m) && InWindows(m, buf)
    ensures Delivered(m, buf)
  {
    match m {
      case NECMessage(_) => DeliverNEC(m, buf);
      case SonyMessage(_, _) => DeliverSony(m, buf);
      case RC5Message(_, _) => DeliverRC5(m, buf);
      case RC6Message(_, _) => DeliverRC6(m, buf);
      case PanasonicOldMessage(_) => DeliverPanasonicOld(m, buf);
      case JVCMessage(_, _) => DeliverJVC(m, buf);
      case NECxMessage(_) => DeliverNECx(m, buf);
      case Samsung36Message(_, _) => DeliverSamsung36(m, buf);
      case GICableMessage(_) => DeliverGICable(m, buf);
      case DirecTVMessage(_, _) => DeliverDirecTV(m, buf);
      case RCMMMessage(_, _) => DeliverRCMM(m, buf);
      case CYKMMessage(_) => DeliverCYKM(m, buf);
    }
  }

  // --- Ten percent of jitter is within every window, and keeps rivals apart ---

  lemma PulseNear(m: Message, buf: seq<uint16>)
    requires IsPulse(m) && |buf| >= 1 && AllNear(buf[1..], Frame(m))
    ensures InWindows(m, buf)
  {
    FormatRoomy(m);
    FrameRoomy(FormatOf(m), SymbolsOf(m));
    NearConforms(buf[1..], FramePattern(FormatOf(m), SymbolsOf(m)));
  }

  lemma FormatRoomy(m: Message)
    requires IsPulse(m)
    ensures RoomyFormat(FormatOf(m))
  {
    var codes := FormatOf(m).alphabet.codes;
    forall s | 0 <= s < |codes| ensures AllRoomy(codes[s]) {
      assert forall i :: 0 <= i < |codes[s]| ==> Roomy(codes[s][i]);
    }
  }

  lemma NearUnits(k: Kind, v: uint16, u: nat)
    requires 1 <= u <= 3 && Near(v, u * T1(k))
    ensures Units(v, T1(k)) == u
  {
  }

  lemma TrimScale(us: seq<Event>, t1: nat)
    ensures Trim(Scale(us, t1)) == Scale(Trim(us), t1)
  {
  }

  // What is recorded of events counted in half-bits.
  lemma CaptureScale(us: seq<Event>, t1: nat)
    ensures Capture(Scale(us, t1)) == Times(Scale(Trim(Merge(us)), t1))
  {
    MergeScale(us, t1);
    TrimScale(Merge(us), t1);
  }

  predicate ShortRuns(rs: seq<Event>) { forall j :: 0 <= j < |rs| ==> 1 <= rs[j].time <= 3 }

  // Runs of up to three half-bits, each recorded to within ten percent, are read as they were sent.
  lemma RecordedNear(k: Kind, buf: seq<uint16>, first: nat, rs: seq<Event>)
    requires first <= |buf| && AllNear(buf[first..], Times(Scale(rs, T1(k)))) && ShortRuns(rs)
    ensures Recorded(buf, first, T1(k), rs)
  {
    var entries, ds := buf[first..], Times(Scale(rs, T1(k)));
    forall j | 0 <= j < |rs| ensures Units(buf[first + j], T1(k)) == rs[j].time {
      assert Near(entries[j], ds[j]);
      NearUnits(k, entries[j], rs[j].time);
    }
  }

  lemma TrimShort(rs: seq<Event>)
    requires ShortRuns(rs)
    ensures ShortRuns(Trim(rs))
  {
  }

  lemma PhaseNear(k: Kind, buf: seq<uint16>, first: nat, us: seq<Event>)
    requires first <= |buf| && AllNear(buf[first..], Capture(Scale(us, T1(k)))) && ShortRuns(Merge(us))
    ensures HoldsUnits(k, buf, first, us)
  {
    CaptureScale(us, T1(k));
    TrimShort(Merge(us));
    RecordedNear(k, buf, first, Trim(Merge(us)));
  }

  lemma OpenedRuns5(bits: seq<nat>, us: seq<Event>)
    requires bits != [] && InBase(bits, 2) && us == [Event(MARK, 1)] + PhaseUnits(RC5Code, bits, 0)
    ensures ShortRuns(Merge(us))
  {
    RC5Runs(bits);
    RunBounds(RC5Code, bits, 0);
    OpenedBounds(Merge(PhaseUnits(RC5Code, bits, 0)), 3);
  }

  lemma OpenedRuns6(bits: seq<nat>, us: seq<Event>)
    requires bits != [] && InBase(bits, 2)
    requires us == [Event(MARK, 1), Event(SPACE, 1)] + PhaseUnits(RC6Code, bits, 0)
    ensures ShortRuns(Merge(us))
  {
    RC6Runs(bits);
    RunBounds(RC6Code, bits, 0);
    JoinedBounds(MARK, 1, Merge(PhaseUnits(RC6Code, bits, 0)), 3);
  }

  // The frame as it is sent, with the gap in front, has as many entries as its bits say.
  lemma FrameEntries(m: Message)
    requires m.RC5Message? || m.RC6Message?
    requires m.nbits >= 1
    ensures 1 + |Frame(m)| == if m.RC5Message? then PhaseEntries(RC5Code, Bits(m.data, m.nbits))
                              else PhaseEntries(RC6Code, RC6Bits(m.data, m.nbits))
  {
    if m.RC5Message? {
      RC5Runs(Bits(m.data, m.nbits));
      CaptureScale(RC5Units(m.data, m.nbits), 889);
    } else {
      RC6Runs(RC6Bits(m.data, m.nbits));
      CaptureScale(RC6Units(m.data, m.nbits), 444);
    }
  }

  lemma RC6Near(d: uint32, n: nat, buf: seq<uint16>)
    requires 1 <= n && |buf| >= 1 && AllNear(buf[1..], [2666, 889] + Capture(Scale(RC6Units(d, n), 444)))
    ensures |buf| >= 3 && Match(buf[1], 2666) && Match(buf[2], 889) && 801 <= buf[2] <= 977
    ensures HoldsUnits(RC6Code, buf, 3, RC6Units(d, n))
  {
    var ds := Capture(Scale(RC6Units(d, n), 444));
    var entries := buf[1..];
    assert Near(entries[0], 2666) && Near(entries[1], 889);
    forall j | 0 <= j < |ds| ensures Near(buf[3..][j], ds[j]) {
      assert buf[3..][j] == entries[2 + j] && ([2666, 889] + ds)[2 + j] == ds[j];
    }
    OpenedRuns6(RC6Bits(d, n), RC6Units(d, n));
    PhaseNear(RC6Code, buf, 3, RC6Units(d, n));
  }

  // The spaces of a pulse-distance payload, and where they stand.
  lemma {:induction false} SpaceAt(symbols: seq<nat>, mark: nat, one: nat, zero: nat, j: nat)
    requires InBase(symbols, 2) && j < |symbols|
    ensures |Pattern(symbols, PulseDistance(mark, one, zero))| == 2 * |symbols|
    ensures Pattern(symbols, PulseDistance(mark, one, zero))[2 * j + 1]
            == Percent(if symbols[j] == 1 then one else zero)
  {
    var a := PulseDistance(mark, one, zero);
    assert Pattern(symbols, a) == a.codes[symbols[0]] + Pattern(symbols[1..], a);
    if j > 0 {
      SpaceAt(symbols[1..], mark, one, zero, j - 1);
    } else if |symbols| > 1 {
      SpaceAt(symbols[1..], mark, one, zero, 0);
    }
  }

  lemma Samsung36Roomy(address: seq<nat>, data: seq<nat>)
    requires |address| == 16 && |data| == 20 && InBase(address, 2) && InBase(data, 2)
    ensures var ws := Samsung36Pattern(address, data);
            && |ws| == 77 && AllRoomy(ws)
            && ws[59] in {Percent(500), Percent(1500)} && ws[61] in {Percent(500), Percent(1500)}
  {
    var al := Samsung36Alphabet();
    PatternRoomy(address, al);
    PatternRoomy(data, al);
    SpaceAt(address, 500, 500 * 3, 500, 0);
    SpaceAt(data, 500, 500 * 3, 500, 11);
    SpaceAt(data, 500, 500 * 3, 500, 12);
    var ws := Samsung36Pattern(address, data);
    assert ws[59] == Pattern(data, al)[23] && ws[61] == Pattern(data, al)[25];
  }

  // The sender stretches the space at 60 and the decoder shortens the one at 62: both stay in their windows.
  lemma Samsung36Near(d: uint32, a: uint32, buf: seq<uint16>)
    requires |buf| >= 1 && AllNear(buf[1..], Samsung36Frame(a, d))
    ensures InWindows(Samsung36Message(d, a), buf)
  {
    var ws := Samsung36Pattern(Bits(a, 16), Bits(d, 20));
    Samsung36Roomy(Bits(a, 16), Bits(d, 20));
    assert Samsung36Frame(a, d) == Nominal(ws)[59 := ws[59].nominal + 68];
    Samsung36Entries(ws, buf);
  }

  lemma Samsung36Entries(ws: seq<Window>, buf: seq<uint16>)
    requires |ws| == 77 && AllRoomy(ws)
    requires ws[59] in {Percent(500), Percent(1500)} && ws[61] in {Percent(500), Percent(1500)}
    requires |buf| == 78 && AllNear(buf[1..], Nominal(ws)[59 := ws[59].nominal + 68])
    ensures Conforms(WithoutBreak(buf)[1..], ws)
  {
    var ds, entries, plain := Nominal(ws)[59 := ws[59].nominal + 68], buf[1..], WithoutBreak(buf)[1..];
    forall i | 0 <= i < 77 ensures Within(plain[i], ws[i]) {
      assert Near(entries[i], ds[i]) && Roomy(ws[i]);
      assert plain[i] == if i == 61 then (entries[i] - 68) % 0x1_0000 else entries[i];
    }
  }

  lemma NearDitto(buf: seq<uint16>, mark: nat, space: nat, last: nat)
    requires |buf| >= 1 && AllNear(buf[1..], [mark, space, last])
    ensures |buf| == 4 && Near(buf[1], mark) && Near(buf[2], space) && Near(buf[3], last)
  {
    var ds, entries := [mark, space, last], buf[1..];
    assert Near(entries[0], ds[0]) && Near(entries[1], ds[1]) && Near(entries[2], ds[2]);
  }

  lemma NearNECxRepeat(buf: seq<uint16>)
    requires |buf| >= 1 && AllNear(buf[1..], [564 * 8, 564 * 8, 564, 564, 564])
    ensures IsNECxRepeat(buf)
  {
    var ds, entries := [564 * 8, 564 * 8, 564, 564, 564], buf[1..];
    assert Near(entries[0], ds[0]) && Near(entries[1], ds[1]) && Near(entries[2], ds[2]) && Near(entries[4], ds[4]);
  }

  lemma DittoNear(m: Message, buf: seq<uint16>)
    requires m in {NECMessage(REPEAT_CODE), NECxMessage(REPEAT_CODE), GICableMessage(REPEAT_CODE)}
    requires |buf| >= 1 && AllNear(buf[1..], Frame(m))
    ensures InWindows(m, buf)
    ensures !m.NECxMessage? ==> DecodeNEC(buf) == Some(Decoded(NEC, REPEAT_CODE, 0, 0))
  {
    if m.NECMessage? {
      NearDitto(buf, 564 * 16, 564 * 4, 564);
    } else if m.GICableMessage? {
      NearDitto(buf, 490 * 18, 2205, 490);
    } else {
      NearNECxRepeat(buf);
    }
  }

  lemma NearInWindows(m: Message, buf: seq<uint16>)
    requires Supported(m) && |buf| >= 1 && AllNear(buf[1..], Frame(m))
    ensures InWindows(m, buf)
  {
    if IsPulse(m) {
      PulseNear(m, buf);
    } else if m.RC5Message? {
      OpenedRuns5(Bits(m.data, m.nbits), RC5Units(m.data, m.nbits));
      PhaseNear(RC5Code, buf, 1, RC5Units(m.data, m.nbits));
    } else if m.RC6Message? {
      RC6Near(m.data, m.nbits, buf);
    } else if m.Samsung36Message? {
      Samsung36Near(m.data, m.address, buf);
    } else {
      DittoNear(m, buf);
    }
  }

  // --- Rivals keep out ---

  lemma SonySpace(buf: seq<uint16>)
    ensures DecodeSony(buf).Some? ==> |buf| >= 3 && Match(buf[2], 600)
  {
    if DecodeSony(buf).Some? {
      var a, cell := SonyFormat().alphabet, buf[2..|buf|][..2];
      assert Parse(buf[2..|buf|], a).Some?;
      assert Within(cell[0], a.codes[SymbolOf(cell, a.codes).value][0]);
    }
  }

  lemma JVCSpace(buf: seq<uint16>)
    ensures DecodeJVC(buf).Some? && |buf| == 36 ==> Match(buf[4], 525 * 3) || Match(buf[4], 525)
  {
    if DecodeJVC(buf).Some? && |buf| == 36 {
      var a, cell := JVCFormat().alphabet, buf[3..35][..2];
      assert Parse(buf[3..35], a).Some?;
      assert Within(cell[1], a.codes[SymbolOf(cell, a.codes).value][1]);
    }
  }

  // The second run of an RC5 frame is at least half a bit.
  lemma RC5Space(d: uint32, n: uint8, buf: seq<uint16>)
    requires Supported(RC5Message(d, n)) && |buf| >= 1 && AllNear(buf[1..], Frame(RC5Message(d, n)))
    ensures |buf| >= 3 && buf[2] >= 801
  {
    var us := RC5Units(d, n);
    var rs, entries := Trim(Merge(us)), buf[1..];
    OpenedRuns5(Bits(d, n), us);
    PhaseNear(RC5Code, buf, 1, us);
    assert |buf| == 1 + |rs| && |buf| >= 13 by { RC5RoundTrip(d, n, buf); }
    CaptureScale(us, 889);
    var ds := Times(Scale(rs, 889));
    assert ds == Frame(RC5Message(d, n));
    assert Near(entries[1], ds[1]) && ds[1] == rs[1].time * 889 && rs[1].time >= 1;
  }

  lemma GICableSpace(d: uint32, buf: seq<uint16>)
    requires d != REPEAT_CODE && |buf| >= 1 && AllNear(buf[1..], Frame(GICableMessage(d)))
    ensures |buf| == 36 && buf[4] > 1968
  {
    var f, bits, entries := GICableFormat(), Bits(d, 16), buf[1..];
    SpaceAt(bits, 490, 490 * 9, 2205, 0);
    var ws := FramePattern(f, bits);
    assert ws[3] == Pattern(bits, f.alphabet)[1];
    assert Near(entries[3], Nominal(ws)[3]);
  }

  lemma RivalsReject(m: Message, buf: seq<uint16>, r: uint8)
    requires Supported(m) && |buf| >= 1 && AllNear(buf[1..], Frame(m)) && m != GICableMessage(REPEAT_CODE)
    requires Rivals(r, OwnProtocol(m))
    ensures DecodeBy(r, buf).None?
  {
    if m.GICableMessage? {
      GICableSpace(m.data, buf);
      JVCSpace(buf);
      GenericShape(buf);
    } else {
      SonySpace(buf);
      if m.RC5Message? { RC5Space(m.data, m.nbits, buf); }
      if m.RC6Message? { RC6Near(m.data, m.nbits, buf); }
    }
  }

  // The main result: the chain decodes every message to itself under ten percent of jitter.
  lemma ChainDelivers(m: Message, buf: seq<uint16>)
    requires Supported(m) && |buf| >= 1 && AllNear(buf[1..], Frame(m))
    ensures DecodeChain(buf) == Some(Expected(m))
  {
    NearInWindows(m, buf);
    OwnDecoderDelivers(m, buf);
    if m == GICableMessage(REPEAT_CODE) {
      DittoNear(m, buf);
      assert DecodeBy(1, buf).Some?;
    } else {
      forall r: uint8 | Rivals(r, OwnProtocol(m)) ensures DecodeBy(r, buf).None? { RivalsReject(m, buf, r); }
      ChainExact(buf, OwnProtocol(m));
    }
  }

  lemma ResultNames(p: uint8, buf: seq<uint16>)
    requires DecodeBy(p, buf).Some?
    ensures DecodeBy(p, buf).value.protocolNum == p
  {
  }

  // Within the full windows the chain gives a message back exactly when no rival in front of its own
  // decoder accepts the buffer.
  lemma ChainWithinWindows(m: Message, buf: seq<uint16>)
    requires Supported(m) && InWindows(m, buf)
    ensures DecodeChain(buf) == Some(OwnResult(m)) <==>
            forall r: uint8 :: Rivals(r, OwnProtocol(m)) ==> DecodeBy(r, buf).None?
  {
    var own := OwnProtocol(m);
    OwnDecoderDelivers(m, buf);
    ChainExact(buf, own);
    ResultNames(own, buf);
    forall r: uint8 | Rivals(r, own) && DecodeBy(r, buf).Some? ensures DecodeChain(buf) != Some(OwnResult(m)) {
      ResultNames(r, buf);
    }
  }
}
