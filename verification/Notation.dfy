// The twelve signals as the protocols are written down: durations in microseconds, marks above zero
// and spaces below, with a list of them for every digit that can be sent.
module Notation {
  import opened Digits
  import opened Pulse
  import opened Wire
  import opened PhaseCode
  import opened PhaseRuns
  import opened Protocols
  import opened Waves
  import opened Transmission

  // --- The notation ---

  // The low n digits of d in base |cells|, the first one first.
  function Payload(d: nat, n: nat, cells: seq<seq<int>>): seq<int>
    requires cells != []
  {
    if n == 0 then [] else cells[d / Pow(|cells|, n - 1) % |cells|] + Payload(d, n - 1, cells)
  }

  function Length(ts: seq<int>): nat {
    if ts == [] then 0 else (if ts[0] < 0 then -ts[0] else ts[0]) + Length(ts[1..])
  }

  // Silence up to the given total, of which 16 bits are sent.
  function Upto(total: nat, ts: seq<int>): seq<int> { ts + [-((total - Length(ts)) % 0x1_0000)] }

  function Pair(mark: int, space: int): seq<int> { [mark, -space] }

  // Zero and one as marks of fixed length and spaces, and as the two halves of a bit.
  function Spaces(mark: int, zero: int, one: int): seq<seq<int>> { [Pair(mark, zero), Pair(mark, one)] }

  // RC5 bits have the mark first for a zero, RC6 bits for a one.
  function RC5Cells(t: int): seq<seq<int>> { [[t, -t], [-t, t]] }
  function RC6Cells(t: int): seq<seq<int>> { [[-t, t], [t, -t]] }

  function NECNotation(d: uint32): seq<int> {
    if d == 0xffff_ffff then [9024, -2256, 564, -572, -97000]
    else Upto(108000, [9024, -4512] + Payload(d, 32, Spaces(564, 564, 1692)) + [564])
  }

  function SonyCells(): seq<seq<int>> { [Pair(600, 600), Pair(1200, 600)] }

  function SonyNotation(d: uint32, n: uint8): seq<int> {
    Upto(45000, [2400, -600] + Payload(d, n, SonyCells()))
  }

  function RC5Notation(d: uint32, n: uint8): seq<int> { Upto(114000, [889] + Payload(d, n, RC5Cells(889))) }

  // The trailer bit is the fourth; the 32-bit variety has 1100 in front of the payload.
  function RC6Payload(d: uint32, n: uint8): seq<int> {
    if n == 32 then [444, -444, 444, -444, -444, 444, -888, 888] + Payload(d, 32, RC6Cells(444))
    else if n < 4 then Payload(d, n, RC6Cells(444))
    else Payload(d / Pow(2, n - 3), 3, RC6Cells(444)) + Payload(d / Pow(2, n - 4), 1, RC6Cells(888))
         + Payload(d, n - 4, RC6Cells(444))
  }

  function RC6Notation(d: uint32, n: uint8): seq<int> { Upto(107000, [2666, -889, 444, -444] + RC6Payload(d, n)) }

  function JVCNotation(d: uint32, head: seq<int>): seq<int> {
    head + Payload(d, 16, Spaces(525, 525, 1575)) + [525, -1575, -23625]
  }

  function NECxNotation(d: uint32): seq<int> {
    if d == 0xffff_ffff then [4512, -4512, 564, -564, 564, -412, -98000]
    else [4512, -4512] + Payload(d, 32, Spaces(564, 564, 1692)) + [564, -1692]
  }

  function Samsung36Notation(d: uint32, a: uint32): seq<int> {
    [4500, -4500] + Payload(a, 16, Spaces(500, 500, 1500)) + [500, -4500]
    + Payload(d / 0x100, 12, Spaces(500, 500, 1500)) + [-68] + Payload(d, 8, Spaces(500, 500, 1500)) + [500, -59000]
  }

  function GICableNotation(d: uint32): seq<int> {
    if d == 0xffff_ffff then [8820, -2205, 490, -220, -87000]
    else [8820, -4410] + Payload(d, 16, Spaces(490, 2205, 4410)) + [490, -4410, -18130]
  }

  // Two bits at a time.
  function DirecTVCells(): seq<seq<int>> { [[600, -600], [600, -1200], [1200, -600], [1200, -1200]] }

  function DirecTVNotation(d: uint32, first: bool, longLeadOut: bool): seq<int> {
    [if first then 6000 else 3000, -1200] + Payload(d, 8, DirecTVCells())
    + [600, if longLeadOut then -30000 else -9000]
  }

  function RCMMCells(): seq<seq<int>> { [[167, -278], [167, -444], [167, -611], [167, -778]] }

  function RCMMNotation(d: uint32, n: uint8): seq<int> {
    var sent := if n % 2 == 1 then d / 2 else d;
    Upto(27778, [417, -278] + Payload(sent, n / 2, RCMMCells()) + [167])
  }

  function NotationOf(m: Message, longLeadOut: bool): seq<int> {
    match m
    case NECMessage(d) => NECNotation(d)
    case SonyMessage(d, n) => SonyNotation(d, n) + SonyNotation(d, n) + SonyNotation(d, n)
    case RC5Message(d, n) => RC5Notation(d, n)
    case RC6Message(d, n) => RC6Notation(d, n)
    case PanasonicOldMessage(d) => [3332, -3332] + Payload(d, 22, Spaces(833, 833, 2499)) + [833, -2499]
    case JVCMessage(d, true) => JVCNotation(d, [8400, -4200]) + JVCNotation(d, [])
    case JVCMessage(d, false) => JVCNotation(d, [])
    case NECxMessage(d) => NECxNotation(d)
    case Samsung36Message(d, a) => Samsung36Notation(d, a)
    case GICableMessage(d) => GICableNotation(d)
    case DirecTVMessage(d, first) => DirecTVNotation(d, first, longLeadOut)
    case RCMMMessage(d, n) => RCMMNotation(d, n)
    case CYKMMessage(d) => [3100, -3100] + Payload(d, 15, Spaces(650, 650, 1950)) + [650, -1950, -10000]
  }

  function EventOf(t: int): Event { if t > 0 then Event(MARK, t) else Event(SPACE, -t) }

  function EventsOf(ts: seq<int>): (es: seq<Event>)
    ensures |es| == |ts| && forall i :: 0 <= i < |ts| ==> es[i] == EventOf(ts[i])
  {
    seq(|ts|, i requires 0 <= i < |ts| => EventOf(ts[i]))
  }

  lemma EventsConcat(xs: seq<int>, ys: seq<int>)
    ensures EventsOf(xs + ys) == EventsOf(xs) + EventsOf(ys)
  {
  }

  lemma EventsThree(xs: seq<int>, ys: seq<int>, zs: seq<int>)
    ensures EventsOf(xs + ys + zs) == EventsOf(xs) + EventsOf(ys) + EventsOf(zs)
  {
  }

  lemma {:induction false} LengthTotal(ts: seq<int>)
    ensures Total(EventsOf(ts)) == Length(ts)
  {
    if ts != [] {
      LengthTotal(ts[1..]);
      TotalOne(EventOf(ts[0]));
      TotalConcat([EventOf(ts[0])], EventsOf(ts[1..]));
      assert EventsOf(ts) == [EventOf(ts[0])] + EventsOf(ts[1..]);
    }
  }

  lemma UptoEvents(total: nat, ts: seq<int>, body: seq<Event>)
    requires EventsOf(ts) == body
    ensures EventsOf(Upto(total, ts)) == body + [Event(SPACE, Remainder(total, body))]
  {
    LengthTotal(ts);
    EventsConcat(ts, [-((total - Length(ts)) % 0x1_0000)]);
  }

  // --- Payloads, digit by digit ---

  lemma DivDiv(v: nat, b: nat, p: nat)
    requires b > 0 && p > 0
    ensures b * p > 0 && v / b / p == v / (b * p)
  {
    var q, c := Shorten(v, b), v % b;
    var s, r := Shorten(q, p), q % p;
    DigitBound(r, p, b, c);
    assert b * p == p * b > 0 by { MulLess(0, b, p); }
    assert v == s * (b * p) + (r * b + c) by { Regrouped(s, p, r, b, c); }
    ModUnique(v, b * p, s, r * b + c);
  }

  lemma Regrouped(s: nat, p: nat, r: nat, b: nat, c: nat)
    ensures (s * p + r) * b + c == s * (b * p) + (r * b + c)
  {
    SumTimes(s * p, r, b);
    Associate(s, p, b);
  }

  // Written from the front: the first digit, then those of the rest.
  lemma {:induction false} FirstDigit(v: nat, n: nat, b: nat)
    requires n > 0 && b > 0
    ensures ToDigits(v, n, b) == [v / Pow(b, n - 1) % b] + ToDigits(v, n - 1, b)
    decreases n
  {
    if n > 1 {
      FirstDigit(v / b, n - 1, b);
      DivDiv(v, b, Pow(b, n - 2));
      assert ToDigits(v, n, b) == ToDigits(v / b, n - 1, b) + [v % b];
      assert ToDigits(v, n - 1, b) == ToDigits(v / b, n - 2, b) + [v % b];
    }
  }

  function Coded(digits: seq<nat>, cells: seq<seq<int>>): seq<int>
    requires InBase(digits, |cells|)
  {
    if digits == [] then [] else cells[digits[0]] + Coded(digits[1..], cells)
  }

  lemma {:induction false} PayloadCoded(d: nat, n: nat, cells: seq<seq<int>>)
    requires cells != []
    ensures Payload(d, n, cells) == Coded(ToDigits(d, n, |cells|), cells)
    decreases n
  {
    if n > 0 {
      FirstDigit(d, n, |cells|);
      PayloadCoded(d, n - 1, cells);
      assert ToDigits(d, n, |cells|)[1..] == ToDigits(d, n - 1, |cells|);
    }
  }

  lemma EventsOne(x: int)
    ensures EventsOf([x]) == [EventOf(x)]
  {
  }

  lemma EventsTwo(x: int, y: int)
    ensures EventsOf([x, y]) == [EventOf(x), EventOf(y)]
  {
  }

  lemma PairEvents(mark: nat, space: nat)
    requires mark > 0
    ensures EventsOf(Pair(mark, space)) == [Event(MARK, mark), Event(SPACE, space)]
  {
    EventsTwo(mark, -(space as int));
  }

  lemma {:induction false} CodedBits(bits: seq<nat>, zeroMark: nat, zeroSpace: nat, oneMark: nat, oneSpace: nat)
    requires InBase(bits, 2) && zeroMark > 0 && oneMark > 0
    ensures EventsOf(Coded(bits, [Pair(zeroMark, zeroSpace), Pair(oneMark, oneSpace)]))
            == BitEvents(bits, Timing(oneMark, zeroMark, oneSpace, zeroSpace))
  {
    if bits != [] {
      var cells := [Pair(zeroMark, zeroSpace), Pair(oneMark, oneSpace)];
      CodedBits(bits[1..], zeroMark, zeroSpace, oneMark, oneSpace);
      EventsConcat(cells[bits[0]], Coded(bits[1..], cells));
      PairEvents(zeroMark, zeroSpace);
      PairEvents(oneMark, oneSpace);
    }
  }

  lemma PayloadBits(d: nat, n: nat, zeroMark: nat, zeroSpace: nat, oneMark: nat, oneSpace: nat)
    requires zeroMark > 0 && oneMark > 0
    ensures EventsOf(Payload(d, n, [Pair(zeroMark, zeroSpace), Pair(oneMark, oneSpace)]))
            == BitEvents(Bits(d, n), Timing(oneMark, zeroMark, oneSpace, zeroSpace))
  {
    PayloadCoded(d, n, [Pair(zeroMark, zeroSpace), Pair(oneMark, oneSpace)]);
    CodedBits(Bits(d, n), zeroMark, zeroSpace, oneMark, oneSpace);
  }

  lemma SpacesPayload(d: nat, n: nat, mark: nat, zero: nat, one: nat)
    requires mark > 0
    ensures EventsOf(Payload(d, n, Spaces(mark, zero, one))) == BitEvents(Bits(d, n), Timing(mark, mark, one, zero))
  {
    PayloadBits(d, n, mark, zero, mark, one);
  }

  // --- Frames whose spaces tell zeros from ones ---

  lemma Framed(headMark: nat, headSpace: nat, payload: seq<int>, events: seq<Event>, mark: nat)
    requires headMark > 0 && headSpace > 0 && mark > 0 && EventsOf(payload) == events
    ensures EventsOf(Pair(headMark, headSpace) + payload + [mark])
            == Header(headMark, headSpace) + events + [Event(MARK, mark)]
  {
    EventsThree(Pair(headMark, headSpace), payload, [mark]);
    PairEvents(headMark, headSpace);
    EventsOne(mark);
  }

  lemma GenericNotated(f: Format, d: nat, n: nat, headMark: nat, headSpace: nat, mark: nat, one: nat, zero: nat)
    requires f == Generic(headMark, headSpace, mark, one, zero) && headMark > 0 && headSpace > 0 && mark > 0
    ensures EventsOf(Pair(headMark, headSpace) + Payload(d, n, Spaces(mark, zero, one)) + [mark])
            == Alternate(Nominal(FramePattern(f, Bits(d, n))), MARK)
  {
    var events := BitEvents(Bits(d, n), Timing(mark, mark, one, zero));
    GenericFrame(f, Bits(d, n), headMark, headSpace, mark, one, zero);
    SpacesPayload(d, n, mark, zero, one);
    Framed(headMark, headSpace, Payload(d, n, Spaces(mark, zero, one)), events, mark);
  }

  lemma Behind(ts: seq<int>, mark: int, x: int, frame: seq<nat>)
    requires EventsOf(ts + [mark]) == Alternate(frame, MARK) && x >= 0
    ensures EventsOf(ts + [mark, -x]) == PulseWave(frame, [x])
  {
    assert ts + [mark, -x] == (ts + [mark]) + [-x];
    EventsConcat(ts + [mark], [-x]);
    EventsOne(-x);
    SilenceOne(x);
  }

  lemma BehindTwo(ts: seq<int>, mark: int, x: int, y: int, frame: seq<nat>)
    requires EventsOf(ts + [mark]) == Alternate(frame, MARK) && x >= 0 && y >= 0
    ensures EventsOf(ts + [mark, -x, -y]) == PulseWave(frame, [x, y])
  {
    assert ts + [mark, -x, -y] == (ts + [mark]) + [-x, -y];
    EventsConcat(ts + [mark], [-x, -y]);
    EventsTwo(-x, -y);
    SilenceTwo(x, y);
  }

  lemma NECNotated(d: uint32)
    ensures NECWave(d) == EventsOf(NECNotation(d))
  {
    if d == REPEAT_CODE {
      DittoWave(9024, 2256, 564, 572, 97000);
    } else {
      var ts, frame := [9024, -4512] + Payload(d, 32, Spaces(564, 564, 1692)) + [564], Frame(NECMessage(d));
      GenericNotated(NECFormat(), d, 32, 9024, 4512, 564, 1692, 564);
      UptoEvents(108000, ts, Alternate(frame, MARK));
      SilenceOne(Remainder(108000, Alternate(frame, MARK)));
    }
  }

  lemma NECxData(d: uint32)
    ensures EventsOf([4512, -4512] + Payload(d, 32, Spaces(564, 564, 1692)) + [564, -1692])
            == PulseWave(Nominal(FramePattern(NECxFormat(), Bits(d, 32))), [1692])
  {
    GenericNotated(NECxFormat(), d, 32, 4512, 4512, 564, 1692, 564);
    Behind([4512, -4512] + Payload(d, 32, Spaces(564, 564, 1692)), 564, 1692,
           Nominal(FramePattern(NECxFormat(), Bits(d, 32))));
  }

  lemma NECxNotated(d: uint32)
    ensures NECxWave(d) == EventsOf(NECxNotation(d))
  {
    if d == REPEAT_CODE { NECxRepeatWave(); } else { NECxData(d); }
  }

  lemma GICableData(d: uint32)
    ensures EventsOf([8820, -4410] + Payload(d, 16, Spaces(490, 2205, 4410)) + [490, -4410, -18130])
            == PulseWave(Nominal(FramePattern(GICableFormat(), Bits(d, 16))), [4410, 18130])
  {
    GenericNotated(GICableFormat(), d, 16, 8820, 4410, 490, 4410, 2205);
    BehindTwo([8820, -4410] + Payload(d, 16, Spaces(490, 2205, 4410)), 490, 4410, 18130,
              Nominal(FramePattern(GICableFormat(), Bits(d, 16))));
  }

  lemma GICableNotated(d: uint32)
    ensures GICableWave(d) == EventsOf(GICableNotation(d))
  {
    if d == REPEAT_CODE { DittoWave(8820, 2205, 490, 220, 87000); } else { GICableData(d); }
  }

  lemma PanasonicOldNotated(d: uint32)
    ensures EventsOf([3332, -3332] + Payload(d, 22, Spaces(833, 833, 2499)) + [833, -2499])
            == PulseWave(Frame(PanasonicOldMessage(d)), [833 * 3])
  {
    GenericNotated(PanasonicOldFormat(), d, 22, 3332, 3332, 833, 2499, 833);
    Behind([3332, -3332] + Payload(d, 22, Spaces(833, 833, 2499)), 833, 2499, Frame(PanasonicOldMessage(d)));
  }

  lemma CYKMNotated(d: uint32)
    ensures EventsOf([3100, -3100] + Payload(d, 15, Spaces(650, 650, 1950)) + [650, -1950, -10000])
            == PulseWave(Frame(CYKMMessage(d)), [650 * 3, 10000])
  {
    GenericNotated(CYKMFormat(), d, 15, 3100, 3100, 650, 1950, 650);
    BehindTwo([3100, -3100] + Payload(d, 15, Spaces(650, 650, 1950)), 650, 1950, 10000, Frame(CYKMMessage(d)));
  }

  lemma JVCHeaded(d: uint32)
    ensures JVCWave(d, true) == EventsOf(JVCNotation(d, [8400, -4200]))
  {
    GenericNotated(JVCFormat(), d, 16, 8400, 4200, 525, 1575, 525);
    BehindTwo([8400, -4200] + Payload(d, 16, Spaces(525, 525, 1575)), 525, 1575, 23625, Frame(JVCMessage(d, true)));
  }

  lemma JVCHeadless(d: uint32)
    ensures JVCWave(d, false) == EventsOf(JVCNotation(d, []))
  {
    var payload, events := Payload(d, 16, Spaces(525, 525, 1575)), BitEvents(Bits(d, 16), Timing(525, 525, 1575, 525));
    GenericFrame(JVCRepeatFormat(), Bits(d, 16), 0, 0, 525, 1575, 525);
    SpacesPayload(d, 16, 525, 525, 1575);
    EventsConcat(payload, [525]);
    EventsOne(525);
    assert Header(0, 0) + events + [Event(MARK, 525)] == events + [Event(MARK, 525)];
    BehindTwo(payload, 525, 1575, 23625, Frame(JVCMessage(d, false)));
    assert [] + payload == payload;
  }

  // --- Sony, RC-MM, DirecTV, Samsung36 ---

  lemma SonyNotated(d: uint32, n: uint8)
    ensures SonyOnce(d, n) == EventsOf(SonyNotation(d, n))
  {
    var ts := [2400, -600] + Payload(d, n, SonyCells());
    SonyGeneric(d, n);
    PayloadBits(d, n, 600, 600, 1200, 600);
    EventsConcat([2400, -600], Payload(d, n, SonyCells()));
    EventsTwo(2400, -600);
    assert EventsOf(ts) == SonyBody(d, n);
    UptoEvents(45000, ts, SonyBody(d, n));
  }

  lemma {:induction false} CodedRCMM(digits: seq<nat>)
    requires InBase(digits, 4)
    ensures EventsOf(Coded(digits, RCMMCells())) == RCMMEvents(digits)
  {
    if digits != [] {
      CodedRCMM(digits[1..]);
      EventsConcat(RCMMCells()[digits[0]], Coded(digits[1..], RCMMCells()));
      EventsTwo(RCMMCells()[digits[0]][0], RCMMCells()[digits[0]][1]);
    }
  }

  lemma RCMMPayload(d: uint32, n: uint8)
    ensures EventsOf(Payload(if n % 2 == 1 then d / 2 else d, n / 2, RCMMCells())) == RCMMEvents(RCMMDigits(d, n))
  {
    PayloadCoded(if n % 2 == 1 then d / 2 else d, n / 2, RCMMCells());
    CodedRCMM(RCMMDigits(d, n));
  }

  lemma RCMMBody(d: uint32, n: uint8)
    ensures EventsOf([417, -278] + Payload(if n % 2 == 1 then d / 2 else d, n / 2, RCMMCells()) + [167])
            == Alternate(Frame(RCMMMessage(d, n)), MARK)
  {
    RCMMPayload(d, n);
    Framed(417, 278, Payload(if n % 2 == 1 then d / 2 else d, n / 2, RCMMCells()), RCMMEvents(RCMMDigits(d, n)), 167);
    RCMMFrame(d, n);
  }

  lemma RCMMNotated(d: uint32, n: uint8)
    ensures RCMMWave(d, n) == EventsOf(RCMMNotation(d, n))
  {
    var body := Alternate(Frame(RCMMMessage(d, n)), MARK);
    RCMMBody(d, n);
    UptoEvents(27778, [417, -278] + Payload(if n % 2 == 1 then d / 2 else d, n / 2, RCMMCells()) + [167], body);
    SilenceOne(Remainder(27778, body));
  }

  lemma TwoFirstBits(v: nat, k: nat)
    ensures Bits(v, k + 2) == [v / Pow(2, k) / 2 % 2] + ([v / Pow(2, k) % 2] + Bits(v, k))
  {
    FirstDigit(v, k + 2, 2);
    FirstDigit(v, k + 1, 2);
    DivDiv(v, Pow(2, k), 2);
    assert Pow(2, k + 1) == Pow(2, k) * 2 by { PowNext(2, k); }
  }

  // Two bits are one digit of base 4.
  lemma PairOfBits(v: nat, k: nat, p: nat)
    requires p == Pow(2, k)
    ensures Bits(v, k + 2) == [v / p % 4 / 2] + ([v / p % 4 % 2] + Bits(v, k))
  {
    TwoFirstBits(v, k);
    HalfOfDigit(v / p);
  }

  lemma HalfOfDigit(x: nat)
    ensures x % 4 / 2 == x / 2 % 2 && x % 4 % 2 == x % 2
  {
  }

  lemma {:induction false} PayloadDirecTV(d: nat, n: nat, k: nat)
    requires k == 2 * n
    ensures EventsOf(Payload(d, n, DirecTVCells())) == Alternate(DirecTVTimes(Bits(d, k)), MARK)
    decreases n
  {
    if n > 0 {
      var digit := d / Pow(4, n - 1) % 4;
      var cell := DirecTVCells()[digit];
      PayloadDirecTV(d, n - 1, k - 2);
      PowFour(n - 1);
      PairOfBits(d, k - 2, Pow(4, n - 1));
      DirecTVTwo(digit / 2, digit % 2, Bits(d, k - 2));
      EventsConcat(cell, Payload(d, n - 1, DirecTVCells()));
      DirecTVCellEvents(digit);
    }
  }

  lemma DirecTVCellEvents(digit: nat)
    requires digit < 4
    ensures EventsOf(DirecTVCells()[digit]) == DirecTVCell(digit / 2, digit % 2)
  {
    EventsTwo(DirecTVCells()[digit][0], DirecTVCells()[digit][1]);
  }

  lemma DirecTVNotated(d: uint32, first: bool, longLeadOut: bool)
    ensures DirecTVWave(d, first, longLeadOut) == EventsOf(DirecTVNotation(d, first, longLeadOut))
  {
    var head, tail := [if first then 6000 else 3000, -1200], [600, if longLeadOut then -30000 else -9000];
    DirecTVEvents(d, first, longLeadOut);
    PayloadDirecTV(d, 8, 16);
    EventsThree(head, Payload(d, 8, DirecTVCells()), tail);
    EventsTwo(head[0], head[1]);
    EventsTwo(tail[0], tail[1]);
    Assoc(EventsOf(head) + EventsOf(Payload(d, 8, DirecTVCells())), [Event(MARK, 600)],
          [Event(SPACE, if longLeadOut then 30000 else 9000)]);
    assert [Event(MARK, 600)] + [Event(SPACE, if longLeadOut then 30000 else 9000)] == EventsOf(tail);
  }

  // The first m of m + n digits are those of what is left without the last n.
  lemma {:induction false} SplitDigits(v: nat, m: nat, n: nat, b: nat)
    requires b > 0
    ensures ToDigits(v, m + n, b) == ToDigits(v / Pow(b, n), m, b) + ToDigits(v, n, b)
    decreases m
  {
    if m > 0 {
      FirstDigit(v, m + n, b);
      SplitDigits(v, m - 1, n, b);
      FirstDigit(v / Pow(b, n), m, b);
      DivDiv(v, Pow(b, n), Pow(b, m - 1));
      PowAdd(b, n, m - 1);
    }
  }

  lemma Samsung36Payload(d: uint32)
    ensures Bits(d, 20)[..12] == Bits(d / 0x100, 12) && Bits(d, 20)[12..] == Bits(d, 8)
  {
    SplitDigits(d, 12, 8, 2);
    Pow8();
  }

  lemma HeadersAround(x: nat, y: nat, payload: seq<int>, z: nat, events: seq<Event>)
    requires x > 0 && y > 0 && z > 0 && EventsOf(payload) == events
    ensures EventsOf(Pair(x, y) + payload + Pair(z, y)) == Header(x, y) + events + Header(z, y)
  {
    EventsThree(Pair(x, y), payload, Pair(z, y));
    PairEvents(x, y);
    PairEvents(z, y);
  }

  lemma Samsung36AddressNotated(a: uint32)
    ensures EventsOf([4500, -4500] + Payload(a, 16, Spaces(500, 500, 1500)) + [500, -4500]) == Samsung36Address(a)
  {
    var events := BitEvents(Bits(a, 16), Samsung36Timing());
    SpacesPayload(a, 16, 500, 500, 1500);
    HeadersAround(4500, 4500, Payload(a, 16, Spaces(500, 500, 1500)), 500, events);
  }

  lemma Samsung36EarlyNotated(d: uint32, a: uint32)
    ensures var cells := Spaces(500, 500, 1500);
            EventsOf([4500, -4500] + Payload(a, 16, cells) + [500, -4500] + Payload(d / 0x100, 12, cells))
            == Alternate(Samsung36Before(a, d), MARK)
  {
    var cells := Spaces(500, 500, 1500);
    Samsung36Events(d, a);
    Samsung36Payload(d);
    Samsung36AddressNotated(a);
    SpacesPayload(d / 0x100, 12, 500, 500, 1500);
    EventsConcat([4500, -4500] + Payload(a, 16, cells) + [500, -4500], Payload(d / 0x100, 12, cells));
  }

  lemma Samsung36LateNotated(d: uint32, a: uint32)
    ensures EventsOf(Payload(d, 8, Spaces(500, 500, 1500)) + [500]) == Alternate(Samsung36After(d), MARK)
  {
    Samsung36Events(d, a);
    Samsung36Payload(d);
    SpacesPayload(d, 8, 500, 500, 1500);
    EventsConcat(Payload(d, 8, Spaces(500, 500, 1500)), [500]);
    EventsOne(500);
  }

  lemma Samsung36Notated(d: uint32, a: uint32)
    ensures Samsung36Wave(d, a) == EventsOf(Samsung36Notation(d, a))
  {
    var cells := Spaces(500, 500, 1500);
    var early := [4500, -4500] + Payload(a, 16, cells) + [500, -4500] + Payload(d / 0x100, 12, cells);
    var late := Payload(d, 8, cells) + [500];
    Samsung36EarlyNotated(d, a);
    Samsung36LateNotated(d, a);
    EventsThree(early, [-68], late);
    EventsConcat(early + [-68] + late, [-59000]);
    EventsOne(-68);
    EventsOne(-59000);
    assert Samsung36Notation(d, a) == early + [-68] + late + [-59000];
  }

  // --- RC5 and RC6 ---

  function PhaseCells(k: Kind, t: int): seq<seq<int>> { if k.RC5Code? then RC5Cells(t) else RC6Cells(t) }

  lemma PhaseCellEvents(k: Kind, bit: nat, i: nat, t1: nat, t: nat)
    requires bit < 2 && HalfWidth(k, i) * t1 == t > 0
    ensures EventsOf(PhaseCells(k, t)[bit]) == PhaseCell(k, bit, i, t1)
  {
    EventsTwo(PhaseCells(k, t)[bit][0], PhaseCells(k, t)[bit][1]);
  }

  // Bits of one width.
  lemma {:induction false} CodedPhase(k: Kind, bits: seq<nat>, i: nat, t1: nat, t: nat)
    requires InBase(bits, 2) && t > 0 && forall j :: i <= j < i + |bits| ==> HalfWidth(k, j) * t1 == t
    ensures EventsOf(Coded(bits, PhaseCells(k, t))) == Scale(PhaseUnits(k, bits, i), t1)
    decreases |bits|
  {
    if bits != [] {
      var cells, bit, rest := PhaseCells(k, t), bits[0], bits[1..];
      CodedPhase(k, rest, i + 1, t1, t);
      EventsConcat(cells[bit], Coded(rest, cells));
      PhaseCellEvents(k, bit, i, t1, t);
      EmitPhaseBit(k, [], bit, rest, i, t1);
      assert bits == [bit] + rest && [] + PhaseCell(k, bit, i, t1) == PhaseCell(k, bit, i, t1);
    }
  }

  lemma {:induction false} UnitsConcat(k: Kind, xs: seq<nat>, ys: seq<nat>, i: nat)
    ensures PhaseUnits(k, xs + ys, i) == PhaseUnits(k, xs, i) + PhaseUnits(k, ys, i + |xs|)
    decreases |xs|
  {
    if xs == [] {
      assert xs + ys == ys;
    } else {
      UnitsConcat(k, xs[1..], ys, i + 1);
      assert (xs + ys)[1..] == xs[1..] + ys;
    }
  }

  lemma ScaleConcat(us: seq<Event>, vs: seq<Event>, t1: nat)
    ensures Scale(us + vs, t1) == Scale(us, t1) + Scale(vs, t1)
  {
  }

  lemma RC5Notated(d: uint32, n: uint8)
    ensures RC5Wave(d, n) == EventsOf(RC5Notation(d, n))
  {
    var payload := Payload(d, n, RC5Cells(889));
    PayloadCoded(d, n, RC5Cells(889));
    CodedPhase(RC5Code, Bits(d, n), 0, 889, 889);
    EventsConcat([889], payload);
    EventsOne(889);
    RC5Start(d, n);
    UptoEvents(114000, [889] + payload, Scale(RC5Units(d, n), 889));
  }

  // Three bits, the trailer, and the others.
  lemma RC6Parts(front: seq<nat>, trailer: seq<nat>, rest: seq<nat>)
    requires |front| == 3 && |trailer| == 1 && InBase(front, 2) && InBase(trailer, 2) && InBase(rest, 2)
    ensures EventsOf(Coded(front, RC6Cells(444)) + Coded(trailer, RC6Cells(888)) + Coded(rest, RC6Cells(444)))
            == Scale(PhaseUnits(RC6Code, front + trailer + rest, 0), 444)
  {
    CodedPhase(RC6Code, front, 0, 444, 444);
    CodedPhase(RC6Code, trailer, 3, 444, 888);
    CodedPhase(RC6Code, rest, 4, 444, 444);
    EventsThree(Coded(front, RC6Cells(444)), Coded(trailer, RC6Cells(888)), Coded(rest, RC6Cells(444)));
    UnitsConcat(RC6Code, front + trailer, rest, 0);
    UnitsConcat(RC6Code, front, trailer, 0);
    ScaleConcat(PhaseUnits(RC6Code, front, 0), PhaseUnits(RC6Code, trailer, 3), 444);
    ScaleConcat(PhaseUnits(RC6Code, front + trailer, 0), PhaseUnits(RC6Code, rest, 4), 444);
  }

  lemma RC6LongBits(d: uint32)
    ensures RC6Bits(d, 32) == [1, 1, 0] + [0] + Bits(d, 32)
  {
    var x := 0xC_0000_0000 + d;
    Pow32();
    SplitDigits(x, 4, 32, 2);
    assert x / Pow(2, 32) == 12;
    assert ToDigits(12, 4, 2) == [1, 1, 0, 0] == [1, 1, 0] + [0] by { BitsOfTwelve(); }
    ValOfToDigits(x, 32, 2);
    ModUnique(x, 0x1_0000_0000, 0xC, d);
    ToDigitsOfVal(ToDigits(x, 32, 2), 2);
  }

  lemma BitsOfTwelve()
    ensures ToDigits(12, 4, 2) == [1, 1, 0, 0]
  {
    assert ToDigits(1, 1, 2) == ToDigits(0, 0, 2) + [1] == [1];
    assert ToDigits(3, 2, 2) == ToDigits(1, 1, 2) + [1] == [1, 1];
    assert ToDigits(6, 3, 2) == ToDigits(3, 2, 2) + [0] == [1, 1, 0];
    assert ToDigits(12, 4, 2) == ToDigits(6, 3, 2) + [0];
  }

  lemma RC6ShortBits(d: uint32, n: uint8)
    requires 4 <= n
    ensures Bits(d, n) == Bits(d / Pow(2, n - 3), 3) + Bits(d / Pow(2, n - 4), 1) + Bits(d, n - 4)
  {
    var p := Pow(2, n - 4);
    SplitDigits(d, 4, n - 4, 2);
    assert d / p / Pow(2, 1) == d / Pow(2, n - 3) by {
      assert Pow(2, 1) == 2 && Pow(2, n - 3) == p * 2 by { PowNext(2, n - 4); }
      DivDiv(d, p, 2);
    }
    SplitDigits(d / p, 3, 1, 2);
  }

  lemma RC6PayloadEvents(d: uint32, n: uint8)
    ensures EventsOf(RC6Payload(d, n)) == Scale(PhaseUnits(RC6Code, RC6Bits(d, n), 0), 444)
  {
    if n == 32 {
      RC6LongBits(d);
      PayloadCoded(d, 32, RC6Cells(444));
      CodedFew();
      RC6Parts([1, 1, 0], [0], Bits(d, 32));
    } else if n < 4 {
      PayloadCoded(d, n, RC6Cells(444));
      CodedPhase(RC6Code, Bits(d, n), 0, 444, 444);
    } else {
      RC6ShortBits(d, n);
      PayloadCoded(d / Pow(2, n - 3), 3, RC6Cells(444));
      PayloadCoded(d / Pow(2, n - 4), 1, RC6Cells(888));
      PayloadCoded(d, n - 4, RC6Cells(444));
      RC6Parts(Bits(d / Pow(2, n - 3), 3), Bits(d / Pow(2, n - 4), 1), Bits(d, n - 4));
    }
  }

  lemma CodedFew()
    ensures Coded([1, 1, 0], RC6Cells(444)) + Coded([0], RC6Cells(888))
            == [444, -444, 444, -444, -444, 444, -888, 888]
  {
    var cells := RC6Cells(444);
    assert [1, 1, 0][1..] == [1, 0] && [1, 0][1..] == [0] && [0][1..] == [];
    assert Coded([0], cells) == [-444, 444];
    assert Coded([1, 0], cells) == [444, -444] + Coded([0], cells);
    assert Coded([1, 1, 0], cells) == [444, -444] + Coded([1, 0], cells);
    assert Coded([0], RC6Cells(888)) == [-888, 888];
  }

  lemma RC6Notated(d: uint32, n: uint8)
    ensures RC6Wave(d, n) == EventsOf(RC6Notation(d, n))
  {
    var head := [2666, -889, 444, -444];
    RC6Start(d, n);
    RC6PayloadEvents(d, n);
    EventsConcat(head, RC6Payload(d, n));
    assert EventsOf(head) == RC6Opening();
    UptoEvents(107000, head + RC6Payload(d, n), RC6Body(d, n));
  }

  // --- All twelve ---

  lemma SonyThree(d: uint32, n: uint8)
    ensures Copies(SonyOnce(d, n), 3) == EventsOf(SonyNotation(d, n) + SonyNotation(d, n) + SonyNotation(d, n))
  {
    var once := SonyOnce(d, n);
    SonyNotated(d, n);
    EventsThree(SonyNotation(d, n), SonyNotation(d, n), SonyNotation(d, n));
    assert Copies(once, 1) == [] + once == once;
    assert Copies(once, 3) == Copies(once, 2) + once == (Copies(once, 1) + once) + once;
  }

  lemma JVCBoth(d: uint32)
    ensures JVCWave(d, true) + JVCWave(d, false) == EventsOf(JVCNotation(d, [8400, -4200]) + JVCNotation(d, []))
    ensures JVCWave(d, false) + [] == EventsOf(JVCNotation(d, []))
  {
    JVCHeaded(d);
    JVCHeadless(d);
    EventsConcat(JVCNotation(d, [8400, -4200]), JVCNotation(d, []));
  }

  lemma GenericWave(m: Message, longLeadOut: bool)
    requires m.NECMessage? || m.PanasonicOldMessage? || m.NECxMessage? || m.GICableMessage? || m.CYKMMessage?
    ensures WaveOf(m, longLeadOut) == EventsOf(NotationOf(m, longLeadOut))
  {
    match m {
      case NECMessage(d) => NECNotated(d);
      case PanasonicOldMessage(d) => PanasonicOldNotated(d);
      case NECxMessage(d) => NECxNotated(d);
      case GICableMessage(d) => GICableNotated(d);
      case CYKMMessage(d) => CYKMNotated(d);
    }
  }

  // Every sender emits the signal as it is written down, mark for mark and space for space, whatever
  // the payload and the width.
  lemma WaveIsNotated(m: Message, longLeadOut: bool)
    ensures WaveOf(m, longLeadOut) == EventsOf(NotationOf(m, longLeadOut))
  {
    match m {
      case SonyMessage(d, n) => SonyThree(d, n);
      case RC5Message(d, n) => RC5Notated(d, n);
      case RC6Message(d, n) => RC6Notated(d, n);
      case JVCMessage(d, _) => JVCBoth(d);
      case Samsung36Message(d, a) => Samsung36Notated(d, a);
      case DirecTVMessage(d, first) => DirecTVNotated(d, first, longLeadOut);
      case RCMMMessage(d, n) => RCMMNotated(d, n);
      case _ => GenericWave(m, longLeadOut);
    }
  }

  // --- The opening of the 32-bit variety of RC6 ---

  function MCEOpening(): seq<nat> { [2666, 889, 444, 444, 444, 444, 444, 888, 444, 888] }

  // Up to the two halves of silence that meet, and from there on.
  lemma MCEParts()
    ensures Alternate(MCEOpening(), MARK)
            == Alternate([2666, 889, 444, 444, 444, 444, 444], MARK)
               + ([Event(SPACE, 888)] + [Event(MARK, 444), Event(SPACE, 888)])
  {
    var ds := [2666, 889, 444, 444, 444, 444, 444];
    AlternateConcat(ds, [888] + [444, 888], MARK);
    AlternateConcat([888], [444, 888], SPACE);
    AlternateTwo(444, 888);
    assert Alternate([888], SPACE) == [Event(SPACE, 888)];
    assert MCEOpening() == ds + ([888] + [444, 888]);
  }

  lemma MCETail()
    ensures Merge(EventsOf([-444, -444] + [444, -888]))
            == [Event(SPACE, 888)] + [Event(MARK, 444), Event(SPACE, 888)]
  {
    var y, z := EventsOf([-444, -444]), EventsOf([444, -888]);
    EventsConcat([-444, -444], [444, -888]);
    MergeSpaces(444, 444);
    PairEvents(444, 888);
    AlternateTwo(444, 888);
    MergeAlternating([444, 888], MARK);
    MergeApart(y, z);
  }

  lemma MCEOpeningMerged()
    ensures Merge(EventsOf([2666, -889, 444, -444, 444, -444, 444, -444, -444, 444, -888]))
            == Alternate(MCEOpening(), MARK)
  {
    var front, tail := [2666, -889, 444, -444, 444, -444, 444], [-444, -444] + [444, -888];
    AlternateSeven();
    MergeAlternating([2666, 889, 444, 444, 444, 444, 444], MARK);
    MCETail();
    MCEParts();
    EventsConcat(front, tail);
    MergeApart(EventsOf(front), EventsOf(tail));
    assert [2666, -889, 444, -444, 444, -444, 444, -444, -444, 444, -888] == front + tail;
  }

  lemma MergeSpaces(x: nat, y: nat)
    ensures Merge(EventsOf([-(x as int), -(y as int)])) == [Event(SPACE, x + y)]
  {
    var es := EventsOf([-(x as int), -(y as int)]);
    assert es == [Event(SPACE, x), Event(SPACE, y)] && es[1..] == [Event(SPACE, y)];
  }

  lemma AlternateSeven()
    ensures Alternate([2666, 889, 444, 444, 444, 444, 444], MARK)
            == EventsOf([2666, -889, 444, -444, 444, -444, 444])
  {
    forall i | 0 <= i < 7
      ensures Alternate([2666, 889, 444, 444, 444, 444, 444], MARK)[i]
              == EventsOf([2666, -889, 444, -444, 444, -444, 444])[i]
    {
      AlternateAt([2666, 889, 444, 444, 444, 444, 444], MARK, i);
    }
  }

  // Frames that begin with the same runs begin with the same intervals.
  lemma SameOpening(ds: seq<nat>, gap: Event, opening: seq<nat>, rest: seq<Event>)
    requires Alternate(ds, MARK) + [gap] == Alternate(opening, MARK) + rest && rest != []
    ensures opening <= ds
  {
    assert |ds| + 1 == |opening| + |rest|;
    forall i | 0 <= i < |opening| ensures ds[i] == opening[i] {
      AlternateAt(opening, MARK, i);
      AlternateAt(ds, MARK, i);
      assert (Alternate(ds, MARK) + [gap])[i] == (Alternate(opening, MARK) + rest)[i];
    }
  }

  // The notation of the 32-bit variety, cut where the payload begins.
  lemma MCECut(d: uint32) returns (rest: seq<int>)
    ensures RC6Notation(d, 32)
            == [2666, -889, 444, -444, 444, -444, 444, -444, -444, 444, -888] + ([888] + rest)
  {
    var front := [2666, -889, 444, -444, 444, -444, 444, -444, -444, 444, -888];
    var body := [2666, -889, 444, -444] + RC6Payload(d, 32);
    var payload := Payload(d, 32, RC6Cells(444));
    var fill := [-((107000 - Length(body)) % 0x1_0000)];
    rest := payload + fill;
    assert RC6Notation(d, 32) == body + fill;
    assert body == front + ([888] + payload);
    assert front + ([888] + payload) + fill == front + ([888] + (payload + fill));
  }

  // Whatever the payload, the frame begins with the start bit, the mode 110 and a trailer of 0.
  lemma MCEFrame(d: uint32)
    ensures MCEOpening() <= Frame(RC6Message(d, 32))
  {
    var front := [2666, -889, 444, -444, 444, -444, 444, -444, -444, 444, -888];
    var rest := MCECut(d);
    RC6Notated(d, 32);
    RC6Burst(d, 32);
    EventsConcat(front, [888] + rest);
    MCEOpeningMerged();
    MergeApart(EventsOf(front), EventsOf([888] + rest));
    SameOpening(Frame(RC6Message(d, 32)), Event(SPACE, RC6Gap(d, 32)), MCEOpening(), Merge(EventsOf([888] + rest)));
  }
}
