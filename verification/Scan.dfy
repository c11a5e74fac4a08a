// The decoders' loops read a payload from left to right; what they have read so far and what
// Parse makes of the rest together are what Parse makes of the whole.
module Scan {
  import opened Digits
  import opened Pulse
  import opened Wire
  import opened PhaseCode
  import opened Protocols
  import opened RoundTrip

  function Join(done: seq<nat>, rest: Option<seq<nat>>): Option<seq<nat>> {
    match rest
    case None => None
    case Some(symbols) => Some(done + symbols)
  }

  // What b reads as when done was read in front of offset.
  function Pending(b: seq<uint16>, offset: nat, a: Alphabet, done: seq<nat>): Option<seq<nat>>
    requires offset <= |b|
  {
    Join(done, Parse(b[offset..], a))
  }

  lemma PendingStarts(b: seq<uint16>, offset: nat, a: Alphabet)
    requires offset <= |b|
    ensures Pending(b, offset, a, []) == Parse(b[offset..], a)
  {
    var rest := Parse(b[offset..], a);
    if rest.Some? { assert [] + rest.value == rest.value; }
  }

  lemma PendingStep(b: seq<uint16>, offset: nat, a: Alphabet, done: seq<nat>)
    requires a.Width() > 0 && offset + a.Width() <= |b|
    ensures match SymbolOf(b[offset..offset + a.Width()], a.codes)
            case None => Pending(b, offset, a, done).None?
            case Some(s) => Pending(b, offset + a.Width(), a, done + [s]) == Pending(b, offset, a, done)
  {
    var w := a.Width();
    assert b[offset..][..w] == b[offset..offset + w] && b[offset..][w..] == b[offset + w..];
    match SymbolOf(b[offset..offset + w], a.codes) {
      case None =>
      case Some(s) =>
        assert Parse(b[offset..], a) == Prepend(s, Parse(b[offset + w..], a));
        JoinSnoc(done, s, Parse(b[offset + w..], a));
    }
  }

  lemma JoinSnoc(done: seq<nat>, s: nat, rest: Option<seq<nat>>)
    ensures Join(done, Prepend(s, rest)) == Join(done + [s], rest)
  {
    if rest.Some? { assert done + ([s] + rest.value) == done + [s] + rest.value; }
  }

  lemma PendingEnds(b: seq<uint16>, a: Alphabet, done: seq<nat>)
    ensures Pending(b, |b|, a, done) == Some(done)
  {
    assert b[|b|..] == [] && done + [] == done;
  }

  function PulseSymbol(x: uint16, y: uint16, mark: nat, one: nat, zero: nat): Option<nat> {
    if !Match(x, mark) then None
    else if Match(y, one) then Some(1)
    else if Match(y, zero) then Some(0)
    else None
  }

  lemma FirstPulse(x: uint16, y: uint16, mark: nat, one: nat, zero: nat)
    ensures SymbolOf([x, y], PulseDistance(mark, one, zero).codes) == PulseSymbol(x, y, mark, one, zero)
  {
    ConformsTwo(x, y, Percent(mark), Percent(zero));
    ConformsTwo(x, y, Percent(mark), Percent(one));
    SymbolOfTwo([x, y], [Percent(mark), Percent(zero)], [Percent(mark), Percent(one)]);
  }

  lemma FirstSingle(x: uint16, first: bool)
    ensures SymbolOf([x], DirecTVFormat(first).alphabet.codes) == SingleSymbol(x)
  {
    ConformsOne(x, Percent(600));
    ConformsOne(x, Percent(1200));
    SymbolOfTwo([x], [Percent(600)], [Percent(1200)]);
  }

  // One symbol of a pulse-coded payload.
  lemma PulseStep(b: seq<uint16>, offset: nat, mark: nat, one: nat, zero: nat, done: seq<nat>)
    requires offset + 2 <= |b|
    ensures var a := PulseDistance(mark, one, zero);
            match PulseSymbol(b[offset], b[offset + 1], mark, one, zero)
            case None => Pending(b, offset, a, done).None?
            case Some(s) => Pending(b, offset + 2, a, done + [s]) == Pending(b, offset, a, done)
  {
    FirstPulse(b[offset], b[offset + 1], mark, one, zero);
    assert b[offset..offset + 2] == [b[offset], b[offset + 1]];
    PendingStep(b, offset, PulseDistance(mark, one, zero), done);
  }

  function SingleSymbol(x: uint16): Option<nat> {
    if Match(x, 1200) then Some(1) else if Match(x, 600) then Some(0) else None
  }

  lemma SingleStep(b: seq<uint16>, offset: nat, first: bool, done: seq<nat>)
    requires offset < |b|
    ensures var a := DirecTVFormat(first).alphabet;
            match SingleSymbol(b[offset])
            case None => Pending(b, offset, a, done).None?
            case Some(s) => Pending(b, offset + 1, a, done + [s]) == Pending(b, offset, a, done)
  {
    FirstSingle(b[offset], first);
    assert b[offset..offset + 1] == [b[offset]];
    PendingStep(b, offset, DirecTVFormat(first).alphabet, done);
  }

  function RCMMSymbol(x: uint16, y: uint16): Option<nat> {
    if !AbsMatch(x, 167, 80) then None
    else if AbsMatch(y, 278, 80) then Some(0)
    else if AbsMatch(y, 444, 80) then Some(1)
    else if AbsMatch(y, 611, 80) then Some(2)
    else if AbsMatch(y, 778, 80) then Some(3)
    else None
  }

  lemma FirstRCMM(x: uint16, y: uint16)
    ensures SymbolOf([x, y], RCMMFormat().alphabet.codes) == RCMMSymbol(x, y)
  {
    var b, two := [x, y], [RCMMCode(278), RCMMCode(444)];
    ConformsTwo(x, y, Absolute(167, 80), Absolute(278, 80));
    ConformsTwo(x, y, Absolute(167, 80), Absolute(444, 80));
    ConformsTwo(x, y, Absolute(167, 80), Absolute(611, 80));
    ConformsTwo(x, y, Absolute(167, 80), Absolute(778, 80));
    SymbolOfTwo(b, RCMMCode(278), RCMMCode(444));
    SymbolSnoc(b, two, RCMMCode(611));
    SymbolSnoc(b, two + [RCMMCode(611)], RCMMCode(778));
    assert RCMMFormat().alphabet.codes == two + [RCMMCode(611)] + [RCMMCode(778)];
  }

  // --- Shifting symbols into a register ---

  lemma ShiftIn(v: nat, b: nat, d: nat, m: nat)
    requires b > 0 && m > 0
    ensures (b * (v % m) + d) % m == (b * v + d) % m
  {
    var q, r := v / m, v % m;
    assert v == q * m + r;
    MulSum(b, q, m, r);
    AddMultiple(b * r + d, b * q, m);
    assert b * v + d == (b * q) * m + (b * r + d);
  }

  lemma AddMultiple(x: nat, k: nat, m: nat)
    requires m > 0
    ensures (k * m + x) % m == x % m
  {
    SumTimes(k, x / m, m);
    ModUnique(k * m + x, m, k + x / m, x % m);
  }

  lemma MulSum(b: nat, q: nat, m: nat, r: nat)
    ensures b * (q * m + r) == (b * q) * m + b * r
  {
  }

  lemma ValSnoc(done: seq<nat>, s: nat, b: nat)
    ensures Val(done + [s], b) == b * Val(done, b) + s
  {
    assert (done + [s])[..|done|] == done;
  }

  // (x << 1) | digit, or (x << 2) + digit in base 4
  function Shift32(x: uint32, b: nat, digit: nat): uint32 { Low32(b * x + digit) }

  lemma ShiftIn32(done: seq<nat>, s: nat, b: nat)
    requires b > 0
    ensures Shift32(Low32(Val(done, b)), b, s) == Low32(Val(done + [s], b))
  {
    ValSnoc(done, s, b);
    ShiftIn(Val(done, b), b, s, 0x1_0000_0000);
  }

  function Low64(x: nat): uint64 { x % 0x1_0000_0000_0000_0000 }

  // (x << 1) | bit
  function Shift64(x: uint64, bit: nat): uint64 { Low64(2 * x + bit) }

  lemma ShiftIn64(done: seq<nat>, s: nat)
    ensures Shift64(Low64(Val(done, 2)), s) == Low64(Val(done + [s], 2))
  {
    ValSnoc(done, s, 2);
    ShiftIn(Val(done, 2), 2, s, 0x1_0000_0000_0000_0000);
  }

  // The two fields that decodeGeneric cuts out of its 64-bit register.
  lemma Fields64(v: nat)
    ensures Low64(v) % 0x1_0000_0000 == Low32(v)
    ensures (Low64(v) / 0x1_0000_0000) % 0x1_0000 == (v / 0x1_0000_0000) % 0x1_0000
  {
    var m := 0x1_0000_0000;
    var q, x := v / (m * m), Low64(v);
    var high := x / m;
    assert v == q * (m * m) + x && x == high * m + x % m;
    ModUnique(v, m, q * m + high, x % m);
    ModUnique(q * m + high, 0x1_0000, q * 0x1_0000 + high / 0x1_0000, high % 0x1_0000);
  }

  // --- What decodeGeneric reads ---

  // Behind the gap and the header come pairs, as long as a pair begins before the last entry.
  function PairsEnd(n: nat): nat { if n < 5 then 3 else 3 + (n - 3) / 2 * 2 }

  // A header entry of nominal length 0 is not looked at. All of the buffer is at hand, whatever the
  // length n of the recording.
  function GenericSymbols(buf: seq<uint16>, n: nat, headMark: nat, headSpace: nat,
                          mark: nat, one: nat, zero: nat): Option<seq<nat>>
    requires 3 <= |buf| && n <= |buf|
  {
    if headMark != 0 && !Match(buf[1], headMark) then None
    else if headSpace != 0 && !Match(buf[2], headSpace) then None
    else Parse(buf[..PairsEnd(n)][3..], PulseDistance(mark, one, zero))
  }

  lemma GenericWithin(buf: seq<uint16>, n: nat, headMark: nat, headSpace: nat, mark: nat, one: nat, zero: nat)
    requires 3 <= n <= |buf|
    ensures GenericSymbols(buf, n, headMark, headSpace, mark, one, zero)
            == GenericSymbols(buf[..n], n, headMark, headSpace, mark, one, zero)
  {
    assert buf[..n][..PairsEnd(n)] == buf[..PairsEnd(n)];
  }

  lemma GenericFormatSymbols(buf: seq<uint16>, length: nat, headMark: nat, headSpace: nat,
                             mark: nat, one: nat, zero: nat)
    requires headMark != 0 && headSpace != 0 && length >= 4 && length % 2 == 0
    ensures DecodePulse(Generic(headMark, headSpace, mark, one, zero), buf, length)
            == if |buf| != length then None else GenericSymbols(buf, length, headMark, headSpace, mark, one, zero)
  {
    if |buf| == length {
      var f := Generic(headMark, headSpace, mark, one, zero);
      ConformsTwo(buf[1], buf[2], Percent(headMark), Percent(headSpace));
      ConformsOne(buf[length - 1], Unchecked(mark));
      assert buf[1..1 + |f.head|] == [buf[1], buf[2]] && buf[length - |f.tail|..] == [buf[length - 1]];
      assert buf[1 + |f.head|..length - |f.tail|] == buf[..length - 1][3..];
    }
  }

  // A headless JVC frame: decodeGeneric starts behind its first bit, which is read separately.
  lemma JVCRepeatSymbols(buf: seq<uint16>)
    requires |buf| == 34
    ensures DecodePulse(JVCRepeatFormat(), buf, 34)
            == match PulseSymbol(buf[1], buf[2], 525, 525 * 3, 525)
               case None => None
               case Some(s) => Prepend(s, GenericSymbols(buf, 34, 525, 0, 525, 525 * 3, 525))
  {
    var f, a, body := JVCRepeatFormat(), PulseDistance(525, 525 * 3, 525), buf[1..33];
    ConformsOne(buf[33], Unchecked(525));
    assert buf[1..1 + |f.head|] == [] && buf[34 - |f.tail|..] == [buf[33]];
    assert Conforms([], []);
    assert DecodePulse(f, buf, 34) == Parse(body, a);
    assert body[..2] == [buf[1], buf[2]];
    assert body[2..] == buf[..33][3..];
    FirstPulse(buf[1], buf[2], 525, 525 * 3, 525);
  }

  lemma GenericFields(p: uint8, symbols: seq<nat>, x: uint64)
    requires x == Low64(Val(symbols, 2)) && |symbols| < 0x100
    ensures FromBits(p, Some(symbols)) == Some(Decoded(p, x % 0x1_0000_0000, (x / 0x1_0000_0000) % 0x1_0000, |symbols|))
  {
    Fields64(Val(symbols, 2));
  }

  lemma QuadStep(b: seq<uint16>, offset: nat, done: seq<nat>)
    requires offset + 2 <= |b|
    ensures var a := RCMMFormat().alphabet;
            match RCMMSymbol(b[offset], b[offset + 1])
            case None => Pending(b, offset, a, done).None?
            case Some(s) => Pending(b, offset + 2, a, done + [s]) == Pending(b, offset, a, done)
  {
    FirstRCMM(b[offset], b[offset + 1]);
    assert b[offset..offset + 2] == [b[offset], b[offset + 1]];
    PendingStep(b, offset, RCMMFormat().alphabet, done);
  }

  // --- The frames around those loops ---

  lemma SonySymbols(buf: seq<uint16>)
    requires |buf| >= 2
    ensures DecodePulse(SonyFormat(), buf, |buf|)
            == if !Match(buf[1], 2400) then None else Parse(buf[2..], PulseDistance(600, 1200, 600))
  {
    ConformsOne(buf[1], Percent(2400));
    assert buf[1..2] == [buf[1]] && buf[|buf|..] == [] && buf[2..|buf|] == buf[2..];
  }

  lemma DirecTVSymbols(buf: seq<uint16>, first: bool)
    requires |buf| == 20
    ensures DecodePulse(DirecTVFormat(first), buf, 20)
            == if !Match(buf[1], if first then 6000 else 3000) || !Match(buf[2], 1200) then None
               else Parse(buf[..19][3..], DirecTVFormat(first).alphabet)
  {
    ConformsTwo(buf[1], buf[2], Percent(if first then 6000 else 3000), Percent(1200));
    ConformsOne(buf[19], Unchecked(600));
    assert buf[1..3] == [buf[1], buf[2]] && buf[19..] == [buf[19]] && buf[3..19] == buf[..19][3..];
  }

  lemma RCMMSymbols(buf: seq<uint16>)
    requires |buf| >= 4
    ensures DecodePulse(RCMMFormat(), buf, |buf|)
            == if !Match(buf[1], 417) || !Match(buf[2], 278) || !Match(buf[|buf| - 1], 167) then None
               else Parse(buf[..|buf| - 1][3..], RCMMFormat().alphabet)
  {
    var n := |buf| - 1;
    ConformsTwo(buf[1], buf[2], Percent(417), Percent(278));
    ConformsOne(buf[n], Percent(167));
    assert buf[1..3] == [buf[1], buf[2]] && buf[n..] == [buf[n]] && buf[3..n] == buf[..n][3..];
  }

  // The bit that decodeGeneric skipped goes in front of the 15 that it read.
  lemma JVCRepeatResult(buf: seq<uint16>)
    requires |buf| == 34
    ensures var symbols := GenericSymbols(buf, 34, 525, 0, 525, 525 * 3, 525);
            && (symbols.Some? ==>
                  Val(symbols.value, 2) < 0x8000
                  && FromBits(0, symbols) == Some(Decoded(0, Val(symbols.value, 2), 0, 15)))
            && FromBits(JVC, DecodePulse(JVCRepeatFormat(), buf, 34))
               == match PulseSymbol(buf[1], buf[2], 525, 525 * 3, 525)
                  case None => None
                  case Some(bit) => if symbols.None? then None
                                    else Some(Decoded(JVC, Low32(0x8000 * bit + Val(symbols.value, 2)), 0, 16))
  {
    var symbols := GenericSymbols(buf, 34, 525, 0, 525, 525 * 3, 525);
    JVCRepeatSymbols(buf);
    if symbols.Some? {
      var s := symbols.value;
      JVCPayload(buf, s);
      ShortFields(0, s);
      ShortFields(JVC, [1] + s);
      ShortFields(JVC, [0] + s);
    }
  }

  lemma JVCPayload(buf: seq<uint16>, s: seq<nat>)
    requires |buf| == 34 && GenericSymbols(buf, 34, 525, 0, 525, 525 * 3, 525) == Some(s)
    ensures |s| == 15 && InBase(s, 2)
    ensures Val(s, 2) < 0x8000 && Val([1] + s, 2) == 0x8000 + Val(s, 2) && Val([0] + s, 2) == Val(s, 2)
  {
    var a, body := PulseDistance(525, 525 * 3, 525), buf[..33][3..];
    PulseDistanceValid(525, 525 * 3, 525);
    ParseSound(body, a);
    PatternLength(s, a);
    FifteenBits(s);
  }

  lemma FifteenBits(s: seq<nat>)
    requires |s| == 15 && InBase(s, 2)
    ensures Val(s, 2) < 0x8000 && Val([1] + s, 2) == 0x8000 + Val(s, 2) && Val([0] + s, 2) == Val(s, 2)
  {
    ValBound(s, 2);
    ValPrepend(1, s, 2);
    ValPrepend(0, s, 2);
    Pow15();
  }

  lemma CYKMBound(buf: seq<uint16>)
    requires Protocols.DecodeCYKM(buf).Some?
    ensures Protocols.DecodeCYKM(buf).value.value < 0x8000
  {
    var f := CYKMFormat();
    var s := DecodePulse(f, buf, 34).value;
    PulseDistanceValid(650, 650 * 3, 650);
    DecodePulseSound(f, buf, 34);
    PatternLength(s, f.alphabet);
    ValBound(s, 2);
    Pow15();
  }

  // A short payload fits the low 32 bits.
  lemma ShortFields(p: uint8, s: seq<nat>)
    requires |s| <= 32 && InBase(s, 2)
    ensures FromBits(p, Some(s)) == Some(Decoded(p, Low32(Val(s, 2)), 0, |s|))
  {
    ValBound(s, 2);
    PowGrows(|s|, 32);
    Pow32();
  }

  lemma ShortPayload(b: seq<uint16>, a: Alphabet, p: uint8)
    requires a.Valid() && |a.codes| == 2 && |b| <= 32 * a.Width() && Parse(b, a).Some?
    ensures var s := Parse(b, a).value;
            a.Width() * |s| == |b| && |s| <= 32 && FromBits(p, Some(s)) == Some(Decoded(p, Low32(Val(s, 2)), 0, |s|))
  {
    var s := Parse(b, a).value;
    ParseSound(b, a);
    PatternLength(s, a);
    if |s| > 32 { MulLess(32, |s|, a.Width()); }
    ShortFields(p, s);
  }

  lemma SonyResult(buf: seq<uint16>)
    requires |buf| == 18 || |buf| == 26 || |buf| == 32 || |buf| == 42
    ensures Protocols.DecodeSony(buf)
            == if !Match(buf[1], 2400) then None
               else match Parse(buf[2..], PulseDistance(600, 1200, 600))
                 case None => None
                 case Some(s) => Some(Decoded(SONY, Low32(Val(s, 2)), 0, |s| % 0x100))
  {
    SonySymbols(buf);
    PulseDistanceValid(600, 1200, 600);
    var a := PulseDistance(600, 1200, 600);
    if Parse(buf[2..], a).Some? { ShortPayload(buf[2..], a, SONY); }
  }

  lemma DirecTVResult(buf: seq<uint16>)
    requires |buf| == 20
    ensures Protocols.DecodeDirecTV(buf)
            == if !(Match(buf[1], 3000) || Match(buf[1], 6000)) || !Match(buf[2], 1200) then None
               else match Parse(buf[..19][3..], DirecTVFormat(true).alphabet)
                 case None => None
                 case Some(s) => Some(Decoded(DIRECTV, Low32(Val(s, 2)), if Match(buf[1], 3000) then 0 else 1, 16))
  {
    var b, a := buf[..19][3..], DirecTVFormat(true).alphabet;
    DirecTVSymbols(buf, false);
    DirecTVSymbols(buf, true);
    DirecTVValid(true);
    if Parse(b, a).Some? { ShortPayload(b, a, DIRECTV); }
  }

  lemma RCMMResult(buf: seq<uint16>)
    requires |buf| == 16 || |buf| == 28 || |buf| == 36
    ensures Protocols.DecodeRCMM(buf)
            == if !Match(buf[1], 417) || !Match(buf[2], 278) || !Match(buf[|buf| - 1], 167) then None
               else match Parse(buf[..|buf| - 1][3..], RCMMFormat().alphabet)
                 case None => None
                 case Some(s) => Some(Decoded(RCMM, Low32(Val(s, 4)), 0, |buf| - 4))
  {
    RCMMSymbols(buf);
  }

  // The address part of a Samsung36 buffer, and both parts.
  function Samsung36AddressOf(buf: seq<uint16>): Option<seq<nat>>
    requires |buf| == 78
  {
    if !Match(buf[1], 4500) || !Match(buf[2], 4500) then None
    else if !Match(buf[35], 500) || !Match(buf[36], 4500) then None
    else Parse(buf[3..35], Samsung36Alphabet())
  }

  function Samsung36Both(buf: seq<uint16>): Option<Decoded>
    requires |buf| == 78
  {
    match Samsung36AddressOf(buf)
    case None => None
    case Some(address) =>
      match Parse(WithoutBreak(buf)[37..77], Samsung36Alphabet())
      case None => None
      case Some(data) => Some(Decoded(SAMSUNG36, Low32(Val(data, 2)), Val(address, 2) % 0x1_0000, 36))
  }

  lemma Samsung36Result(buf: seq<uint16>)
    requires |buf| == 78
    ensures Protocols.DecodeSamsung36(buf) == Samsung36Both(buf)
  {
    ConformsTwo(buf[1], buf[2], Percent(4500), Percent(4500));
    ConformsTwo(buf[35], buf[36], Percent(500), Percent(4500));
    assert buf[1..3] == [buf[1], buf[2]] && buf[35..37] == [buf[35], buf[36]];
  }

  lemma {:induction false} PowGrows(m: nat, n: nat)
    requires m <= n
    ensures Pow(2, m) <= Pow(2, n)
  {
    PowAdd(2, m, n - m);
    MulSum(Pow(2, m), 1, 1, Pow(2, n - m) - 1);
  }

  // Command type, modifier keys and command data make up the 15 bits.
  lemma CYKMParts(value: nat)
    requires value < 0x8000
    ensures value / 0x1000 % 8 * 0x1000 + value / 0x100 % 0x10 * 0x100 + value % 0x100 == value
  {
    var high := value / 0x100;
    assert value == high * 0x100 + value % 0x100 && high == high / 0x10 * 0x10 + high % 0x10;
    ModUnique(value, 0x1000, high / 0x10, high % 0x10 * 0x100 + value % 0x100);
  }

  // --- Phase-coded frames ---

  // The levels that are still to come when used of the interval at offset are gone.
  function Remaining(b: seq<uint16>, offset: nat, used: nat, t1: uint16): (ls: seq<RCLevel>)
    requires used <= |Levels(b, offset, t1)|
  {
    Levels(b, offset, t1)[used..]
  }

  // Between two calls of getRClevel at least one level of the interval at offset is left.
  predicate InStep(b: seq<uint16>, offset: nat, used: nat, t1: uint16) {
    used == 0 || (offset < |b| && used < Units(b[offset], t1))
  }

  lemma {:induction false} LevelsBound(b: seq<uint16>, offset: nat, t1: uint16)
    ensures offset < |b| ==> 1 <= |Levels(b, offset, t1)| <= 3 * (|b| - offset)
    decreases |b| - offset
  {
    if offset < |b| { LevelsBound(b, offset + 1, t1); }
  }

  lemma InStepRemains(b: seq<uint16>, offset: nat, used: nat, t1: uint16)
    requires InStep(b, offset, used, t1)
    ensures used <= |Levels(b, offset, t1)|
    ensures Remaining(b, offset, used, t1) != [] <==> offset < |b|
  {
    LevelsBound(b, offset, t1);
  }

  // One level is taken; an interval that is used up gives way to the next.
  lemma TakeLevel(b: seq<uint16>, offset: nat, used: nat, t1: uint16)
    requires InStep(b, offset, used, t1) && offset < |b| && Units(b[offset], t1) > 0
    ensures used <= |Levels(b, offset, t1)| && Remaining(b, offset, used, t1) != []
    ensures Remaining(b, offset, used, t1)[0] == LevelAt(offset)
    ensures var o, u := if used + 1 >= Units(b[offset], t1) then offset + 1 else offset,
                        if used + 1 >= Units(b[offset], t1) then 0 else used + 1;
            InStep(b, o, u, t1) && u <= |Levels(b, o, t1)|
            && Remaining(b, o, u, t1) == Remaining(b, offset, used, t1)[1..]
  {
    var units, next := Units(b[offset], t1), Levels(b, offset + 1, t1);
    assert Levels(b, offset, t1) == Repeat(LevelAt(offset), units) + next;
  }

  lemma NoLevel(b: seq<uint16>, offset: nat, used: nat, t1: uint16)
    requires InStep(b, offset, used, t1) && offset < |b| && Units(b[offset], t1) == 0
    ensures used <= |Levels(b, offset, t1)| && Remaining(b, offset, used, t1) == [ERROR]
  {
  }

  // The next level, and what getRClevel leaves of ls.
  function Next(ls: seq<RCLevel>): RCLevel { if ls == [] then SPACE else ls[0] }

  function After(ls: seq<RCLevel>): seq<RCLevel> { if ls == [] || ls[0] == ERROR then ls else ls[1..] }

  // What the phase decoders make of the levels ls when done was read in front of them.
  function PhasePending(k: Kind, ls: seq<RCLevel>, done: seq<nat>): Option<seq<nat>> {
    Join(done, ParsePhase(k, ls, |done|))
  }

  // The bit that two levels spell.
  function BitOf(k: Kind, a: RCLevel, b: RCLevel): Option<nat> {
    if a == FirstLevel(k, 1) && b == FirstLevel(k, 0) then Some(1)
    else if a == FirstLevel(k, 0) && b == FirstLevel(k, 1) then Some(0)
    else None
  }

  lemma PhaseBit(k: Kind, ls: seq<RCLevel>, done: seq<nat>, bit: nat)
    requires ls != [] && bit < 2 && Cell(ls, 2 * HalfWidth(k, |done|)) == Code(k, |done|, bit)
    ensures PhasePending(k, Beyond(ls, 2 * HalfWidth(k, |done|)), done + [bit]) == PhasePending(k, ls, done)
  {
    CodesDiffer(k, |done|);
    JoinSnoc(done, bit, ParsePhase(k, Beyond(ls, 2 * HalfWidth(k, |done|)), |done| + 1));
  }

  lemma TakeTwo(ls: seq<RCLevel>)
    requires Next(ls) != ERROR
    ensures Cell(ls, 2) == [Next(ls), Next(After(ls))]
    ensures Next(After(ls)) != ERROR ==> Beyond(ls, 2) == After(After(ls))
  {
  }

  lemma CodeOfTwo(k: Kind, i: nat, bit: nat)
    requires HalfWidth(k, i) == 1
    ensures Code(k, i, bit) == [FirstLevel(k, bit), Opposite(FirstLevel(k, bit))]
  {
  }

  // One bit of single width.
  lemma PhaseStep(k: Kind, ls: seq<RCLevel>, done: seq<nat>)
    requires ls != [] && HalfWidth(k, |done|) == 1
    ensures match BitOf(k, Next(ls), Next(After(ls)))
            case None => PhasePending(k, ls, done).None?
            case Some(bit) => PhasePending(k, After(After(ls)), done + [bit]) == PhasePending(k, ls, done)
  {
    CodeOfTwo(k, |done|, 0);
    CodeOfTwo(k, |done|, 1);
    if Next(ls) != ERROR { TakeTwo(ls); } else { assert Cell(ls, 2)[0] == ERROR; }
    match BitOf(k, Next(ls), Next(After(ls))) {
      case None =>
      case Some(bit) => PhaseBit(k, ls, done, bit);
    }
  }

  // The double-width bit of RC6: both halves of either level are looked at.
  function TrailerOf(a: RCLevel, a2: RCLevel, b: RCLevel, b2: RCLevel): Option<nat> {
    if a == a2 && b == b2 then BitOf(RC6Code, a, b) else None
  }

  lemma TakeFour(ls: seq<RCLevel>)
    requires Next(ls) != ERROR && Next(After(ls)) != ERROR && Next(After(After(ls))) != ERROR
    ensures Cell(ls, 4) == [Next(ls), Next(After(ls)), Next(After(After(ls))), Next(After(After(After(ls))))]
    ensures Next(After(After(After(ls)))) != ERROR ==> Beyond(ls, 4) == After(After(After(After(ls))))
  {
  }

  lemma TrailerFails(ls: seq<RCLevel>, done: seq<nat>)
    requires ls != [] && |done| == 3
    requires TrailerOf(Next(ls), Next(After(ls)), Next(After(After(ls))), Next(After(After(After(ls))))).None?
    ensures PhasePending(RC6Code, ls, done).None?
  {
    var c := Cell(ls, 4);
    forall bit: nat | bit < 2 ensures c != Code(RC6Code, 3, bit) {
      var code, first := Code(RC6Code, 3, bit), FirstLevel(RC6Code, bit);
      assert code[0] == first && code[1] == first && code[2] == Opposite(first) && code[3] == Opposite(first);
      if c == code {
        assert c[0] == first && c[1] == first && c[2] == Opposite(first) && c[3] == Opposite(first);
        TakeFour(ls);
      }
    }
  }

  lemma TrailerStep(ls: seq<RCLevel>, done: seq<nat>)
    requires ls != [] && |done| == 3
    ensures match TrailerOf(Next(ls), Next(After(ls)), Next(After(After(ls))), Next(After(After(After(ls)))))
            case None => PhasePending(RC6Code, ls, done).None?
            case Some(bit) =>
              PhasePending(RC6Code, After(After(After(After(ls)))), done + [bit]) == PhasePending(RC6Code, ls, done)
  {
    match TrailerOf(Next(ls), Next(After(ls)), Next(After(After(ls))), Next(After(After(After(ls))))) {
      case None => TrailerFails(ls, done);
      case Some(bit) =>
        TakeFour(ls);
        var first := FirstLevel(RC6Code, bit);
        assert Code(RC6Code, 3, bit) == [first, first, Opposite(first), Opposite(first)];
        PhaseBit(RC6Code, ls, done, bit);
    }
  }

  // A frame with its opening levels read one by one.
  lemma OpenedByMark(ls: seq<RCLevel>)
    ensures DecodePhase(RC5Code, [MARK], ls)
            == if Next(ls) != MARK then None else ParsePhase(RC5Code, After(ls), 0)
  {
    assert Cell(ls, 1)[0] == Next(ls);
    if Next(ls) == MARK { assert Cell(ls, 1) == [MARK]; }
  }

  lemma OpenedByMarkSpace(ls: seq<RCLevel>)
    ensures DecodePhase(RC6Code, [MARK, SPACE], ls)
            == if Next(ls) != MARK || Next(After(ls)) != SPACE then None else ParsePhase(RC6Code, After(After(ls)), 0)
  {
    if Next(ls) == MARK {
      TakeTwo(ls);
    } else {
      assert Cell(ls, 2)[0] == Next(ls);
    }
  }

  lemma PhaseFieldsOf(p: uint8, symbols: seq<nat>, longForm: nat, x: uint32, n: uint8)
    requires x == Low32(Val(symbols, 2)) && n == |symbols|
    ensures FromPhase(p, Some(symbols), longForm) == Some(Decoded(p, x, 0, if n == longForm then 32 else n))
  {
  }

  // The bits that are read fit the 8-bit counter.
  predicate Countable(n: nat, left: nat) { 2 * n + left <= 302 && (left > 0 ==> 2 * n + left <= 300) }

  lemma PhasePendingStarts(k: Kind, ls: seq<RCLevel>)
    ensures PhasePending(k, ls, []) == ParsePhase(k, ls, 0)
  {
    var rest := ParsePhase(k, ls, 0);
    if rest.Some? { assert [] + rest.value == rest.value; }
  }

  lemma PhasePendingEnds(k: Kind, done: seq<nat>)
    ensures PhasePending(k, [], done) == Some(done)
  {
    assert done + [] == done;
  }

  lemma LowOfLow(v: nat)
    ensures Low32(v) % 0x1_0000 == v % 0x1_0000
  {
    var q, x := v / 0x1_0000_0000, Low32(v);
    ModUnique(v, 0x1_0000, q * 0x1_0000 + x / 0x1_0000, x % 0x1_0000);
  }

  // --- The chain ---

  function FirstOf(x: Option<Decoded>, y: Option<Decoded>): Option<Decoded> { if x.Some? then x else y }

  lemma ChainLink(p: uint8, buf: seq<uint16>)
    requires p <= 12
    ensures ChainFrom(p, buf) == FirstOf(DecodeBy(p, buf), ChainFrom(p + 1, buf))
  {
  }

  lemma ChainUnfold(buf: seq<uint16>)
    ensures DecodeChain(buf)
            == FirstOf(Protocols.DecodeNEC(buf), FirstOf(Protocols.DecodeSony(buf),
               FirstOf(Protocols.DecodeRC5(buf), FirstOf(Protocols.DecodeRC6(buf),
               FirstOf(Protocols.DecodePanasonicOld(buf), FirstOf(Protocols.DecodeJVC(buf),
               FirstOf(Protocols.DecodeNECx(buf), ChainFrom(8, buf))))))))
  {
    ChainLink(1, buf);
    ChainLink(2, buf);
    ChainLink(3, buf);
    ChainLink(4, buf);
    ChainLink(5, buf);
    ChainLink(6, buf);
    ChainLink(7, buf);
  }

  lemma LastFive(buf: seq<uint16>)
    ensures ChainFrom(8, buf)
            == FirstOf(Protocols.DecodeSamsung36(buf), FirstOf(Protocols.DecodeGICable(buf),
               FirstOf(Protocols.DecodeDirecTV(buf), FirstOf(Protocols.DecodeRCMM(buf), Protocols.DecodeCYKM(buf)))))
  {
    ChainLink(8, buf);
    ChainLink(9, buf);
    ChainLink(10, buf);
    ChainLink(11, buf);
    ChainLink(12, buf);
    assert ChainFrom(13, buf) == None;
  }

  // Only Samsung36 takes buffers of 78 entries, of the decoders from its own on.
  lemma NothingAt78(buf: seq<uint16>)
    requires |buf| == 78
    ensures Protocols.DecodeGICable(buf).None? && Protocols.DecodeDirecTV(buf).None?
    ensures Protocols.DecodeRCMM(buf).None? && Protocols.DecodeCYKM(buf).None?
  {
  }
}
