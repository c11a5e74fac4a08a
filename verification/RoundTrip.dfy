// Each decoder undoes its own sender, whatever jitter its timing windows allow.
module RoundTrip {
  import opened Digits
  import opened Pulse
  import opened Wire
  import opened PhaseCode
  import opened PhaseRuns
  import opened Protocols

  // --- Symbol protocols ---

  lemma PulseDistanceValid(mark: nat, one: nat, zero: nat)
    requires zero * 5 / 4 < one * 3 / 4
    ensures PulseDistance(mark, one, zero).Valid()
  {
    var a := PulseDistance(mark, one, zero);
    forall s, t, b | 0 <= s < 2 && 0 <= t < 2 && Conforms(b, a.codes[s]) && Conforms(b, a.codes[t])
      ensures s == t
    {
      assert Within(b[1], a.codes[s][1]) && Within(b[1], a.codes[t][1]);
    }
  }

  lemma DirecTVValid(first: bool)
    ensures DirecTVFormat(first).alphabet.Valid()
  {
    var a := DirecTVFormat(first).alphabet;
    forall s, t, b | 0 <= s < 2 && 0 <= t < 2 && Conforms(b, a.codes[s]) && Conforms(b, a.codes[t])
      ensures s == t
    {
      assert Within(b[0], a.codes[s][0]) && Within(b[0], a.codes[t][0]);
    }
  }

  lemma RCMMValid()
    ensures RCMMFormat().alphabet.Valid()
  {
    var a := RCMMFormat().alphabet;
    forall s, t, b | 0 <= s < 4 && 0 <= t < 4 && Conforms(b, a.codes[s]) && Conforms(b, a.codes[t])
      ensures s == t
    {
      assert Within(b[1], a.codes[s][1]) && Within(b[1], a.codes[t][1]);
    }
  }

  lemma {:induction false} PatternLength(symbols: seq<nat>, a: Alphabet)
    requires a.Valid() && InBase(symbols, |a.codes|)
    ensures |Pattern(symbols, a)| == a.Width() * |symbols|
  {
    if symbols != [] {
      PatternLength(symbols[1..], a);
      assert a.Width() * |symbols| == a.Width() + a.Width() * |symbols[1..]|;
    }
  }

  predicate AllRoomy(ws: seq<Window>) { forall w :: w in ws ==> Roomy(w) }

  lemma {:induction false} PatternRoomy(symbols: seq<nat>, a: Alphabet)
    requires forall s :: 0 <= s < |a.codes| ==> AllRoomy(a.codes[s])
    ensures AllRoomy(Pattern(symbols, a))
  {
    if symbols != [] { PatternRoomy(symbols[1..], a); }
  }

  predicate RoomyFormat(f: Format) {
    && AllRoomy(f.head) && AllRoomy(f.tail)
    && forall s :: 0 <= s < |f.alphabet.codes| ==> AllRoomy(f.alphabet.codes[s])
  }

  lemma FrameRoomy(f: Format, symbols: seq<nat>)
    requires RoomyFormat(f)
    ensures AllRoomy(FramePattern(f, symbols))
  {
    PatternRoomy(symbols, f.alphabet);
  }

  lemma ModBelow(x: nat, m: nat)
    requires m > 0
    ensures 0 <= x % m <= x
    ensures x < m ==> x % m == x
  {
  }

  // A register of n <= 32 bits loses nothing to the width of the decoder's value field.
  lemma BitsValue(data: uint32, n: nat)
    ensures Val(Bits(data, n), 2) == Low32(Val(Bits(data, n), 2)) == Low(data, n)
  {
    ValOfToDigits(data, n, 2);
    ModBelow(data, Pow(2, n));
    ModBelow(data % Pow(2, n), 0x1_0000_0000);
  }

  lemma SmallWord(v: nat)
    requires v < 0x1_0000_0000
    ensures v / 0x1_0000_0000 == 0 && v % 0x1_0000_0000 == v
  {
  }

  lemma WordFields(p: uint8, s: seq<nat>)
    requires Val(s, 2) < 0x1_0000_0000 && |s| < 0x100
    ensures FromBits(p, Some(s)) == Some(Decoded(p, Val(s, 2), 0, |s|))
  {
    SmallWord(Val(s, 2));
  }

  // The fields that a symbol decoder sets for the n-bit payload of data.
  lemma PayloadFields(p: uint8, data: uint32, n: nat)
    requires n <= 32
    ensures FromBits(p, Some(Bits(data, n))) == Some(Decoded(p, Low(data, n), 0, n))
  {
    BitsValue(data, n);
    WordFields(p, Bits(data, n));
  }

  lemma PhaseFields(p: uint8, s: seq<nat>, longForm: nat, value: uint32, bits: uint8)
    requires Low32(Val(s, 2)) == value && bits == if |s| == longForm then 32 else |s|
    ensures FromPhase(p, Some(s), longForm) == Some(Decoded(p, value, 0, bits))
  {
  }

  lemma FullWidth(data: uint32)
    ensures Low(data, 32) == data
  {
    Pow32();
  }

  // Any buffer within the windows of a frame decodes to the frame's payload.
  lemma PulseRoundTrip(f: Format, buf: seq<uint16>, length: nat, symbols: seq<nat>)
    requires f.alphabet.Valid() && InBase(symbols, |f.alphabet.codes|)
    requires length == 1 + |f.head| + f.alphabet.Width() * |symbols| + |f.tail|
    requires |buf| > 0 && Conforms(buf[1..], FramePattern(f, symbols))
    ensures DecodePulse(f, buf, length) == Some(symbols) && |buf| == length
  {
    PatternLength(symbols, f.alphabet);
    DecodePulseIff(f, buf, length, symbols);
  }

  // Whatever a decoder with two symbols accepts, sending the decoded number again decodes to it again.
  lemma SentAgain(f: Format, buf: seq<uint16>, length: nat, again: seq<uint16>)
    requires f.alphabet.Valid() && |f.alphabet.codes| == 2 && DecodePulse(f, buf, length).Some?
    requires var s := DecodePulse(f, buf, length).value;
             |again| > 0 && Conforms(again[1..], FramePattern(f, Bits(Val(s, 2), |s|)))
    ensures DecodePulse(f, again, length) == DecodePulse(f, buf, length)
  {
    var s := DecodePulse(f, buf, length).value;
    DecodePulseSound(f, buf, length);
    ToDigitsOfVal(s, 2);
    SameLength(f, buf, length, s);
    PulseRoundTrip(f, again, length, s);
  }

  lemma SameLength(f: Format, buf: seq<uint16>, length: nat, symbols: seq<nat>)
    requires f.alphabet.Valid() && InBase(symbols, |f.alphabet.codes|)
    requires |buf| == length >= 1 && Conforms(buf[1..], FramePattern(f, symbols))
    ensures length == 1 + |f.head| + f.alphabet.Width() * |symbols| + |f.tail|
  {
    PatternLength(symbols, f.alphabet);
  }

  // --- Phase-coded protocols ---

  // buf[first..] holds the intervals of the half-bit events us, each within the window that
  // getRClevel reads as its number of half-bits.
  predicate HoldsUnits(k: Kind, buf: seq<uint16>, first: nat, us: seq<Event>) {
    Recorded(buf, first, T1(k), Trim(Merge(us)))
  }

  lemma LevelsOfFrame(k: Kind, buf: seq<uint16>, first: nat, us: seq<Event>)
    requires TwoLevel(us) && us != [] && us[0].level == MARK && LevelAt(first) == MARK
    requires HoldsUnits(k, buf, first, us)
    ensures Cut(Levels(buf, first, T1(k)), Spread(us))
  {
    MergeAlternates(us);
    SpreadMerge(us);
    SpreadTrim(Merge(us));
    LevelsOfRuns(buf, first, T1(k), Trim(Merge(us)));
  }

  // The last mark of a phase-coded frame lies in its last bit.
  lemma {:induction false} LastMark(k: Kind, bits: seq<nat>, i: nat) returns (p: nat)
    requires bits != [] && InBase(bits, 2)
    ensures |Encode(k, bits[..|bits| - 1], i)| <= p < |Encode(k, bits, i)| && Encode(k, bits, i)[p] == MARK
    decreases |bits|
  {
    var w, first := HalfWidth(k, i), FirstLevel(k, bits[0]);
    if |bits| == 1 {
      p := if first == MARK then 0 else w;
    } else {
      var q := LastMark(k, bits[1..], i + 1);
      p := 2 * w + q;
      assert bits[..|bits| - 1][1..] == bits[1..][..|bits| - 2];
    }
  }

  // Reading back a frame: its opening levels, then the phase coding of bits.
  lemma PhaseRoundTrip(k: Kind, ls: seq<RCLevel>, opening: seq<RCLevel>, bits: seq<nat>)
    requires bits != [] && InBase(bits, 2)
    requires Cut(ls, opening + Encode(k, bits, 0))
    ensures DecodePhase(k, opening, ls) == Some(bits)
  {
    var code, rest := Encode(k, bits, 0), Beyond(ls, |opening|);
    var full := opening + code;
    var p := LastMark(k, bits, 0);
    assert full[|opening| + p] == MARK;
    assert |opening| + p < |ls|;
    forall j | 0 <= j < |opening| ensures Cell(ls, |opening|)[j] == opening[j] { assert full[j] == opening[j]; }
    forall j | 0 <= j < |code| ensures code[j] == (rest + Repeat(SPACE, |code| - |rest|))[j] {
      assert code[j] == full[|opening| + j];
    }
    assert Spells(k, rest, bits, 0);
    ParsePhaseIff(k, rest, 0, bits);
  }

  lemma CutBehind(opening: seq<RCLevel>, rest: seq<RCLevel>, code: seq<RCLevel>)
    requires Cut(rest, code)
    ensures Cut(opening + rest, opening + code)
  {
    var silence := Repeat(SPACE, |code| - |rest|);
    assert opening + (rest + silence) == (opening + rest) + silence;
  }

  lemma CutReadable(k: Kind, rest: seq<RCLevel>, bits: seq<nat>)
    requires Cut(rest, Encode(k, bits, 0))
    ensures forall j :: 0 <= j < |rest| ==> rest[j] != ERROR
  {
    NoErrors(k, bits, 0);
    forall j | 0 <= j < |rest| ensures rest[j] != ERROR { assert rest[j] == Encode(k, bits, 0)[j]; }
  }

  lemma OpenedBy(opening: seq<RCLevel>, ls: seq<RCLevel>)
    requires |ls| >= |opening| && Cell(ls, |opening|) == opening
    ensures ls == opening + Beyond(ls, |opening|)
  {
    forall j | 0 <= j < |opening| ensures ls[j] == opening[j] { assert Cell(ls, |opening|)[j] == opening[j]; }
  }

  // Conversely, levels that decode are the opening and the phase coding of the decoded bits.
  lemma PhaseSound(k: Kind, ls: seq<RCLevel>, opening: seq<RCLevel>, bits: seq<nat>)
    requires |ls| >= |opening| && DecodePhase(k, opening, ls) == Some(bits)
    ensures InBase(bits, 2) && Cut(ls, opening + Encode(k, bits, 0))
    ensures bits != [] ==> |ls| > |opening| + |Encode(k, bits[..|bits| - 1], 0)|
    ensures bits == [] ==> |ls| == |opening|
    ensures forall j :: |opening| <= j < |ls| ==> ls[j] != ERROR
  {
    var rest := Beyond(ls, |opening|);
    ParsePhaseIff(k, rest, 0, bits);
    OpenedBy(opening, ls);
    CutBehind(opening, rest, Encode(k, bits, 0));
    CutReadable(k, rest, bits);
    forall j | |opening| <= j < |ls| ensures ls[j] != ERROR { assert ls[j] == rest[j - |opening|]; }
  }

  lemma {:induction false} NoErrors(k: Kind, bits: seq<nat>, i: nat)
    ensures forall j :: 0 <= j < |Encode(k, bits, i)| ==> Encode(k, bits, i)[j] != ERROR
    decreases |bits|
  {
    if bits != [] { NoErrors(k, bits[1..], i + 1); }
  }

  // Levels without an error come from intervals that are all multiples of half a bit.
  lemma {:induction false} AllReadable(buf: seq<uint16>, offset: nat, t1: uint16)
    requires offset <= |buf|
    ensures var ls := Levels(buf, offset, t1);
            (forall j :: 0 <= j < |ls| ==> ls[j] != ERROR) ==>
            |ls| >= |buf| - offset && forall i :: offset <= i < |buf| ==> Units(buf[i], t1) > 0
    decreases |buf| - offset
  {
    if offset < |buf| {
      AllReadable(buf, offset + 1, t1);
      var ls, u, rest := Levels(buf, offset, t1), Units(buf[offset], t1), Levels(buf, offset + 1, t1);
      if u == 0 {
        assert ls[0] == ERROR;
      } else if forall j :: 0 <= j < |ls| ==> ls[j] != ERROR {
        forall j | 0 <= j < |rest| ensures rest[j] != ERROR { assert rest[j] == ls[u + j]; }
      }
    }
  }

  // The runs of a frame, and how many of them are recorded.
  lemma RC5Runs(bits: seq<nat>)
    requires bits != [] && InBase(bits, 2)
    ensures var us, m := [Event(MARK, 1)] + PhaseUnits(RC5Code, bits, 0), Merge(PhaseUnits(RC5Code, bits, 0));
            && m != [] && m[0].time == 1 && Merge(us) == Opened(m)
            && 1 + |Trim(Merge(us))| == PhaseEntries(RC5Code, bits)
  {
    var us, m := [Event(MARK, 1)] + PhaseUnits(RC5Code, bits, 0), Merge(PhaseUnits(RC5Code, bits, 0));
    assert us[1..] == PhaseUnits(RC5Code, bits, 0);
    RunBounds(RC5Code, bits, 0);
    assert Merge(us) == Opened(m);
    RC5Count(bits);
  }

  // The start mark in front of the runs m.
  function Opened(m: seq<Event>): seq<Event>
    requires m != []
  {
    if m[0].level == MARK then [Event(MARK, 1 + m[0].time)] + m[1..] else [Event(MARK, 1)] + m
  }

  lemma OpenedBounds(m: seq<Event>, most: nat)
    requires m != [] && m[0].time == 1 && 2 <= most && forall j :: 0 <= j < |m| ==> 1 <= m[j].time <= most
    ensures forall j :: 0 <= j < |Opened(m)| ==> 1 <= Opened(m)[j].time <= most
  {
    var rs := Opened(m);
    forall j | 0 <= j < |rs| ensures 1 <= rs[j].time <= most {
      if j > 0 { assert rs[j] == if m[0].level == MARK then m[j] else m[j - 1]; }
    }
  }

  lemma RC5Count(bits: seq<nat>)
    requires bits != [] && InBase(bits, 2) && Merge(PhaseUnits(RC5Code, bits, 0)) != []
    ensures 1 + |Trim(Opened(Merge(PhaseUnits(RC5Code, bits, 0))))| == PhaseEntries(RC5Code, bits)
  {
    var m := Merge(PhaseUnits(RC5Code, bits, 0));
    RunBounds(RC5Code, bits, 0);
    RunCount(RC5Code, bits, 0);
    LastRun(RC5Code, bits, 0);
    OpenedEnd(m);
    assert m[0].level == MARK <==> bits[0] != 1;
  }

  lemma OpenedEnd(m: seq<Event>)
    requires |m| >= 2
    ensures var rs := Opened(m);
            && |rs| == |m| + (if m[0].level == MARK then 0 else 1)
            && rs[|rs| - 1] == m[|m| - 1]
            && |Trim(rs)| == |rs| - if m[|m| - 1].level == SPACE then 1 else 0
  {
  }

  lemma RC6Runs(bits: seq<nat>)
    requires bits != [] && InBase(bits, 2)
    ensures var us, m := [Event(MARK, 1), Event(SPACE, 1)] + PhaseUnits(RC6Code, bits, 0),
                         Merge(PhaseUnits(RC6Code, bits, 0));
            && m != [] && m[0].time == 1 && Merge(us) == Joined(MARK, 1, m)
            && 3 + |Trim(Merge(us))| == PhaseEntries(RC6Code, bits)
  {
    RC6Opened(bits, [Event(MARK, 1), Event(SPACE, 1)] + PhaseUnits(RC6Code, bits, 0));
    RunBounds(RC6Code, bits, 0);
    RC6Count(bits);
  }

  lemma RC6Count(bits: seq<nat>)
    requires bits != [] && InBase(bits, 2)
    ensures 3 + |Trim(Joined(MARK, 1, Merge(PhaseUnits(RC6Code, bits, 0))))| == PhaseEntries(RC6Code, bits)
  {
    var m := Merge(PhaseUnits(RC6Code, bits, 0));
    RunBounds(RC6Code, bits, 0);
    RunCount(RC6Code, bits, 0);
    LastRun(RC6Code, bits, 0);
    JoinedEnd(MARK, 1, m);
    assert m[0].level == SPACE <==> bits[0] != 1;
  }

  lemma RC6Opened(bits: seq<nat>, us: seq<Event>)
    requires bits != [] && us == [Event(MARK, 1), Event(SPACE, 1)] + PhaseUnits(RC6Code, bits, 0)
    ensures Merge(us) == Joined(MARK, 1, Merge(PhaseUnits(RC6Code, bits, 0)))
  {
    var units := PhaseUnits(RC6Code, bits, 0);
    var m, second := Merge(units), us[1..];
    assert second[1..] == units && second[0] == Event(SPACE, 1);
    assert Merge(second) == if m[0].level == SPACE then [Event(SPACE, 1 + m[0].time)] + m[1..] else [second[0]] + m;
    assert Merge(us) == [us[0]] + Merge(second);
  }

  lemma RC5Levels(bits: seq<nat>, buf: seq<uint16>)
    requires bits != [] && InBase(bits, 2)
    requires HoldsUnits(RC5Code, buf, 1, [Event(MARK, 1)] + PhaseUnits(RC5Code, bits, 0))
    ensures |buf| == PhaseEntries(RC5Code, bits)
    ensures DecodePhase(RC5Code, [MARK], Levels(buf, 1, T1(RC5Code))) == Some(bits)
  {
    var us := [Event(MARK, 1)] + PhaseUnits(RC5Code, bits, 0);
    SpreadUnits(RC5Code, bits, 0);
    assert us[1..] == PhaseUnits(RC5Code, bits, 0);
    assert Spread(us) == [MARK] + Encode(RC5Code, bits, 0);
    LevelsOfFrame(RC5Code, buf, 1, us);
    PhaseRoundTrip(RC5Code, Levels(buf, 1, T1(RC5Code)), [MARK], bits);
    RC5Runs(bits);
  }

  // Any frame within the windows of getRClevel decodes to its bits, provided that it is long enough.
  lemma RC5RoundTrip(data: uint32, n: nat, buf: seq<uint16>)
    requires 1 <= n <= 32 && HoldsUnits(RC5Code, buf, 1, RC5Units(data, n))
    ensures |buf| == PhaseEntries(RC5Code, Bits(data, n))
    ensures DecodeRC5(buf) == if |buf| < 13 then None else Some(Decoded(RC5, Low(data, n), 0, n))
  {
    var bits := Bits(data, n);
    RC5Levels(bits, buf);
    BitsValue(data, n);
    PhaseFields(RC5, bits, 32, Low(data, n), n);
  }

  lemma RC6Levels(bits: seq<nat>, buf: seq<uint16>)
    requires bits != [] && InBase(bits, 2) && |buf| >= 3
    requires HoldsUnits(RC6Code, buf, 3, [Event(MARK, 1), Event(SPACE, 1)] + PhaseUnits(RC6Code, bits, 0))
    ensures |buf| == PhaseEntries(RC6Code, bits)
    ensures DecodePhase(RC6Code, [MARK, SPACE], Levels(buf, 3, T1(RC6Code))) == Some(bits)
  {
    var us := [Event(MARK, 1), Event(SPACE, 1)] + PhaseUnits(RC6Code, bits, 0);
    RC6Spread(bits, us);
    LevelsOfFrame(RC6Code, buf, 3, us);
    PhaseRoundTrip(RC6Code, Levels(buf, 3, T1(RC6Code)), [MARK, SPACE], bits);
    RC6Runs(bits);
  }

  lemma RC6Spread(bits: seq<nat>, us: seq<Event>)
    requires us == [Event(MARK, 1), Event(SPACE, 1)] + PhaseUnits(RC6Code, bits, 0)
    ensures TwoLevel(us) && Spread(us) == [MARK, SPACE] + Encode(RC6Code, bits, 0)
  {
    SpreadUnits(RC6Code, bits, 0);
    assert us[1..][1..] == PhaseUnits(RC6Code, bits, 0);
    assert Spread(us) == [MARK] + ([SPACE] + Encode(RC6Code, bits, 0));
    assert Spread(us) == [MARK, SPACE] + Encode(RC6Code, bits, 0);
  }

  lemma RC6RoundTrip(data: uint32, n: nat, buf: seq<uint16>)
    requires 1 <= n <= 64 && |buf| >= 3 && Match(buf[1], 2666) && Match(buf[2], 889)
    requires HoldsUnits(RC6Code, buf, 3, RC6Units(data, n))
    ensures |buf| == PhaseEntries(RC6Code, RC6Bits(data, n))
    ensures DecodeRC6(buf) == if |buf| < 23 || |buf| > 77 then None
                              else Some(Decoded(RC6, Low(data, n), 0, if n == 36 then 32 else n))
  {
    var bits := RC6Bits(data, n);
    RC6Value(data, n);
    RC6Levels(bits, buf);
    PhaseFields(RC6, bits, 36, Low(data, n), if n == 36 then 32 else n);
  }

  lemma RC6Value(data: uint32, n: nat)
    requires n >= 1
    ensures |RC6Bits(data, n)| == (if n == 32 then 36 else n)
    ensures Low32(Val(RC6Bits(data, n), 2)) == Low(data, n)
  {
    if n == 32 {
      RC6LongForm(data);
    } else {
      BitsValue(data, n);
    }
  }

  // The 0xC in front of the 32-bit variety falls off the decoder's 32-bit register.
  lemma RC6LongForm(data: uint32)
    ensures Low32(Val(RC6Bits(data, 32), 2)) == Low(data, 32)
  {
    var long: nat := 0xC_0000_0000 + data;
    Pow36();
    ValOfToDigits(long, 36, 2);
    ModBelow(long, 0x10_0000_0000);
    ModUnique(long, 0x1_0000_0000, 0xC, data);
    FullWidth(data);
  }
}
