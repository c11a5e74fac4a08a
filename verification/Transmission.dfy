// The frames that one call of a send method puts on the wire: the signal is cut at long silences.
module Transmission {
  import opened Digits
  import opened Pulse
  import opened Wire
  import opened PhaseCode
  import opened PhaseRuns
  import opened Protocols
  import opened Delivery
  import opened Waves

  // A longer space ends the frame.
  const FRAME_TIMEOUT: nat := 7800

  // The intervals rs, cut at every long space; open holds those of the frame being cut out. The last
  // space runs into the silence behind it. These are the frames on the wire: to record each of them
  // whole, a receiver has to be waiting for a mark when it begins.
  function Frames(rs: seq<Event>, open: seq<nat>): seq<seq<nat>>
    decreases |rs|
  {
    if rs == [] then (if open == [] then [] else [open])
    else if rs[0].level == SPACE && (rs[0].time > FRAME_TIMEOUT || |rs| == 1)
    then (if open == [] then [] else [open]) + Frames(rs[1..], [])
    else Frames(rs[1..], open + [rs[0].time])
  }

  // One frame ds and a space behind it, however its events are cut up.
  ghost predicate Burst(es: seq<Event>, ds: seq<nat>, gap: nat) {
    ds != [] && Merge(es) == Alternate(ds, MARK) + [Event(SPACE, gap)]
  }

  // No space inside the frame is long enough to end it.
  predicate Quiet(ds: seq<nat>) { forall j :: 0 <= j < |ds| && j % 2 == 1 ==> ds[j] <= FRAME_TIMEOUT }

  // --- Cutting the signal ---

  lemma {:induction false} FramesQuiet(rs: seq<Event>, gap: nat, rest: seq<Event>, open: seq<nat>)
    requires forall j :: 0 <= j < |rs| && rs[j].level == SPACE ==> rs[j].time <= FRAME_TIMEOUT
    requires open != [] || rs != []
    ensures gap > FRAME_TIMEOUT || rest == [] ==>
            Frames(rs + [Event(SPACE, gap)] + rest, open) == [open + Times(rs)] + Frames(rest, [])
    decreases |rs|
  {
    var all := rs + [Event(SPACE, gap)] + rest;
    if rs == [] {
      assert all[1..] == rest && open + Times(rs) == open;
    } else {
      assert all[1..] == rs[1..] + [Event(SPACE, gap)] + rest;
      FramesQuiet(rs[1..], gap, rest, open + [rs[0].time]);
      assert open + [rs[0].time] + Times(rs[1..]) == open + Times(rs);
    }
  }

  lemma QuietLevels(ds: seq<nat>)
    requires Quiet(ds)
    ensures Times(Alternate(ds, MARK)) == ds
    ensures var rs := Alternate(ds, MARK);
            forall j :: 0 <= j < |rs| && rs[j].level == SPACE ==> rs[j].time <= FRAME_TIMEOUT
  {
    forall j | 0 <= j < |ds|
      ensures Alternate(ds, MARK)[j].time == ds[j]
      ensures Alternate(ds, MARK)[j].level == SPACE ==> ds[j] <= FRAME_TIMEOUT
    {
      AlternateAt(ds, MARK, j);
    }
  }

  lemma FramesBurst(es: seq<Event>, ds: seq<nat>, gap: nat, rest: seq<Event>)
    requires Burst(es, ds, gap) && Quiet(ds) && (gap > FRAME_TIMEOUT || rest == [])
    ensures Frames(Merge(es) + rest, []) == [ds] + Frames(rest, [])
  {
    QuietLevels(ds);
    FramesQuiet(Alternate(ds, MARK), gap, rest, []);
    assert [] + ds == ds;
  }

  lemma OneFrame(es: seq<Event>, ds: seq<nat>, gap: nat)
    requires Burst(es, ds, gap) && Quiet(ds)
    ensures Frames(Merge(es), []) == [ds]
  {
    FramesBurst(es, ds, gap, []);
    assert Merge(es) + [] == Merge(es) && [ds] + [] == [ds];
  }

  lemma FrontConcat(x: Event, m: seq<Event>, n: seq<Event>)
    requires m != []
    ensures Front(x, m + n) == Front(x, m) + n
  {
    assert (m + n)[1..] == m[1..] + n;
  }

  // Signals that meet at a level change are merged independently.
  lemma {:induction false} MergeApart(xs: seq<Event>, ys: seq<Event>)
    requires xs != [] && ys != [] && xs[|xs| - 1].level != ys[0].level
    ensures Merge(xs + ys) == Merge(xs) + Merge(ys)
    decreases |xs|
  {
    var x, rest := xs[0], xs[1..];
    assert xs == [x] + rest;
    if rest == [] {
      assert xs == [x];
      MergeFront(x, ys);
    } else {
      assert xs + ys == [x] + (rest + ys);
      MergeApart(rest, ys);
      MergeFront(x, rest);
      MergeFront(x, rest + ys);
      FrontConcat(x, Merge(rest), Merge(ys));
    }
  }

  lemma {:induction false} MergeLast(es: seq<Event>)
    requires es != []
    ensures Merge(es)[|Merge(es)| - 1].level == es[|es| - 1].level
  {
    MergeExtend(es[..|es| - 1], es[|es| - 1]);
    assert es == es[..|es| - 1] + [es[|es| - 1]];
  }

  lemma BurstEnds(es: seq<Event>, ds: seq<nat>, gap: nat)
    requires Burst(es, ds, gap)
    ensures es != [] && es[0].level == MARK && es[|es| - 1].level == SPACE
  {
    MergeLast(es);
  }

  lemma BurstsApart(xs: seq<Event>, ds: seq<nat>, gap: nat, ys: seq<Event>, ts: seq<nat>, last: nat)
    requires Burst(xs, ds, gap) && Burst(ys, ts, last)
    ensures Merge(xs + ys) == Merge(xs) + Merge(ys)
  {
    BurstEnds(xs, ds, gap);
    BurstEnds(ys, ts, last);
    MergeApart(xs, ys);
  }

  // Two frames with a long gap between them stay two, with a short gap they are one.
  lemma TwoFrames(xs: seq<Event>, ds: seq<nat>, gap: nat, ys: seq<Event>, ts: seq<nat>, last: nat)
    requires Burst(xs, ds, gap) && Burst(ys, ts, last) && Quiet(ds) && Quiet(ts) && gap > FRAME_TIMEOUT
    ensures Frames(Merge(xs + ys), []) == [ds, ts]
  {
    BurstsApart(xs, ds, gap, ys, ts, last);
    FramesBurst(xs, ds, gap, Merge(ys));
    OneFrame(ys, ts, last);
  }

  lemma BurstsJoin(xs: seq<Event>, ds: seq<nat>, gap: nat, ys: seq<Event>, ts: seq<nat>, last: nat)
    requires Burst(xs, ds, gap) && Burst(ys, ts, last) && |ds| % 2 == 1
    ensures Burst(xs + ys, ds + [gap] + ts, last)
  {
    BurstsApart(xs, ds, gap, ys, ts, last);
    AlternateJoin(ds, gap, ts);
    Assoc(Alternate(ds, MARK) + [Event(SPACE, gap)], Alternate(ts, MARK), [Event(SPACE, last)]);
  }

  lemma AlternateJoin(ds: seq<nat>, gap: nat, ts: seq<nat>)
    requires |ds| % 2 == 1
    ensures Alternate(ds + [gap] + ts, MARK) == Alternate(ds, MARK) + [Event(SPACE, gap)] + Alternate(ts, MARK)
  {
    AlternateConcat(ds + [gap], ts, MARK);
    AlternateConcat(ds, [gap], MARK);
    assert Alternate([gap], SPACE) == [Event(SPACE, gap)];
  }

  // --- Bursts of the senders ---

  lemma PulseBurst(ds: seq<nat>, x: nat)
    requires |ds| % 2 == 1
    ensures Burst(Alternate(ds, MARK) + [Event(SPACE, x)], ds, x)
  {
    MergeAlternating(ds, MARK);
    EndsInMark(ds);
    MergeExtend(Alternate(ds, MARK), Event(SPACE, x));
  }

  lemma BurstLonger(es: seq<Event>, ds: seq<nat>, x: nat, y: nat)
    requires Burst(es, ds, x)
    ensures Burst(es + [Event(SPACE, y)], ds, x + y)
  {
    MergeExtend(es, Event(SPACE, y));
    var m := Merge(es);
    assert m[..|m| - 1] == Alternate(ds, MARK);
  }

  lemma WaveOne(ds: seq<nat>, x: nat)
    requires |ds| % 2 == 1
    ensures Burst(PulseWave(ds, [x]), ds, x)
  {
    SilenceOne(x);
    PulseBurst(ds, x);
  }

  lemma WaveTwo(ds: seq<nat>, x: nat, y: nat)
    requires |ds| % 2 == 1
    ensures Burst(PulseWave(ds, [x, y]), ds, x + y)
  {
    SilenceTwo(x, y);
    PulseBurst(ds, x);
    BurstLonger(Alternate(ds, MARK) + [Event(SPACE, x)], ds, x, y);
    assert Alternate(ds, MARK) + [Event(SPACE, x), Event(SPACE, y)]
           == Alternate(ds, MARK) + [Event(SPACE, x)] + [Event(SPACE, y)];
  }

  // Silence comes in one space or two.
  function Sum(silence: seq<nat>): nat
    requires 1 <= |silence| <= 2
  {
    if |silence| == 1 then silence[0] else silence[0] + silence[1]
  }

  lemma WaveBurst(ds: seq<nat>, silence: seq<nat>)
    requires |ds| % 2 == 1 && 1 <= |silence| <= 2
    ensures Burst(PulseWave(ds, silence), ds, Sum(silence))
  {
    if |silence| == 1 {
      assert silence == [silence[0]];
      WaveOne(ds, silence[0]);
    } else {
      assert silence == [silence[0], silence[1]];
      WaveTwo(ds, silence[0], silence[1]);
    }
  }

  lemma {:induction false} AlternatingRuns(rs: seq<Event>)
    requires rs != [] && TwoLevel(rs) && Alternating(rs)
    ensures rs == Alternate(Times(rs), rs[0].level)
  {
    assert Times(rs) == [rs[0].time] + Times(rs[1..]);
    if |rs| > 1 {
      assert rs[0 + 1].level == Opposite(rs[0].level);
      forall j | 0 <= j < |rs[1..]| - 1 ensures rs[1..][j + 1].level == Opposite(rs[1..][j].level) {
        assert rs[(j + 1) + 1].level == Opposite(rs[j + 1].level);
      }
      AlternatingRuns(rs[1..]);
    }
  }

  // The space that runs end in.
  function TailSpace(rs: seq<Event>): nat {
    if rs != [] && rs[|rs| - 1].level == SPACE then rs[|rs| - 1].time else 0
  }

  lemma ExtendRuns(rs: seq<Event>, x: nat)
    ensures Extend(rs, Event(SPACE, x)) == Trim(rs) + [Event(SPACE, TailSpace(rs) + x)]
  {
  }

  lemma CapturedRuns(es: seq<Event>)
    requires es != [] && es[0].level == MARK && TwoLevel(es)
    ensures Capture(es) != [] && Trim(Merge(es)) == Alternate(Capture(es), MARK)
  {
    MergeAlternates(es);
    AlternatingRuns(Trim(Merge(es)));
  }

  // Events in any grouping, then silence.
  lemma BurstOfRuns(es: seq<Event>, rs: seq<Event>, ds: seq<nat>, x: nat)
    requires ds != [] && Merge(es) == rs && Trim(rs) == Alternate(ds, MARK)
    ensures Burst(es + [Event(SPACE, x)], ds, TailSpace(rs) + x)
  {
    MergeExtend(es, Event(SPACE, x));
    ExtendRuns(rs, x);
  }

  lemma ScaleTwoLevel(us: seq<Event>, t1: nat)
    requires TwoLevel(us)
    ensures TwoLevel(Scale(us, t1))
  {
  }

  lemma UnitsTwoLevel(k: Kind, bits: seq<nat>)
    ensures TwoLevel(PhaseUnits(k, bits, 0))
  {
    SpreadUnits(k, bits, 0);
  }

  lemma UnitsBurst(k: Kind, opening: seq<Event>, bits: seq<nat>, x: nat)
    requires opening != [] && opening[0].level == MARK && TwoLevel(opening)
    ensures var es := Scale(opening + PhaseUnits(k, bits, 0), T1(k));
            Burst(es + [Event(SPACE, x)], Capture(es), TailSpace(Merge(es)) + x)
  {
    var us := opening + PhaseUnits(k, bits, 0);
    var es := Scale(us, T1(k));
    UnitsTwoLevel(k, bits);
    ScaleTwoLevel(us, T1(k));
    CapturedRuns(es);
    BurstOfRuns(es, Merge(es), Capture(es), x);
  }

  function RC5Gap(d: uint32, n: nat): nat {
    var body := Scale(RC5Units(d, n), 889);
    TailSpace(Merge(body)) + Remainder(114000, body)
  }

  lemma RC5Burst(d: uint32, n: uint8)
    ensures Burst(RC5Wave(d, n), Frame(RC5Message(d, n)), RC5Gap(d, n))
  {
    var units := Scale(RC5Units(d, n), 889);
    UnitsBurst(RC5Code, [Event(MARK, 1)], Bits(d, n), Remainder(114000, units));
    assert Burst(RC5Wave(d, n), Capture(units), RC5Gap(d, n));
  }

  // A header in front of a burst.
  lemma HeadedBurst(mark: nat, space: nat, es: seq<Event>, ds: seq<nat>, gap: nat)
    requires Burst(es, ds, gap)
    ensures Burst([Event(MARK, mark), Event(SPACE, space)] + es, [mark, space] + ds, gap)
  {
    var head := [Event(MARK, mark), Event(SPACE, space)];
    BurstEnds(es, ds, gap);
    MergeApart(head, es);
    assert head[1..] == [head[1]] && Merge(head) == head;
    AlternateConcat([mark, space], ds, MARK);
    AlternateTwo(mark, space);
    assert head + (Alternate(ds, MARK) + [Event(SPACE, gap)])
           == Alternate([mark, space] + ds, MARK) + [Event(SPACE, gap)];
  }

  function RC6Gap(d: uint32, n: nat): nat {
    TailSpace(Merge(Scale(RC6Units(d, n), 444))) + Remainder(107000, RC6Body(d, n))
  }

  lemma RC6WaveParts(d: uint32, n: nat)
    ensures RC6Wave(d, n) == [Event(MARK, 2666), Event(SPACE, 889)]
                             + (Scale(RC6Units(d, n), 444) + [Event(SPACE, Remainder(107000, RC6Body(d, n)))])
  {
  }

  lemma RC6Burst(d: uint32, n: uint8)
    ensures Burst(RC6Wave(d, n), Frame(RC6Message(d, n)), RC6Gap(d, n))
  {
    var units, r := Scale(RC6Units(d, n), 444), Remainder(107000, RC6Body(d, n));
    UnitsBurst(RC6Code, [Event(MARK, 1), Event(SPACE, 1)], RC6Bits(d, n), r);
    HeadedBurst(2666, 889, units + [Event(SPACE, r)], Capture(units), RC6Gap(d, n));
    RC6WaveParts(d, n);
    assert Burst(RC6Wave(d, n), [2666, 889] + Capture(units), RC6Gap(d, n));
  }

  // The 68us break lengthens the space in front of it.
  lemma Samsung36Burst(d: uint32, a: uint32)
    ensures Burst(Samsung36Wave(d, a), Samsung36Frame(a, d), 118 * 500)
  {
    var before, after := Samsung36Before(a, d), Samsung36After(d);
    Samsung36Halves(d, a);
    var n := |before|;
    var front := before[..n - 1];
    assert before == front + [before[n - 1]];
    AlternateConcat(front, [before[n - 1]], MARK);
    assert Alternate([before[n - 1]], SPACE) == [Event(SPACE, before[n - 1])];
    PulseBurst(front, before[n - 1]);
    BurstLonger(Alternate(before, MARK), front, before[n - 1], 68);
    PulseBurst(after, 118 * 500);
    BurstsJoin(Alternate(before, MARK) + [Event(SPACE, 68)], front, before[n - 1] + 68,
               Alternate(after, MARK) + [Event(SPACE, 59000)], after, 59000);
    assert Samsung36Wave(d, a)
           == (Alternate(before, MARK) + [Event(SPACE, 68)]) + (Alternate(after, MARK) + [Event(SPACE, 59000)]);
  }

  lemma Samsung36Halves(d: uint32, a: uint32)
    ensures var before, after := Samsung36Before(a, d), Samsung36After(d);
            && |before| == 60 && |after| == 17
            && Samsung36Frame(a, d) == before[..59] + [before[59] + 68] + after
  {
    Samsung36Lengths(d, a);
    Samsung36Parts(d, a);
    StretchFront(Samsung36Before(a, d), Samsung36After(d));
  }

  lemma Samsung36Parts(d: uint32, a: uint32)
    ensures Nominal(Samsung36Pattern(Bits(a, 16), Bits(d, 20))) == Samsung36Before(a, d) + Samsung36After(d)
  {
    var al, address, data := Samsung36Alphabet(), Bits(a, 16), Bits(d, 20);
    PatternSplit(data, al, 12);
    Samsung36Nominal(Pattern(address, al), Pattern(data[..12], al), Pattern(data[12..], al));
  }

  lemma Samsung36Lengths(d: uint32, a: uint32)
    ensures |Samsung36Before(a, d)| == 60 && |Samsung36After(d)| == 17
  {
    PatternEven(Bits(a, 16), 500, 1500, 500);
    PatternEven(Bits(d, 20)[..12], 500, 1500, 500);
    PatternEven(Bits(d, 20)[12..], 500, 1500, 500);
  }

  lemma StretchFront(before: seq<nat>, after: seq<nat>)
    requires |before| == 60
    ensures (before + after)[59 := before[59] + 68] == before[..59] + [before[59] + 68] + after
  {
  }

  lemma Samsung36Nominal(address: seq<Window>, early: seq<Window>, late: seq<Window>)
    ensures Nominal([Percent(4500), Percent(4500)] + address
                    + [Percent(500), Percent(4500)] + (early + late) + [Unchecked(500)])
            == ([4500, 4500] + Nominal(address) + [500, 4500] + Nominal(early)) + (Nominal(late) + [500])
  {
    var head, second := [Percent(4500), Percent(4500)], [Percent(500), Percent(4500)];
    assert head + address + second + (early + late) + [Unchecked(500)]
           == (head + address + second + early) + (late + [Unchecked(500)]);
    NominalConcat(head + address + second + early, late + [Unchecked(500)]);
    NominalConcat(late, [Unchecked(500)]);
    NominalConcat(head + address + second, early);
    NominalConcat(head + address, second);
    NominalConcat(head, address);
    NominalTwo(head[0], head[1]);
    NominalTwo(second[0], second[1]);
    NominalOne(Unchecked(500));
  }

  lemma {:induction false} PatternSplit(symbols: seq<nat>, a: Alphabet, k: nat)
    requires InBase(symbols, |a.codes|) && k <= |symbols|
    ensures Pattern(symbols, a) == Pattern(symbols[..k], a) + Pattern(symbols[k..], a)
  {
    if k > 0 {
      PatternSplit(symbols[1..], a, k - 1);
      assert symbols[..k][1..] == symbols[1..][..k - 1] && symbols[k..] == symbols[1..][k - 1..];
    }
  }

  // --- No space inside a frame ends it ---

  predicate Brief(ws: seq<Window>) { forall w :: w in ws ==> w.nominal <= FRAME_TIMEOUT }

  lemma {:induction false} PatternBrief(symbols: seq<nat>, a: Alphabet)
    requires forall s :: 0 <= s < |a.codes| ==> Brief(a.codes[s])
    ensures Brief(Pattern(symbols, a))
  {
    if symbols != [] { PatternBrief(symbols[1..], a); }
  }

  predicate BriefFormat(f: Format) {
    && |f.head| <= 2 && (|f.head| == 2 ==> f.head[1].nominal <= FRAME_TIMEOUT) && Brief(f.tail)
    && forall s :: 0 <= s < |f.alphabet.codes| ==> Brief(f.alphabet.codes[s])
  }

  lemma FormatBrief(m: Message)
    requires IsPulse(m)
    ensures BriefFormat(FormatOf(m))
  {
    var codes := FormatOf(m).alphabet.codes;
    forall s | 0 <= s < |codes| ensures Brief(codes[s]) {
      assert forall i :: 0 <= i < |codes[s]| ==> codes[s][i].nominal <= FRAME_TIMEOUT;
    }
  }

  lemma PatternQuiet(f: Format, symbols: seq<nat>)
    requires BriefFormat(f)
    ensures Quiet(Nominal(FramePattern(f, symbols)))
  {
    PatternBrief(symbols, f.alphabet);
    var ws := FramePattern(f, symbols);
    forall j | 0 <= j < |ws| && j % 2 == 1 ensures ws[j].nominal <= FRAME_TIMEOUT {
      if j >= |f.head| { assert ws[j] in Pattern(symbols, f.alphabet) || ws[j] in f.tail; }
    }
  }

  lemma FrameIsPattern(m: Message)
    requires IsPulse(m)
    ensures Frame(m) == Nominal(FramePattern(FormatOf(m), SymbolsOf(m)))
  {
  }

  lemma PulseQuiet(m: Message)
    requires IsPulse(m)
    ensures Quiet(Frame(m))
  {
    FormatBrief(m);
    PatternQuiet(FormatOf(m), SymbolsOf(m));
    FrameIsPattern(m);
  }

  lemma ShortQuiet(rs: seq<Event>, t1: nat)
    requires ShortRuns(rs) && t1 <= 889
    ensures forall d :: d in Times(Scale(rs, t1)) ==> d <= FRAME_TIMEOUT
  {
    var ds := Times(Scale(rs, t1));
    forall j | 0 <= j < |rs| ensures ds[j] <= FRAME_TIMEOUT {
      assert rs[j].time == 1 || rs[j].time == 2 || rs[j].time == 3;
    }
  }

  lemma PhaseQuiet(us: seq<Event>, t1: nat)
    requires ShortRuns(Merge(us)) && t1 <= 889
    ensures forall d :: d in Capture(Scale(us, t1)) ==> d <= FRAME_TIMEOUT
  {
    CaptureScale(us, t1);
    assert ShortRuns(Trim(Merge(us)));
    ShortQuiet(Trim(Merge(us)), t1);
  }

  lemma RC5Quiet(d: uint32, n: uint8)
    requires 1 <= n
    ensures Quiet(Frame(RC5Message(d, n)))
  {
    OpenedRuns5(Bits(d, n), RC5Units(d, n));
    PhaseQuiet(RC5Units(d, n), 889);
    var ds := Frame(RC5Message(d, n));
    forall j | 0 <= j < |ds| ensures ds[j] <= FRAME_TIMEOUT { assert ds[j] in ds; }
  }

  lemma RC6Quiet(d: uint32, n: uint8)
    requires 1 <= n
    ensures Quiet(Frame(RC6Message(d, n)))
  {
    OpenedRuns6(RC6Bits(d, n), RC6Units(d, n));
    PhaseQuiet(RC6Units(d, n), 444);
    var ds, all := Capture(Scale(RC6Units(d, n), 444)), Frame(RC6Message(d, n));
    forall j | 0 <= j < |all| ensures all[j] <= FRAME_TIMEOUT {
      if j >= 2 { assert all[j] == ds[j - 2] && ds[j - 2] in ds; }
    }
  }

  lemma Samsung36Quiet(d: uint32, a: uint32)
    ensures Quiet(Samsung36Frame(a, d))
  {
    var ws := Samsung36Pattern(Bits(a, 16), Bits(d, 20));
    Samsung36Roomy(Bits(a, 16), Bits(d, 20));
    PatternBrief(Bits(a, 16), Samsung36Alphabet());
    PatternBrief(Bits(d, 20), Samsung36Alphabet());
    assert Brief(ws);
    assert Samsung36Frame(a, d) == Nominal(ws)[59 := ws[59].nominal + 68];
  }

  lemma FrameQuiet(m: Message)
    requires Supported(m)
    ensures Quiet(Frame(m))
  {
    match m {
      case RC5Message(d, n) => RC5Quiet(d, n);
      case RC6Message(d, n) => RC6Quiet(d, n);
      case Samsung36Message(d, a) => Samsung36Quiet(d, a);
      case _ => if IsPulse(m) { PulseQuiet(m); }
    }
  }

  // --- The frames of a message ---

  // Frames have an odd number of intervals: they end in a mark.
  lemma FrameOdd(m: Message)
    requires Supported(m) && !m.RC5Message? && !m.RC6Message?
    ensures |Frame(m)| % 2 == 1
  {
    if IsPulse(m) {
      PulseOdd(m);
    } else if m.Samsung36Message? {
      Samsung36Odd(m.data, m.address);
      assert Frame(m) == Samsung36Frame(m.address, m.data);
    } else {
      assert |Frame(m)| == if m.NECxMessage? then 5 else 3;
    }
  }

  lemma Samsung36Odd(d: uint32, a: uint32)
    ensures |Samsung36Frame(a, d)| == 77
  {
    Samsung36Roomy(Bits(a, 16), Bits(d, 20));
  }

  lemma PulseOdd(m: Message)
    requires Supported(m) && IsPulse(m)
    ensures |Frame(m)| % 2 == 1
  {
    FrameIsPattern(m);
    PayloadEven(m);
    HeadAndTail(m);
    PatternOdd(FormatOf(m), SymbolsOf(m));
  }

  lemma PatternOdd(f: Format, symbols: seq<nat>)
    requires |Pattern(symbols, f.alphabet)| % 2 == 0 && (|f.head| + |f.tail|) % 2 == 1
    ensures |FramePattern(f, symbols)| % 2 == 1
  {
  }

  predicate TwoWide(a: Alphabet) { forall s :: 0 <= s < |a.codes| ==> |a.codes[s]| == 2 }

  lemma {:induction false} TwoWidePattern(symbols: seq<nat>, a: Alphabet)
    requires TwoWide(a) && InBase(symbols, |a.codes|)
    ensures |Pattern(symbols, a)| == 2 * |symbols|
  {
    if symbols != [] { TwoWidePattern(symbols[1..], a); }
  }

  lemma AlphabetTwoWide(m: Message)
    requires IsPulse(m) && !m.DirecTVMessage?
    ensures TwoWide(FormatOf(m).alphabet) && InBase(SymbolsOf(m), |FormatOf(m).alphabet.codes|)
  {
  }

  lemma PayloadEven(m: Message)
    requires IsPulse(m)
    ensures |Pattern(SymbolsOf(m), FormatOf(m).alphabet)| % 2 == 0
  {
    if m.DirecTVMessage? {
      DirecTVPattern(SymbolsOf(m), m.first);
    } else {
      AlphabetTwoWide(m);
      TwoWidePattern(SymbolsOf(m), FormatOf(m).alphabet);
    }
  }

  lemma HeadAndTail(m: Message)
    requires IsPulse(m)
    ensures (|FormatOf(m).head| + |FormatOf(m).tail|) % 2 == 1
  {
  }

  function Ones(bits: seq<nat>): nat { if bits == [] then 0 else (if bits[0] == 1 then 1 else 0) + Ones(bits[1..]) }

  lemma TotalTwo(x: Event, y: Event)
    ensures Total([x, y]) == x.time + y.time
  {
    TotalOne(x);
    TotalOne(y);
    TotalConcat([x], [y]);
    assert [x, y] == [x] + [y];
  }

  lemma TotalThree(x: seq<Event>, y: seq<Event>, z: seq<Event>)
    ensures Total(x + y + z) == Total(x) + Total(y) + Total(z)
  {
    TotalConcat(x, y);
    TotalConcat(x + y, z);
  }

  lemma HeaderTotal(headMark: nat, headSpace: nat)
    requires headMark > 0 && headSpace > 0
    ensures Total(Header(headMark, headSpace)) == headMark + headSpace
  {
    TotalTwo(Event(MARK, headMark), Event(SPACE, headSpace));
    assert Header(headMark, headSpace) == [Event(MARK, headMark), Event(SPACE, headSpace)];
  }

  // The space behind each of the three frames of a Sony message.
  function SonyGap(d: uint32, n: uint8): nat { 600 + Remainder(45000, SonyBody(d, n)) }

  lemma {:induction false} SonyBitsTotal(bits: seq<nat>)
    ensures Total(BitEvents(bits, Timing(1200, 600, 600, 600))) == 1200 * |bits| + 600 * Ones(bits)
  {
    if bits != [] {
      var t, rest := Timing(1200, 600, 600, 600), bits[1..];
      var cell := t.Cell(bits[0]);
      SonyBitsTotal(rest);
      TotalTwo(cell[0], cell[1]);
      TotalConcat(cell, BitEvents(rest, t));
    }
  }

  lemma SonyTotal(d: uint32, n: uint8)
    ensures Total(SonyBody(d, n)) == 3000 + 1200 * n + 600 * Ones(Bits(d, n))
  {
    var events := BitEvents(Bits(d, n), Timing(1200, 600, 600, 600));
    SonyGeneric(d, n);
    assert SonyBody(d, n) == Header(2400, 600) + events + [];
    TotalThree(Header(2400, 600), events, []);
    HeaderTotal(2400, 600);
    SonyBitsTotal(Bits(d, n));
  }

  lemma SonyGapValue(d: uint32, n: uint8)
    requires Supported(SonyMessage(d, n))
    ensures SonyGap(d, n) == 42600 - 1200 * n - 600 * Ones(Bits(d, n))
  {
    SonyTotal(d, n);
    OnesBound(Bits(d, n));
  }

  lemma {:induction false} OnesBound(bits: seq<nat>)
    ensures Ones(bits) <= |bits|
  {
    if bits != [] { OnesBound(bits[1..]); }
  }

  lemma SonyBurst(d: uint32, n: uint8)
    requires Supported(SonyMessage(d, n))
    ensures Burst(SonyOnce(d, n), Frame(SonyMessage(d, n)), SonyGap(d, n))
  {
    var frame := Frame(SonyMessage(d, n));
    FrameOdd(SonyMessage(d, n));
    PulseBurst(frame, 600);
    BurstLonger(SonyBody(d, n), frame, 600, Remainder(45000, SonyBody(d, n)));
  }

  // The messages that one call of a send method puts into frames of their own.
  function Sent(m: Message): seq<Message> {
    match m
    case SonyMessage(_, _) => [m, m, m]
    case JVCMessage(d, true) => [m, JVCMessage(d, false)]
    case _ => [m]
  }

  function FramesOf(ms: seq<Message>): (fs: seq<seq<nat>>)
    ensures |fs| == |ms| && forall i :: 0 <= i < |ms| ==> fs[i] == Frame(ms[i])
  {
    seq(|ms|, i requires 0 <= i < |ms| => Frame(ms[i]))
  }

  // The only messages whose own frames run into each other: 20 bits for Sony with 18 ones or more.
  predicate Separated(m: Message) {
    match m
    case SonyMessage(d, n) => 2 * n + Ones(Bits(d, n)) < 58
    case _ => true
  }

  // The silence behind the one frame of a message, as the code emits it: in one space or two.
  function SilenceBehind(m: Message, longLeadOut: bool): (silence: seq<nat>)
    ensures 1 <= |silence| <= 2
  {
    var ds := Alternate(Frame(m), MARK);
    match m
    case NECMessage(d) => if d == REPEAT_CODE then [572, 97000] else [Remainder(108000, ds)]
    case RC5Message(d, n) => [RC5Gap(d, n)]
    case RC6Message(d, n) => [RC6Gap(d, n)]
    case PanasonicOldMessage(_) => [833 * 3]
    case JVCMessage(_, _) => [525 * 3, 525 * 45]
    case NECxMessage(d) => if d == REPEAT_CODE then [412, 98000] else [564 * 3]
    case Samsung36Message(_, _) => [118 * 500]
    case GICableMessage(d) => if d == REPEAT_CODE then [220, 87000] else [490 * 9, 37 * 490]
    case DirecTVMessage(_, _) => [if longLeadOut then 50 * 600 else 15 * 600]
    case RCMMMessage(_, _) => [Remainder(27778, ds)]
    case CYKMMessage(_) => [650 * 3, 10000]
    case SonyMessage(d, n) => [SonyGap(d, n)]
  }

  function GapBehind(m: Message, longLeadOut: bool): nat { Sum(SilenceBehind(m, longLeadOut)) }

  lemma SingleBurst(m: Message, longLeadOut: bool)
    requires Supported(m) && Sent(m) == [m]
    ensures Burst(WaveOf(m, longLeadOut), Frame(m), GapBehind(m, longLeadOut))
  {
    match m {
      case RC5Message(d, n) => RC5Burst(d, n);
      case RC6Message(d, n) => RC6Burst(d, n);
      case Samsung36Message(d, a) => Samsung36Burst(d, a);
      case _ => { FrameOdd(m); PlainBurst(m, longLeadOut); }
    }
  }

  lemma PlainWave(m: Message, longLeadOut: bool)
    requires !m.SonyMessage? && !m.RC5Message? && !m.RC6Message? && !m.Samsung36Message? && !m.JVCMessage?
    ensures WaveOf(m, longLeadOut) == PulseWave(Frame(m), SilenceBehind(m, longLeadOut))
  {
  }

  lemma PlainBurst(m: Message, longLeadOut: bool)
    requires Sent(m) == [m] && |Frame(m)| % 2 == 1 && !m.RC5Message? && !m.RC6Message? && !m.Samsung36Message?
    ensures Burst(WaveOf(m, longLeadOut), Frame(m), GapBehind(m, longLeadOut))
  {
    if m.JVCMessage? {
      assert WaveOf(m, longLeadOut) == JVCWave(m.data, false) + [] == JVCWave(m.data, false);
    } else {
      PlainWave(m, longLeadOut);
    }
    WaveBurst(Frame(m), SilenceBehind(m, longLeadOut));
  }

  lemma JVCFrames(d: uint32)
    ensures Frames(Merge(JVCWave(d, true) + JVCWave(d, false)), [])
            == [Frame(JVCMessage(d, true)), Frame(JVCMessage(d, false))]
  {
    var headed, repeated := JVCMessage(d, true), JVCMessage(d, false);
    FrameOdd(headed);
    FrameOdd(repeated);
    FrameQuiet(headed);
    FrameQuiet(repeated);
    WaveTwo(Frame(headed), 525 * 3, 525 * 45);
    WaveTwo(Frame(repeated), 525 * 3, 525 * 45);
    TwoFrames(JVCWave(d, true), Frame(headed), 525 * 48, JVCWave(d, false), Frame(repeated), 525 * 48);
  }

  lemma ThreeCopies(es: seq<Event>)
    ensures Copies(es, 3) == es + (es + es)
  {
    assert Copies(es, 1) == [] + es == es;
    assert Copies(es, 3) == Copies(es, 2) + es == (Copies(es, 1) + es) + es;
    Assoc(es, es, es);
  }

  // The three frames of a message as one.
  function JoinedFrame(d: uint32, n: uint8): seq<nat> {
    var frame, gap := Frame(SonyMessage(d, n)), [SonyGap(d, n)];
    frame + gap + (frame + gap + frame)
  }

  lemma SonyFrames(d: uint32, n: uint8)
    requires Supported(SonyMessage(d, n))
    ensures var frame, frames := Frame(SonyMessage(d, n)), Frames(Merge(Copies(SonyOnce(d, n), 3)), []);
            frames == if SonyGap(d, n) > FRAME_TIMEOUT then [frame, frame, frame] else [JoinedFrame(d, n)]
  {
    var once, frame, gap := SonyOnce(d, n), Frame(SonyMessage(d, n)), SonyGap(d, n);
    SonyBurst(d, n);
    FrameOdd(SonyMessage(d, n));
    FrameQuiet(SonyMessage(d, n));
    ThreeCopies(once);
    var twice := frame + [gap] + frame;
    BurstsJoin(once, frame, gap, once, frame, gap);
    BurstsJoin(once, frame, gap, once + once, twice, gap);
    if gap > FRAME_TIMEOUT {
      TwoFrames(once, frame, gap, once, frame, gap);
      BurstsApart(once, frame, gap, once + once, twice, gap);
      FramesBurst(once, frame, gap, Merge(once + once));
    } else {
      QuietJoin(frame, gap, frame);
      QuietJoin(frame, gap, twice);
      OneFrame(once + (once + once), frame + [gap] + twice, gap);
    }
  }

  // Three frames in one: more intervals than a receiver has room for.
  lemma JoinedTooLong(d: uint32, n: uint8)
    requires Supported(SonyMessage(d, n)) && SonyGap(d, n) <= FRAME_TIMEOUT
    ensures n == 20 && |JoinedFrame(d, n)| == 125
  {
    SonyGapValue(d, n);
    OnesBound(Bits(d, n));
    assert n == 20;
    FrameIsPattern(SonyMessage(d, n));
    TwoWidePattern(Bits(d, n), SonyFormat().alphabet);
  }

  lemma JoinedOpening(d: uint32, n: uint8)
    requires Supported(SonyMessage(d, n))
    ensures |JoinedFrame(d, n)| >= 2 && JoinedFrame(d, n)[1] == 600
  {
    FrameIsPattern(SonyMessage(d, n));
    TwoWidePattern(Bits(d, n), SonyFormat().alphabet);
  }

  lemma OnesAppend(bits: seq<nat>, b: nat)
    ensures Ones(bits + [b]) == Ones(bits) + if b == 1 then 1 else 0
  {
    if bits != [] {
      OnesAppend(bits[1..], b);
      assert (bits + [b])[1..] == bits[1..] + [b];
    }
  }

  lemma {:induction false} AllOnes(n: nat)
    ensures Ones(Bits(Pow(2, n) - 1, n)) == n
  {
    if n > 0 {
      AllOnes(n - 1);
      OnesAppend(Bits(Pow(2, n - 1) - 1, n - 1), 1);
    }
  }

  // Sony's 20 bits, all of them ones, leave only 6600us between the frames.
  lemma JoinedExample()
    ensures Supported(SonyMessage(0xF_FFFF, 20)) && !Separated(SonyMessage(0xF_FFFF, 20))
  {
    AllOnes(20);
    Pow8();
    Pow12();
    PowAdd(2, 8, 12);
    assert Pow(2, 20) - 1 == 0xF_FFFF;
  }

  lemma QuietJoin(ds: seq<nat>, gap: nat, ts: seq<nat>)
    requires Quiet(ds) && Quiet(ts) && gap <= FRAME_TIMEOUT && |ds| % 2 == 1
    ensures Quiet(ds + [gap] + ts)
  {
    var all := ds + [gap] + ts;
    forall j | 0 <= j < |all| && j % 2 == 1 ensures all[j] <= FRAME_TIMEOUT {
      if j > |ds| { assert all[j] == ts[j - |ds| - 1]; }
    }
  }

  lemma SentSupported(m: Message, i: nat)
    requires Supported(m) && i < |Sent(m)|
    ensures Supported(Sent(m)[i])
  {
  }
}
