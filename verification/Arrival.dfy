// A message from the sender's wire through the interrupt handler and the hand-over to the decoder.
module Arrival {
  import opened Digits
  import opened Pulse
  import opened Wire
  import opened PhaseCode
  import opened PhaseRuns
  import opened Protocols
  import opened Delivery
  import opened Waves
  import opened Transmission
  import opened Succession
  import opened Chain
  import opened RivalBuffers
  import opened Receiver

  // --- Every frame ends in a mark and fits the receiver's buffer ---

  lemma TrimmedOdd(es: seq<Event>)
    requires es != [] && es[0].level == MARK && TwoLevel(es)
    ensures |Capture(es)| % 2 == 1
  {
    MergeAlternates(es);
    var m := Merge(es);
    var t := Trim(m);
    AlternatingRuns(t);
    if |m| > 1 { assert m[|m| - 2 + 1].level == Opposite(m[|m| - 2].level); }
    assert t[|t| - 1].level == MARK;
    AlternateAt(Times(t), MARK, |t| - 1);
  }

  lemma UnitsOdd(k: Kind, us: seq<Event>, opening: seq<Event>, bits: seq<nat>)
    requires us == opening + PhaseUnits(k, bits, 0) && opening != [] && opening[0].level == MARK && TwoLevel(opening)
    ensures |Capture(Scale(us, T1(k)))| % 2 == 1
  {
    UnitsTwoLevel(k, bits);
    ScaleTwoLevel(us, T1(k));
    TrimmedOdd(Scale(us, T1(k)));
  }

  lemma RC5Odd(d: uint32, n: uint8)
    ensures |Frame(RC5Message(d, n))| % 2 == 1
  {
    UnitsOdd(RC5Code, RC5Units(d, n), [Event(MARK, 1)], Bits(d, n));
  }

  lemma RC6Odd(d: uint32, n: uint8)
    ensures |Frame(RC6Message(d, n))| % 2 == 1
  {
    var ds := Capture(Scale(RC6Units(d, n), 444));
    UnitsOdd(RC6Code, RC6Units(d, n), [Event(MARK, 1), Event(SPACE, 1)], RC6Bits(d, n));
    HeaderFits(2666, 889, ds);
    assert Frame(RC6Message(d, n)) == [2666, 889] + ds;
  }

  lemma PhaseFits(m: Message)
    requires Supported(m) && (m.RC5Message? || m.RC6Message?)
    ensures |Frame(m)| % 2 == 1 && |Frame(m)| <= 98
  {
    FrameEntries(m);
    if m.RC5Message? {
      RC5Odd(m.data, m.nbits);
      assert |Bits(m.data, m.nbits)| <= 32;
    } else {
      RC6Odd(m.data, m.nbits);
    }
  }

  lemma HeaderFits(x: nat, y: nat, ds: seq<nat>)
    requires |ds| % 2 == 1
    ensures |[x, y] + ds| % 2 == 1
  {
  }

  lemma PulseFits(m: Message)
    requires Supported(m) && IsPulse(m)
    ensures |Frame(m)| <= 98
  {
    var f, symbols := FormatOf(m), SymbolsOf(m);
    FrameIsPattern(m);
    assert |f.head| <= 2 && |f.tail| <= 1 && |symbols| <= 32;
    if m.DirecTVMessage? {
      DirecTVPattern(symbols, m.first);
    } else {
      AlphabetTwoWide(m);
      TwoWidePattern(symbols, f.alphabet);
    }
  }

  lemma ShortFits(m: Message)
    requires Supported(m) && !IsPulse(m) && !m.RC5Message? && !m.RC6Message? && !m.Samsung36Message?
    ensures |Frame(m)| <= 5
  {
  }

  lemma OthersFit(m: Message)
    requires Supported(m) && !m.RC5Message? && !m.RC6Message? && !m.Samsung36Message?
    ensures |Frame(m)| % 2 == 1 && |Frame(m)| <= 98
  {
    FrameOdd(m);
    if IsPulse(m) { PulseFits(m); } else { ShortFits(m); }
  }

  lemma FrameFits(m: Message)
    requires Supported(m)
    ensures |Frame(m)| % 2 == 1 && |Frame(m)| <= 98
  {
    if m.RC5Message? || m.RC6Message? {
      PhaseFits(m);
    } else if m.Samsung36Message? {
      Samsung36Odd(m.data, m.address);
    } else {
      OthersFit(m);
    }
  }

  // --- From the edges of the input signal to the decoded message ---

  // ds is a frame as the demodulator puts it out. It lengthens every mark by the excess, at the expense
  // of the space behind it; without that each interval is within ten percent of what was sent.
  predicate Heard(m: Message, ds: seq<nat>, timeout: uint16, excess: uint16) { HeardAs(Frame(m), ds, timeout, excess) }

  predicate HeardAs(frame: seq<nat>, ds: seq<nat>, timeout: uint16, excess: uint16) {
    && Recordable(ds, 1, timeout) && |ds| == |frame|
    && (forall j :: 0 <= j < |ds| ==>
          var sent: int := if j % 2 == 0 then ds[j] - excess else ds[j] + excess;
          0 <= sent < 0x1_0000 && Near(sent, frame[j]))
  }

  // The demodulator and nothing else.
  predicate Demodulated(frame: seq<nat>, ds: seq<nat>, excess: uint16) {
    |ds| == |frame| && forall j :: 0 <= j < |ds| ==> frame[j] == if j % 2 == 0 then ds[j] - excess else ds[j] + excess
  }

  // The interrupt handler has recorded the gap and the frame.
  lemma FrameRecorded(s: Shared, m: Message, start: uint32, ds: seq<nat>, excess: uint16)
    requires Supported(m) && Idle(s) && Heard(m, ds, s.frameTimeout, excess)
    ensures var t := Run(s, Signal(start, ds));
            && t.phase == RUNNING && t.recvLength % 2 == 0 && !t.didAutoResume && t.frameTimeout == s.frameTimeout
            && t.Recorded() != [] && t.Recorded()[1..] == ds
  {
    HeardFits(m, ds, s.frameTimeout, excess);
    RecordSignal(s, start, ds);
  }

  lemma HeardFits(m: Message, ds: seq<nat>, timeout: uint16, excess: uint16)
    requires Supported(m) && Heard(m, ds, timeout, excess)
    ensures |ds| % 2 == 1 && 1 + |ds| < RECV_BUF_LENGTH && Recordable(ds, 1, timeout)
  {
    FrameFits(m);
  }

  // Where nothing wraps, a mark loses the excess and a space gains it.
  lemma AdjustUndoes(v: uint16, i: nat, excess: uint16)
    ensures var sent: int := if i % 2 == 1 then v - excess else v + excess;
            0 <= sent < 0x1_0000 ==> Adjust(v, i, 1, excess) == sent
  {
  }

  lemma AdjustedNear(sent: seq<nat>, frame: seq<uint16>, timeout: uint16, excess: uint16)
    requires |frame| >= 1 && HeardAs(sent, frame[1..], timeout, excess)
    ensures AllNear(AdjustAll(frame, 1, excess)[1..], sent)
  {
    var entries := AdjustAll(frame, 1, excess)[1..];
    forall j | 0 <= j < |entries| ensures Near(entries[j], sent[j]) {
      assert entries[j] == Adjust(frame[1..][j], j + 1, 1, excess);
      AdjustUndoes(frame[1..][j], j + 1, excess);
    }
  }

  lemma DecodesAdjusted(m: Message, frame: seq<uint16>, timeout: uint16, excess: uint16)
    requires Supported(m) && |frame| >= 1 && Heard(m, frame[1..], timeout, excess)
    ensures DecodeChain(AdjustAll(frame, 1, excess)) == Some(Expected(m))
  {
    AdjustedNear(Frame(m), frame, timeout, excess);
    ChainDelivers(m, AdjustAll(frame, 1, excess));
  }

  // The main program asks for results when the input has been silent for long enough.
  lemma ArrivesWhenAsked(s: Shared, m: Message, start: uint32, ds: seq<nat>, now: uint32, excess: uint16)
    requires Supported(m) && Idle(s) && Heard(m, ds, s.frameTimeout, excess)
    requires Elapsed(Run(s, Signal(start, ds)), now) > s.frameTimeout
    ensures var r := GetResults(Run(s, Signal(start, ds)), now, true, excess);
            r.1 && r.0.Fits() && DecodeChain(r.0.Decoding()) == Some(Expected(m))
  {
    var t := Run(s, Signal(start, ds));
    FrameRecorded(s, m, start, ds, excess);
    CompleteHolds(t);
    FetchHeld(Complete(t), t.Recorded(), 1, excess);
    DecodesAdjusted(m, t.Recorded(), s.frameTimeout, excess);
  }

  // Where nothing but the demodulator comes in between, the decoder gets the intervals that were sent.
  lemma ArrivesExactly(s: Shared, m: Message, start: uint32, ds: seq<nat>, now: uint32, excess: uint16)
    requires Supported(m) && Idle(s) && Recordable(ds, 1, s.frameTimeout) && Demodulated(Frame(m), ds, excess)
    requires Elapsed(Run(s, Signal(start, ds)), now) > s.frameTimeout
    ensures var r := GetResults(Run(s, Signal(start, ds)), now, true, excess);
            && r.1 && r.0.Fits() && |r.0.Decoding()| == 1 + |Frame(m)| && r.0.Decoding()[1..] == Frame(m)
            && DecodeChain(r.0.Decoding()) == Some(Expected(m))
  {
    var t := Run(s, Signal(start, ds));
    DemodulatedIsHeard(m, ds, s.frameTimeout, excess);
    FrameRecorded(s, m, start, ds, excess);
    FoundIsDue(t, now, true, excess);
    UndoesAll(Frame(m), t.Recorded(), excess);
    DecodesAdjusted(m, t.Recorded(), s.frameTimeout, excess);
  }

  lemma UndoesAll(sent: seq<nat>, frame: seq<uint16>, excess: uint16)
    requires |frame| >= 1 && Demodulated(sent, frame[1..], excess) && forall j :: 0 <= j < |sent| ==> sent[j] < 0x1_0000
    ensures AdjustAll(frame, 1, excess)[1..] == sent
  {
    var entries := AdjustAll(frame, 1, excess)[1..];
    forall j | 0 <= j < |sent| ensures entries[j] == sent[j] {
      assert entries[j] == Adjust(frame[1..][j], j + 1, 1, excess);
      AdjustUndoes(frame[1..][j], j + 1, excess);
    }
  }

  lemma DemodulatedIsHeard(m: Message, ds: seq<nat>, timeout: uint16, excess: uint16)
    requires Supported(m) && Recordable(ds, 1, timeout) && Demodulated(Frame(m), ds, excess)
    ensures Heard(m, ds, timeout, excess) && forall j :: 0 <= j < |ds| ==> Frame(m)[j] < 0x1_0000
  {
    FrameQuiet(m);
  }

  // The next mark comes first and ends the frame; whatever the input does before the main program
  // asks, it gets the message.
  lemma ArrivesAfterNextMark(s: Shared, m: Message, start: uint32, ds: seq<nat>, late: uint32,
                             steps: seq<Step>, now: uint32, high: bool, excess: uint16)
    requires Supported(m) && Idle(s) && Heard(m, ds, s.frameTimeout, excess) && AllWaiting(steps)
    requires Elapsed(Run(s, Signal(start, ds)), late) > s.frameTimeout
    ensures var ended := Edge(Run(s, Signal(start, ds)), late, false);
            Inv(ended)
            && var r := GetResults(Run(ended, steps), now, high, excess);
            r.1 && r.0.Fits() && DecodeChain(r.0.Decoding()) == Some(Expected(m))
  {
    var t := Run(s, Signal(start, ds));
    FrameRecorded(s, m, start, ds, excess);
    CompleteHolds(t);
    var ended := Complete(t);
    HeldRun(ended, t.Recorded(), steps);
    FetchHeld(Run(ended, steps), t.Recorded(), 1, excess);
    DecodesAdjusted(m, t.Recorded(), s.frameTimeout, excess);
  }

  // --- One frame behind the other ---

  // A frame of intervals ds, and what the main program does in the gap behind it: getResults and then
  // enableIRIn. All times are counted from the end of the frame.
  datatype Round = Round(ds: seq<nat>, asked: nat, enabled: nat, gap: nat)

  // The program asks when the frame has timed out and is ready again before the next mark.
  predicate InTime(f: Round, timeout: uint16) { timeout < f.asked <= f.enabled < f.gap < 0x1_0000_0000 }

  // What the program does behind one frame: the receiver afterwards, and what was decoded.
  function Turn(s: Shared, f: Round, excess: uint16): (r: (Shared, Option<Decoded>))
    requires Inv(s)
    ensures Inv(r.0)
  {
    var asked, enabled := Results(At(s.timer, f.asked), true, excess), Enable(At(s.timer, f.enabled));
    TakeKeeps(s, asked);
    TakeKeeps(Take(s, asked), enabled);
    var found := GetResults(s, At(s.timer, f.asked), true, excess);
    (Take(found.0, enabled), if found.1 then DecodeChain(found.0.Decoding()) else None)
  }

  // What the program decodes, frame by frame.
  function Listen(s: Shared, start: uint32, fs: seq<Round>, excess: uint16): seq<Option<Decoded>>
    requires Inv(s)
    decreases |fs|
  {
    if fs == [] then []
    else
      var t := Run(s, Signal(start, fs[0].ds));
      var r := Turn(t, fs[0], excess);
      [r.1] + Listen(r.0, At(t.timer, fs[0].gap), fs[1..], excess)
  }

  predicate AllHeard(ms: seq<Message>, fs: seq<Round>, timeout: uint16, excess: uint16) {
    && |fs| == |ms|
    && (forall i :: 0 <= i < |fs| ==> InTime(fs[i], timeout) && Heard(ms[i], fs[i].ds, timeout, excess))
  }

  function Expectations(ms: seq<Message>): seq<Option<Decoded>> {
    seq(|ms|, i requires 0 <= i < |ms| => Some(Expected(ms[i])))
  }

  lemma ExpectFirst(ms: seq<Message>)
    requires ms != []
    ensures Expectations(ms) == [Some(Expected(ms[0]))] + Expectations(ms[1..])
  {
  }

  lemma IdleAgain(s: Shared, asked: uint32, enabled: uint32, excess: uint16)
    requires Inv(s) && TimedOut(s, asked, true) && !s.newDataAvailable
    ensures var t := EnableIRIn(GetResults(s, asked, true, excess).0, enabled);
            Idle(t) && t.frameTimeout == s.frameTimeout
  {
    TakeKeeps(s, Results(asked, true, excess));
    TakeKeeps(GetResults(s, asked, true, excess).0, Enable(enabled));
  }

  lemma TurnDelivers(s: Shared, start: uint32, m: Message, f: Round, excess: uint16)
    requires Idle(s) && Supported(m) && InTime(f, s.frameTimeout) && Heard(m, f.ds, s.frameTimeout, excess)
    ensures var r := Turn(Run(s, Signal(start, f.ds)), f, excess);
            r.1 == Some(Expected(m)) && Idle(r.0) && r.0.frameTimeout == s.frameTimeout
  {
    var t := Run(s, Signal(start, f.ds));
    FrameRecorded(s, m, start, f.ds, excess);
    ElapsedAt(t, f.asked);
    ArrivesWhenAsked(s, m, start, f.ds, At(t.timer, f.asked), excess);
    IdleAgain(t, At(t.timer, f.asked), At(t.timer, f.enabled), excess);
  }

  // A receiver that waits for a mark gets every frame of any number, if the program asks for each in
  // the gap behind it.
  lemma {:induction false} ArriveInTurn(s: Shared, start: uint32, ms: seq<Message>, fs: seq<Round>, excess: uint16)
    requires Idle(s) && AllHeard(ms, fs, s.frameTimeout, excess)
    requires forall i :: 0 <= i < |ms| ==> Supported(ms[i])
    ensures Listen(s, start, fs, excess) == Expectations(ms)
    decreases |fs|
  {
    if fs != [] {
      var t := Run(s, Signal(start, fs[0].ds));
      TurnDelivers(s, start, ms[0], fs[0], excess);
      ArriveInTurn(Turn(t, fs[0], excess).0, At(t.timer, fs[0].gap), ms[1..], fs[1..], excess);
      ExpectFirst(ms);
    }
  }

  // From the calls of the send methods to what the program decodes: whatever is kept apart on the
  // wire arrives, message by message and with every repeated frame.
  lemma SentArriveInTurn(s: Shared, start: uint32, cs: seq<Call>, fs: seq<Round>, excess: uint16)
    requires Idle(s) && AllSupported(cs) && KeptApart(cs)
    requires var wire := Frames(Merge(WavesOf(cs)), []);
             |fs| == |wire| && forall i :: 0 <= i < |fs| ==>
                 InTime(fs[i], s.frameTimeout) && HeardAs(wire[i], fs[i].ds, s.frameTimeout, excess)
    ensures Listen(s, start, fs, excess) == Expectations(AllSent(cs))
  {
    var ms := AllSent(cs);
    SendsOnTheWire(cs);
    AllSentSupported(cs);
    ArriveInTurn(s, start, ms, fs, excess);
  }

  lemma {:induction false} AllSentSupported(cs: seq<Call>)
    requires AllSupported(cs)
    ensures forall i :: 0 <= i < |AllSent(cs)| ==> Supported(AllSent(cs)[i])
  {
    if cs != [] {
      var own, behind := Sent(cs[0].message), AllSent(cs[1..]);
      AllSentSupported(cs[1..]);
      forall i | 0 <= i < |own + behind| ensures Supported((own + behind)[i]) {
        if i < |own| { SentSupported(cs[0].message, i); }
      }
    }
  }

  // --- The frames of a Sony message that runs into itself ---

  lemma {:induction false} ChainRejects(p: uint8, buf: seq<uint16>)
    requires forall q: uint8 :: p <= q <= 12 ==> DecodeBy(q, buf).None?
    ensures ChainFrom(p, buf) == None
    decreases 13 - p
  {
    if p <= 12 { ChainRejects(p + 1, buf); }
  }

  // No decoder takes a full buffer that begins like a Sony frame.
  lemma FullBufferRejected(buf: seq<uint16>)
    requires |buf| == RECV_BUF_LENGTH && Near(buf[2], 600)
    ensures DecodeChain(buf) == None
  {
    forall q: uint8 | 1 <= q <= 12 ensures DecodeBy(q, buf).None? {
      if DecodeBy(q, buf).Some? {
        AcceptedShape(q, buf);
        PhaseIntervals(RC5Code, buf, 1, [MARK]);
      }
    }
    ChainRejects(1, buf);
  }

  lemma FullBuffer(s: Shared, start: uint32, ds: seq<nat>, steps: seq<Step>,
                   now: uint32, high: bool, excess: uint16) returns (frame: seq<uint16>)
    requires Idle(s) && AllWaiting(steps) && |ds| == RECV_BUF_LENGTH - 1 && Recordable(ds, 1, s.frameTimeout)
    ensures |frame| == RECV_BUF_LENGTH && frame[1..] == ds
    ensures var r := GetResults(Run(Run(s, Signal(start, ds)), steps), now, high, excess);
            r.1 && r.0.Fits() && r.0.Decoding() == AdjustAll(frame, 1, excess)
  {
    frame := [Elapsed(s, start) % 0x1_0000] + ds;
    LongSignalCut(s, start, ds);
    HeldRun(Run(s, Signal(start, ds)), frame, steps);
    FetchHeld(Run(Run(s, Signal(start, ds)), steps), frame, 1, excess);
  }

  // The receiver's buffer is full before the three frames are over: whatever else happens before the
  // program asks, it gets a frame that no decoder accepts.
  lemma JoinedIsRejected(s: Shared, d: uint32, n: uint8, start: uint32, ds: seq<nat>, steps: seq<Step>,
                         now: uint32, high: bool, excess: uint16)
    requires Supported(SonyMessage(d, n)) && !Separated(SonyMessage(d, n)) && Idle(s) && AllWaiting(steps)
    requires HeardAs(JoinedFrame(d, n), ds, s.frameTimeout, excess)
    ensures |ds| == 125
    ensures var r := GetResults(Run(Run(s, Signal(start, ds[..99])), steps), now, high, excess);
            r.1 && r.0.Fits() && DecodeChain(r.0.Decoding()) == None
  {
    JoinedShape(d, n);
    var frame := FullBuffer(s, start, ds[..99], steps, now, high, excess);
    assert frame[2] == frame[1..][1] == ds[1];
    SecondHeard(JoinedFrame(d, n), ds, frame, s.frameTimeout, excess);
    FullBufferRejected(AdjustAll(frame, 1, excess));
  }

  lemma SecondHeard(sent: seq<nat>, ds: seq<nat>, frame: seq<uint16>, timeout: uint16, excess: uint16)
    requires |sent| > 1 && HeardAs(sent, ds, timeout, excess) && |frame| > 2 && frame[2] == ds[1]
    ensures Near(AdjustAll(frame, 1, excess)[2], sent[1])
  {
    var k := 1;
    AdjustUndoes(frame[2], k + 1, excess);
    assert k % 2 == 1 && Near(frame[2] + excess, sent[k]);
  }

  lemma JoinedShape(d: uint32, n: uint8)
    requires Supported(SonyMessage(d, n)) && !Separated(SonyMessage(d, n))
    ensures |JoinedFrame(d, n)| == 125 && JoinedFrame(d, n)[1] == 600
  {
    SonyGapValue(d, n);
    JoinedTooLong(d, n);
    JoinedOpening(d, n);
  }
}
