// The pin-change receiver: an interrupt handler fills a buffer that it hands over to the decoder.
// All steps are total functions on the shared state, so that any interleaving of the interrupt
// handler with the main program is a list of steps.
module Receiver {
  import opened Digits

  const RECV_BUF_LENGTH := 100

  // READY waits for a mark; RUNNING records; FINISHED ignores the input.
  datatype Phase = READY | RUNNING | FINISHED

  // external is the decoder's own buffer. Without one the decoder reads the receiver's.
  datatype Shared = Shared(
    recv: seq<uint16>, recvLength: uint8,
    external: Option<seq<uint16>>, decodeLength: uint8,
    decoderWantsData: bool, newDataAvailable: bool, didAutoResume: bool,
    phase: Phase, timer: uint32, frameTimeout: uint16, didIROut: bool)
  {
    predicate Fits() {
      && |recv| == RECV_BUF_LENGTH && recvLength <= RECV_BUF_LENGTH && decodeLength <= RECV_BUF_LENGTH
      && (external.Some? ==> |external.value| == RECV_BUF_LENGTH)
    }

    function DecodeBuffer(): seq<uint16> { if external.Some? then external.value else recv }

    // What the decoder gets to see.
    function Decoding(): seq<uint16>
      requires Fits()
    {
      DecodeBuffer()[..decodeLength]
    }

    // What has been recorded.
    function Recorded(): seq<uint16>
      requires Fits()
    {
      recv[..recvLength]
    }
  }

  // What every step keeps.
  predicate Inv(s: Shared) {
    && s.Fits()
    && (s.phase == READY ==> s.recvLength == 0)
    && (s.phase == RUNNING ==> 0 < s.recvLength < RECV_BUF_LENGTH)
    && (s.newDataAvailable && !s.didAutoResume ==> s.phase == FINISHED)
    && (s.didAutoResume ==> s.external.Some? && s.newDataAvailable && !s.decoderWantsData)
  }

  // init() with a buffer of any content.
  predicate Initial(s: Shared) {
    s.Fits() && !s.decoderWantsData && s.external.None? && !s.newDataAvailable && !s.didAutoResume
        && s.phase == FINISHED
  }

  function Overwrite(b: seq<uint16>, front: seq<uint16>): (r: seq<uint16>)
    requires |front| <= |b|
    ensures |r| == |b| && r[..|front|] == front && r[|front|..] == b[|front|..]
  {
    front + b[|front|..]
  }

  // IRLib_IRrecvComplete: the frame is over. With a buffer of its own and a decoder that waits for
  // data, the receiver copies the frame and carries on.
  function Complete(s: Shared): Shared
    requires s.Fits()
  {
    if s.external.Some? && s.decoderWantsData
    then s.(external := Some(Overwrite(s.external.value, s.Recorded())), decodeLength := s.recvLength,
            decoderWantsData := false, newDataAvailable := true, didAutoResume := true, recvLength := 0, phase := READY)
    else s.(newDataAvailable := true, phase := FINISHED)
  }

  function Elapsed(s: Shared, now: uint32): uint32 { (now - s.timer) % 0x1_0000_0000 }

  // One more entry; a full buffer ends the frame.
  function Record(s: Shared, now: uint32): Shared
    requires s.Fits() && s.recvLength < RECV_BUF_LENGTH
  {
    var t := s.(recv := s.recv[s.recvLength := Elapsed(s, now) % 0x1_0000], recvLength := s.recvLength + 1,
                timer := now, phase := RUNNING);
    if t.recvLength >= RECV_BUF_LENGTH then Complete(t) else t
  }

  // The interrupt handler: the input changed at time now and is high (a space begins) or low.
  function Edge(s: Shared, now: uint32, high: bool): Shared
    requires Inv(s)
  {
    if s.phase == FINISHED then s
    else if s.phase == RUNNING && s.recvLength % 2 == 0 && Elapsed(s, now) > s.frameTimeout then Complete(s)
    else if s.phase == READY && high then s
    else Record(s, now)
  }

  // One entry as getResults passes it on: ticks to microseconds, and marks shortened by the excess
  // that the demodulator adds to them at the expense of the spaces.
  function Adjust(v: uint16, i: nat, tick: uint16, excess: uint16): uint16 {
    var x: int := excess;
    (v * tick + if i % 2 == 1 then -x else x) % 0x1_0000
  }

  // Marks, at odd indices, have lost the excess and spaces have gained it, in 16 bits.
  predicate Corrected(recorded: seq<uint16>, passed: seq<uint16>, tick: uint16, excess: uint16) {
    && |passed| == |recorded|
    && (forall i :: 0 <= i < |recorded| ==>
          if i % 2 == 1 then (passed[i] + excess) % 0x1_0000 == recorded[i] * tick % 0x1_0000
          else passed[i] == (recorded[i] * tick + excess) % 0x1_0000)
  }

  lemma AdjustCorrects(v: uint16, i: nat, tick: uint16, excess: uint16)
    ensures var r: int := Adjust(v, i, tick, excess);
            if i % 2 == 1 then (r + excess) % 0x1_0000 == v * tick % 0x1_0000
            else r == (v * tick + excess) % 0x1_0000
  {
    var x: int, length: int := excess, v * tick;
    if i % 2 == 1 {
      assert Adjust(v, i, tick, excess) == (length - x) % 0x1_0000;
      TakenOff(length, x);
    } else {
      assert Adjust(v, i, tick, excess) == (length + x) % 0x1_0000;
    }
  }

  lemma TakenOff(x: int, excess: int)
    ensures ((x - excess) % 0x1_0000 + excess) % 0x1_0000 == x % 0x1_0000
  {
  }

  function AdjustAll(b: seq<uint16>, tick: uint16, excess: uint16): (r: seq<uint16>)
    ensures |r| == |b| && forall i :: 0 <= i < |b| ==> r[i] == Adjust(b[i], i, tick, excess)
  {
    seq(|b|, i requires 0 <= i < |b| => Adjust(b[i], i, tick, excess))
  }

  lemma AllCorrected(b: seq<uint16>, tick: uint16, excess: uint16)
    ensures Corrected(b, AdjustAll(b, tick, excess), tick, excess)
  {
    forall i | 0 <= i < |b|
      ensures var r: int := AdjustAll(b, tick, excess)[i];
              if i % 2 == 1 then (r + excess) % 0x1_0000 == b[i] * tick % 0x1_0000
              else r == (b[i] * tick + excess) % 0x1_0000
    {
      AdjustCorrects(b[i], i, tick, excess);
    }
  }

  // IRrecvBase::getResults
  function Fetch(s: Shared, tick: uint16, excess: uint16): Shared
    requires s.Fits()
  {
    var source := if s.didAutoResume then s.Decoding() else s.Recorded();
    var adjusted := AdjustAll(source, tick, excess);
    var t := s.(newDataAvailable := false, didAutoResume := false, decodeLength := |source|, decoderWantsData := false);
    if s.external.Some? then t.(external := Some(Overwrite(s.external.value, adjusted)))
    else t.(recv := Overwrite(s.recv, adjusted))
  }

  // Does a frame end here although no edge has come yet?
  predicate TimedOut(s: Shared, now: uint32, high: bool) {
    s.phase == RUNNING && high && Elapsed(s, now) > s.frameTimeout
  }

  // IRrecvPCI::getResults, and whether it found a frame
  function GetResults(s: Shared, now: uint32, high: bool, excess: uint16): (Shared, bool)
    requires s.Fits()
  {
    if s.newDataAvailable then (Fetch(s, 1, excess), true)
    else if TimedOut(s, now, high) then (Fetch(Complete(s), 1, excess), true)
    else (s, false)
  }

  // IRrecvPCI::enableIRIn
  function EnableIRIn(s: Shared, now: uint32): Shared {
    if s.newDataAvailable then s
    else
      var t := s.(decoderWantsData := true);
      if s.phase == FINISHED || s.didIROut
      then t.(recvLength := 0, phase := READY, didIROut := false, timer := now)
      else t
  }

  function DisableIRIn(s: Shared): Shared { s.(decoderWantsData := false, didAutoResume := false, phase := FINISHED) }

  function EnableAutoResume(s: Shared, buffer: seq<uint16>): Shared { s.(external := Some(buffer)) }

  // Sending reprograms the timer that the receiver uses.
  function IROut(s: Shared): Shared { s.(didIROut := true) }

  datatype Step =
    | Interrupt(now: uint32, high: bool)
    | Results(now: uint32, high: bool, excess: uint16)
    | Enable(now: uint32)
    | Disable
    | AutoResume(buffer: seq<uint16>)
    | Output
    | Finish

  predicate Legal(step: Step) { step.AutoResume? ==> |step.buffer| == RECV_BUF_LENGTH }

  function Take(s: Shared, step: Step): Shared
    requires Inv(s) && Legal(step)
  {
    match step
    case Interrupt(now, high) => Edge(s, now, high)
    case Results(now, high, excess) => GetResults(s, now, high, excess).0
    case Enable(now) => EnableIRIn(s, now)
    case Disable => DisableIRIn(s)
    case AutoResume(buffer) => EnableAutoResume(s, buffer)
    case Output => IROut(s)
    case Finish => Complete(s)
  }

  lemma EdgeKeeps(s: Shared, now: uint32, high: bool)
    requires Inv(s)
    ensures Inv(Edge(s, now, high))
  {
  }

  lemma TakeKeeps(s: Shared, step: Step)
    requires Inv(s) && Legal(step)
    ensures Inv(Take(s, step))
  {
    if step.Interrupt? { EdgeKeeps(s, step.now, step.high); }
  }

  predicate AllLegal(steps: seq<Step>) { forall i :: 0 <= i < |steps| ==> Legal(steps[i]) }

  function Run(s: Shared, steps: seq<Step>): (r: Shared)
    requires Inv(s) && AllLegal(steps)
    ensures Inv(r)
    decreases |steps|
  {
    if steps == [] then s
    else
      TakeKeeps(s, steps[0]);
      Run(Take(s, steps[0]), steps[1..])
  }

  lemma InitialKeeps(s: Shared)
    requires Initial(s)
    ensures Inv(s)
  {
  }

  // --- The decoder's buffer is safe while it is being decoded ---

  // What can happen without the main program asking for data.
  predicate Background(step: Step) { step.Interrupt? || step.Finish? || step.Output? || step.Disable? }

  predicate AllBackground(steps: seq<Step>) { forall i :: 0 <= i < |steps| ==> Background(steps[i]) }

  predicate Locked(s: Shared) {
    Inv(s) && !s.decoderWantsData && (s.external.None? ==> s.phase == FINISHED)
  }

  lemma LockedStep(s: Shared, step: Step)
    requires Locked(s) && Background(step)
    ensures var t := Take(s, step);
            Locked(t) && t.DecodeBuffer() == s.DecodeBuffer() && t.decodeLength == s.decodeLength
  {
    TakeKeeps(s, step);
  }

  // From getResults to the next enableIRIn no interleaving of interrupts and completions touches
  // what is being decoded.
  lemma {:induction false} DecodingIsSafe(s: Shared, now: uint32, high: bool, excess: uint16, steps: seq<Step>)
    requires Inv(s) && GetResults(s, now, high, excess).1 && AllBackground(steps)
    ensures var found := GetResults(s, now, high, excess).0;
            Inv(found) && Run(found, steps).Decoding() == found.Decoding()
  {
    var found := GetResults(s, now, high, excess).0;
    TakeKeeps(s, Results(now, high, excess));
    assert Locked(found);
    LockedRun(found, steps);
  }

  lemma {:induction false} LockedRun(s: Shared, steps: seq<Step>)
    requires Locked(s) && AllBackground(steps)
    ensures Run(s, steps).DecodeBuffer() == s.DecodeBuffer() && Run(s, steps).decodeLength == s.decodeLength
    decreases |steps|
  {
    if steps != [] {
      LockedStep(s, steps[0]);
      LockedRun(Take(s, steps[0]), steps[1..]);
    }
  }

  // --- A frame is fetched as it was when it was complete, and adjusted once ---

  // The frame f waits to be fetched, in either buffer.
  predicate Held(s: Shared, f: seq<uint16>) {
    && Inv(s) && s.newDataAvailable
    && (if s.didAutoResume then s.Decoding() == f else s.Recorded() == f)
  }

  // The frame that getResults is about to fetch if the receiver completes one now.
  function Due(s: Shared): seq<uint16>
    requires Inv(s)
  {
    if s.didAutoResume then s.Decoding() else s.Recorded()
  }

  predicate Waiting(step: Step) { step.Interrupt? || step.Finish? || step.Output? }

  predicate AllWaiting(steps: seq<Step>) { forall i :: 0 <= i < |steps| ==> Waiting(steps[i]) }

  lemma CompleteHolds(s: Shared)
    requires Inv(s)
    ensures Held(Complete(s), Due(s))
  {
    TakeKeeps(s, Finish);
  }

  lemma HeldStep(s: Shared, f: seq<uint16>, step: Step)
    requires Held(s, f) && Waiting(step)
    ensures Held(Take(s, step), f)
  {
    TakeKeeps(s, step);
  }

  lemma {:induction false} HeldRun(s: Shared, f: seq<uint16>, steps: seq<Step>)
    requires Held(s, f) && AllWaiting(steps)
    ensures Held(Run(s, steps), f)
    decreases |steps|
  {
    if steps != [] {
      HeldStep(s, f, steps[0]);
      HeldRun(Take(s, steps[0]), f, steps[1..]);
    }
  }

  lemma FetchHeld(s: Shared, f: seq<uint16>, tick: uint16, excess: uint16)
    requires Held(s, f)
    ensures Fetch(s, tick, excess).Fits() && Fetch(s, tick, excess).Decoding() == AdjustAll(f, tick, excess)
  {
  }

  // Whatever the interrupt handler does between the end of a frame and getResults, and whichever
  // buffers are in use, the decoder gets the frame with every entry adjusted once.
  lemma FetchedOnce(s: Shared, steps: seq<Step>, tick: uint16, excess: uint16)
    requires Inv(s) && AllWaiting(steps)
    ensures Inv(Take(s, Finish)) && var t := Run(Take(s, Finish), steps);
            t.newDataAvailable && Fetch(t, tick, excess).Fits()
            && Fetch(t, tick, excess).Decoding() == AdjustAll(Due(s), tick, excess)
            && Corrected(Due(s), Fetch(t, tick, excess).Decoding(), tick, excess)
  {
    AllCorrected(Due(s), tick, excess);
    TakeKeeps(s, Finish);
    CompleteHolds(s);
    var c := Take(s, Finish);
    assert c == Complete(s);
    HeldRun(c, Due(s), steps);
    FetchHeld(Run(c, steps), Due(s), tick, excess);
  }

  // --- When a complete frame is lost ---

  lemma {:induction false} BackgroundHolds(s: Shared, f: seq<uint16>, steps: seq<Step>)
    requires Held(s, f) && !s.didAutoResume && !s.decoderWantsData && AllBackground(steps)
    ensures Held(Run(s, steps), f)
    decreases |steps|
  {
    if steps != [] {
      TakeKeeps(s, steps[0]);
      BackgroundHolds(Take(s, steps[0]), f, steps[1..]);
    }
  }

  // disableIRIn forgets that a resumed frame is in the decoder's buffer. Whatever happens before it and
  // behind it, a waiting frame survives it if and only if it had not been resumed, or had been recorded
  // a second time.
  lemma SurvivesDisable(s: Shared, f: seq<uint16>, before: seq<Step>, behind: seq<Step>)
    requires Held(s, f) && AllWaiting(before) && AllBackground(behind)
    ensures var t := Run(s, before);
            Held(Run(DisableIRIn(t), behind), t.Recorded())
            && (Held(Run(DisableIRIn(t), behind), f) <==> !t.didAutoResume || t.Recorded() == f)
  {
    var t := Run(s, before);
    HeldRun(s, f, before);
    BackgroundHolds(DisableIRIn(t), t.Recorded(), behind);
  }

  // Up to the next enableIRIn: interrupts, output, and getResults as often as the main program likes.
  predicate Asking(step: Step) { step.Interrupt? || step.Output? || step.Results? }

  predicate AllAsking(steps: seq<Step>) { forall i :: 0 <= i < |steps| ==> Asking(steps[i]) }

  predicate Asks(steps: seq<Step>) { steps != [] && (steps[0].Results? || Asks(steps[1..])) }

  predicate Finds(s: Shared, step: Step)
    requires s.Fits()
  {
    step.Results? && GetResults(s, step.now, step.high, step.excess).1
  }

  // The frames that getResults finds, as they were recorded.
  function Fetched(s: Shared, steps: seq<Step>): seq<seq<uint16>>
    requires Inv(s) && AllAsking(steps)
    decreases |steps|
  {
    if steps == [] then []
    else
      TakeKeeps(s, steps[0]);
      (if Finds(s, steps[0]) then [Due(s)] else []) + Fetched(Take(s, steps[0]), steps[1..])
  }

  // What getResults finds is what the decoder gets, adjusted once.
  lemma FoundIsDue(s: Shared, now: uint32, high: bool, excess: uint16)
    requires Inv(s) && GetResults(s, now, high, excess).1
    ensures var t := GetResults(s, now, high, excess).0;
            && t.Fits() && !t.newDataAvailable && t.Decoding() == AdjustAll(Due(s), 1, excess)
            && Corrected(Due(s), t.Decoding(), 1, excess)
  {
    AllCorrected(Due(s), 1, excess);
    if s.newDataAvailable {
      FetchHeld(s, Due(s), 1, excess);
    } else {
      CompleteHolds(s);
      FetchHeld(Complete(s), Due(s), 1, excess);
    }
  }

  lemma {:induction false} FirstFetched(s: Shared, f: seq<uint16>, steps: seq<Step>)
    requires Held(s, f) && AllAsking(steps)
    ensures Asks(steps) ==> Fetched(s, steps) != [] && Fetched(s, steps)[0] == f
    ensures !Asks(steps) ==> Fetched(s, steps) == []
    decreases |steps|
  {
    if steps != [] && !steps[0].Results? {
      HeldStep(s, f, steps[0]);
      FirstFetched(Take(s, steps[0]), f, steps[1..]);
    }
  }

  predicate Stopped(s: Shared) { Inv(s) && s.phase == FINISHED && !s.newDataAvailable }

  lemma {:induction false} StoppedFinds(s: Shared, steps: seq<Step>)
    requires Stopped(s) && AllAsking(steps)
    ensures Fetched(s, steps) == [] && Stopped(Run(s, steps))
    decreases |steps|
  {
    if steps != [] {
      TakeKeeps(s, steps[0]);
      StoppedFinds(Take(s, steps[0]), steps[1..]);
    }
  }

  // A receiver that has stopped hands out the waiting frame and nothing else.
  lemma {:induction false} OnlyFetched(s: Shared, f: seq<uint16>, steps: seq<Step>)
    requires Held(s, f) && s.phase == FINISHED && AllAsking(steps)
    ensures Fetched(s, steps) == if Asks(steps) then [f] else []
    ensures Asks(steps) ==> Stopped(Run(s, steps))
    decreases |steps|
  {
    if steps != [] {
      TakeKeeps(s, steps[0]);
      if steps[0].Results? {
        StoppedFinds(Take(s, steps[0]), steps[1..]);
      } else {
        HeldStep(s, f, steps[0]);
        OnlyFetched(Take(s, steps[0]), f, steps[1..]);
      }
    }
  }

  // Auto-resume works once. Whatever happens up to the next enableIRIn, a frame that ends now is handed
  // out if and only if the program asks, and no resumed frame was still waiting (or an equal one was).
  lemma SecondFrameFetched(s: Shared, steps: seq<Step>)
    requires Inv(s) && s.phase == RUNNING && AllAsking(steps)
    ensures Inv(Complete(s))
    ensures s.Recorded() in Fetched(Complete(s), steps) <==>
            Asks(steps) && (!s.didAutoResume || s.Decoding() == s.Recorded())
  {
    CompleteHolds(s);
    FirstFetched(Complete(s), Due(s), steps);
    if s.didAutoResume {
      OnlyFetched(Complete(s), Due(s), steps);
    } else if Asks(steps) {
      assert Fetched(Complete(s), steps)[0] == s.Recorded();
    }
  }

  // It is gone for good: the next enableIRIn starts an empty recording.
  lemma SecondFrameIsLost(s: Shared, steps: seq<Step>, later: uint32)
    requires Inv(s) && s.phase == RUNNING && s.didAutoResume && AllAsking(steps) && Asks(steps)
    ensures Inv(Complete(s))
    ensures Fetched(Complete(s), steps) == [s.Decoding()]
    ensures var t := EnableIRIn(Run(Complete(s), steps), later); Idle(t) && t.Recorded() == []
  {
    CompleteHolds(s);
    OnlyFetched(Complete(s), s.Decoding(), steps);
  }

  // --- What the interrupt handler records ---

  // The input changes after each of the times ds; high tells whether a space begins.
  function Edges(start: uint32, ds: seq<nat>, high: bool): (steps: seq<Step>)
    ensures |steps| == |ds| && AllLegal(steps) && forall i :: 0 <= i < |steps| ==> steps[i].Interrupt?
    decreases |ds|
  {
    if ds == [] then [] else [Interrupt(At(start, ds[0]), high)] + Edges(At(start, ds[0]), ds[1..], !high)
  }

  function At(start: uint32, d: nat): uint32 { (start + d) % 0x1_0000_0000 }

  // Spaces, at even indices of the buffer, are too short to end the frame.
  predicate Recordable(ds: seq<nat>, first: nat, timeout: uint16) {
    forall j :: 0 <= j < |ds| ==> ds[j] < 0x1_0000 && ((first + j) % 2 == 0 ==> ds[j] <= timeout)
  }

  lemma ElapsedAt(s: Shared, d: nat)
    requires d < 0x1_0000_0000
    ensures Elapsed(s, At(s.timer, d)) == d
  {
  }

  lemma RecordOne(s: Shared, d: uint16, high: bool)
    requires Inv(s) && s.phase == RUNNING && s.recvLength + 1 < RECV_BUF_LENGTH
    requires s.recvLength % 2 == 0 ==> d <= s.frameTimeout
    ensures var t := Edge(s, At(s.timer, d), high);
            && Inv(t) && t.Recorded() == s.Recorded() + [d]
            && t == s.(recv := t.recv, recvLength := s.recvLength + 1, timer := At(s.timer, d))
  {
    ElapsedAt(s, d);
    EdgeKeeps(s, At(s.timer, d), high);
  }

  lemma {:induction false} RecordRuns(s: Shared, ds: seq<nat>, high: bool)
    requires Inv(s) && s.phase == RUNNING && s.recvLength + |ds| < RECV_BUF_LENGTH
    requires Recordable(ds, s.recvLength, s.frameTimeout)
    ensures var t := Run(s, Edges(s.timer, ds, high));
            && t.Recorded() == s.Recorded() + ds
            && t == s.(recv := t.recv, recvLength := s.recvLength + |ds|, timer := t.timer)
    decreases |ds|
  {
    if ds == [] {
      assert s.Recorded() + ds == s.Recorded();
    } else {
      var steps := Edges(s.timer, ds, high);
      var t := Edge(s, At(s.timer, ds[0]), high);
      RecordOne(s, ds[0], high);
      forall j | 0 <= j < |ds[1..]|
        ensures ds[1..][j] < 0x1_0000 && ((t.recvLength + j) % 2 == 0 ==> ds[1..][j] <= t.frameTimeout)
      {
        assert ds[1..][j] == ds[j + 1];
      }
      RecordRuns(t, ds[1..], !high);
      assert steps[1..] == Edges(t.timer, ds[1..], !high);
      assert s.Recorded() + [ds[0]] + ds[1..] == s.Recorded() + ds;
    }
  }

  // A mark begins at start, and the level changes after each of the times ds.
  function Signal(start: uint32, ds: seq<nat>): (steps: seq<Step>)
    ensures AllLegal(steps)
  {
    [Interrupt(start, false)] + Edges(start, ds, true)
  }

  predicate Idle(s: Shared) { Inv(s) && s.phase == READY && !s.newDataAvailable }

  lemma RecordGap(s: Shared, start: uint32)
    requires Inv(s) && s.phase == READY
    ensures var t := Take(s, Interrupt(start, false));
            && Inv(t) && t == s.(recv := t.recv, recvLength := 1, timer := start, phase := RUNNING)
            && t.Recorded() == [Elapsed(s, start) % 0x1_0000]
  {
    TakeKeeps(s, Interrupt(start, false));
  }

  lemma NextEven(n: nat)
    ensures n % 2 == 1 ==> (1 + n) % 2 == 0
  {
  }

  lemma RunSignal(s: Shared, start: uint32, ds: seq<nat>)
    requires Inv(s)
    ensures Run(s, Signal(start, ds)) == Run(Take(s, Interrupt(start, false)), Edges(start, ds, true))
  {
    assert Signal(start, ds)[1..] == Edges(start, ds, true);
  }

  // A receiver that waits for a mark records the gap in front of a signal, and the signal.
  lemma RecordSignal(s: Shared, start: uint32, ds: seq<nat>)
    requires Inv(s) && s.phase == READY && 1 + |ds| < RECV_BUF_LENGTH && Recordable(ds, 1, s.frameTimeout)
    ensures var t := Run(s, Signal(start, ds));
            && t.phase == RUNNING && t.recvLength == 1 + |ds| && t.didAutoResume == s.didAutoResume
                && t.frameTimeout == s.frameTimeout
            && t.Recorded() == [Elapsed(s, start) % 0x1_0000] + ds && t.Recorded()[1..] == ds
            && (|ds| % 2 == 1 ==> t.recvLength % 2 == 0)
  {
    var gap := Elapsed(s, start) % 0x1_0000;
    var first := Take(s, Interrupt(start, false));
    RecordGap(s, start);
    RecordRuns(first, ds, true);
    RunSignal(s, start, ds);
    NextEven(|ds|);
    assert ([gap] + ds)[1..] == ds;
  }

  // A program that keeps asking while a signal is received changes nothing: in a mark, however long, and
  // in a space up to the timeout, getResults finds nothing and leaves the receiver alone.
  lemma PollsDuring(s: Shared, start: uint32, ds: seq<nat>, k: nat, d: nat, excess: uint16)
    requires Idle(s) && 1 + |ds| < RECV_BUF_LENGTH && Recordable(ds, 1, s.frameTimeout) && k < |ds| && d <= ds[k]
    ensures var t := Run(s, Signal(start, ds[..k]));
            GetResults(t, At(t.timer, d), k % 2 == 1, excess) == (t, false)
  {
    var t := Run(s, Signal(start, ds[..k]));
    RecordSignal(s, start, ds[..k]);
    ElapsedAt(t, d);
    assert ds[k] < 0x1_0000 && (k % 2 == 1 ==> ds[k] <= s.frameTimeout);
  }

  // Recording up to the last entry of the buffer ends the frame.
  lemma {:induction false} FillRuns(s: Shared, ds: seq<nat>, high: bool)
    requires Inv(s) && s.phase == RUNNING && !s.didAutoResume && ds != [] && s.recvLength + |ds| == RECV_BUF_LENGTH
    requires Recordable(ds, s.recvLength, s.frameTimeout)
    ensures Held(Run(s, Edges(s.timer, ds, high)), s.Recorded() + ds)
    decreases |ds|
  {
    var steps := Edges(s.timer, ds, high);
    var t := Edge(s, At(s.timer, ds[0]), high);
    EdgeKeeps(s, At(s.timer, ds[0]), high);
    if |ds| == 1 {
      FullBuffer(s, ds[0], high);
      assert steps[1..] == [] && ds == [ds[0]];
    } else {
      RecordOne(s, ds[0], high);
      forall j | 0 <= j < |ds[1..]|
        ensures ds[1..][j] < 0x1_0000 && ((t.recvLength + j) % 2 == 0 ==> ds[1..][j] <= t.frameTimeout)
      {
        assert ds[1..][j] == ds[j + 1];
      }
      FillRuns(t, ds[1..], !high);
      assert steps[1..] == Edges(t.timer, ds[1..], !high);
      assert s.Recorded() + [ds[0]] + ds[1..] == s.Recorded() + ds;
    }
  }

  lemma FullBuffer(s: Shared, d: uint16, high: bool)
    requires Inv(s) && s.phase == RUNNING && !s.didAutoResume && s.recvLength + 1 == RECV_BUF_LENGTH
    requires s.recvLength % 2 == 0 ==> d <= s.frameTimeout
    ensures Held(Edge(s, At(s.timer, d), high), s.Recorded() + [d])
  {
    ElapsedAt(s, d);
    EdgeKeeps(s, At(s.timer, d), high);
    assert s.recv[s.recvLength := d][..RECV_BUF_LENGTH] == s.Recorded() + [d];
  }

  // However long a signal goes on, its first 99 intervals are the frame.
  lemma LongSignalCut(s: Shared, start: uint32, ds: seq<nat>)
    requires Idle(s) && |ds| == RECV_BUF_LENGTH - 1 && Recordable(ds, 1, s.frameTimeout)
    ensures Held(Run(s, Signal(start, ds)), [Elapsed(s, start) % 0x1_0000] + ds)
  {
    RecordGap(s, start);
    FillRuns(Take(s, Interrupt(start, false)), ds, true);
    RunSignal(s, start, ds);
  }

  // --- Between two frames ---

  // enableIRIn waits for the next frame, does not disturb one that is being recorded, and allows
  // one more auto-resume; a frame that waits to be fetched stays as it is.
  lemma EnableRearms(s: Shared, now: uint32)
    requires Inv(s)
    ensures var t := EnableIRIn(s, now);
            if s.newDataAvailable then t == s
            else
              && t.decoderWantsData && t.phase != FINISHED && t.Fits() && t.Decoding() == s.Decoding() && !t.didIROut
              && (s.phase == RUNNING && !s.didIROut ==>
                    t.phase == RUNNING && t.Recorded() == s.Recorded() && t.timer == s.timer)
              && (s.phase == FINISHED || s.didIROut ==> Idle(t) && t.timer == now)
              && (Complete(t).didAutoResume <==> t.external.Some?)
  {
  }

  // A stopped receiver ignores the input.
  lemma {:induction false} DisabledIgnores(s: Shared, steps: seq<Step>)
    requires Inv(s) && s.phase == FINISHED && AllInterrupts(steps)
    ensures Run(s, steps) == s
    decreases |steps|
  {
    if steps != [] { DisabledIgnores(s, steps[1..]); }
  }

  // disableIRIn stops it in every state, up to the next enableIRIn.
  lemma DisableStops(s: Shared, steps: seq<Step>, now: uint32)
    requires Inv(s) && AllInterrupts(steps)
    ensures Inv(DisableIRIn(s)) && Run(DisableIRIn(s), steps) == DisableIRIn(s)
    ensures !s.newDataAvailable ==> Idle(EnableIRIn(DisableIRIn(s), now))
  {
    TakeKeeps(s, Disable);
    DisabledIgnores(DisableIRIn(s), steps);
    if !s.newDataAvailable { TakeKeeps(DisableIRIn(s), Enable(now)); }
  }

  // Sending takes the timer away: what was being recorded is given up by the next enableIRIn.
  lemma OutputRestarts(s: Shared, now: uint32)
    requires Inv(s) && !s.newDataAvailable
    ensures Inv(IROut(s)) && Idle(EnableIRIn(IROut(s), now)) && EnableIRIn(IROut(s), now).recvLength == 0
  {
    TakeKeeps(s, Output);
    TakeKeeps(IROut(s), Enable(now));
  }

  // When the handler notices the end of a frame only at the next mark and resumes by itself, it has
  // missed the beginning of that mark: the first two intervals of the next frame are lost.
  lemma SecondFrameBeheaded(s: Shared, late: uint32, ds: seq<nat>)
    requires Inv(s) && s.phase == RUNNING && s.recvLength % 2 == 0 && Elapsed(s, late) > s.frameTimeout
    requires s.external.Some? && s.decoderWantsData
    requires 2 <= |ds| < RECV_BUF_LENGTH && Recordable(ds[2..], 1, s.frameTimeout)
    ensures Inv(Edge(s, late, false))
    ensures var t := Run(Edge(s, late, false), Edges(late, ds, true));
            t.Decoding() == s.Recorded() && t.phase == RUNNING && t.recvLength == |ds| - 1
                && t.Recorded()[1..] == ds[2..]
  {
    TakeKeeps(s, Interrupt(late, false));
    var ended, second, third := Complete(s), At(late, ds[0]), At(At(late, ds[0]), ds[1]);
    assert ended.Decoding() == s.Recorded() && Locked(ended);
    HeadIgnored(ended, late, ds);
    RecordSignal(ended, third, ds[2..]);
    LockedRun(ended, Signal(third, ds[2..]));
  }

  predicate AllInterrupts(steps: seq<Step>) { forall i :: 0 <= i < |steps| ==> steps[i].Interrupt? }

  // A handler that waits cannot have recorded more entries than edges have come.
  lemma {:induction false} CountFromReady(s: Shared, steps: seq<Step>)
    requires Inv(s) && s.phase != RUNNING && AllInterrupts(steps)
    ensures Run(s, steps).phase == RUNNING ==> Run(s, steps).recvLength <= |steps|
    decreases |steps|
  {
    if steps != [] {
      var t := Take(s, steps[0]);
      EdgeKeeps(s, steps[0].now, steps[0].high);
      if t.phase == RUNNING { CountFromRunning(t, steps[1..]); } else { CountFromReady(t, steps[1..]); }
    }
  }

  // One that records has either recorded every edge, or has stopped or begun anew in between.
  lemma {:induction false} CountFromRunning(s: Shared, steps: seq<Step>)
    requires Inv(s) && s.phase == RUNNING && AllInterrupts(steps)
    ensures var t := Run(s, steps);
            t.phase == RUNNING ==> t.recvLength == s.recvLength + |steps| || t.recvLength < |steps|
    decreases |steps|
  {
    if steps != [] {
      var t := Take(s, steps[0]);
      EdgeKeeps(s, steps[0].now, steps[0].high);
      if t.phase == RUNNING { CountFromRunning(t, steps[1..]); } else { CountFromReady(t, steps[1..]); }
    }
  }

  // The signal ds is recorded whole, from its first mark on, if and only if the handler waits for it.
  lemma RecordedWhole(s: Shared, start: uint32, ds: seq<nat>)
    requires Inv(s) && 1 + |ds| < RECV_BUF_LENGTH && Recordable(ds, 1, s.frameTimeout)
    ensures var t := Run(s, Signal(start, ds));
            t.phase == RUNNING && t.recvLength == 1 + |ds| && t.Recorded()[1..] == ds <==> s.phase == READY
  {
    var first, edges := Take(s, Interrupt(start, false)), Edges(start, ds, true);
    EdgeKeeps(s, start, false);
    RunSignal(s, start, ds);
    if s.phase == READY {
      RecordSignal(s, start, ds);
    } else if first.phase == RUNNING {
      assert first.recvLength >= 2;
      CountFromRunning(first, edges);
    } else {
      CountFromReady(first, edges);
    }
  }

  // The second of two frames, with getResults called in between: it is recorded whole if and only if
  // the call came late enough to end the first frame and the receiver could resume by itself.
  lemma SecondFrameWhole(s: Shared, now: uint32, high: bool, excess: uint16, start: uint32, ds: seq<nat>)
    requires Inv(s) && s.phase == RUNNING && !s.newDataAvailable
    requires 1 + |ds| < RECV_BUF_LENGTH && Recordable(ds, 1, s.frameTimeout)
    ensures var asked := GetResults(s, now, high, excess).0;
            Inv(asked) && var t := Run(asked, Signal(start, ds));
            t.phase == RUNNING && t.recvLength == 1 + |ds| && t.Recorded()[1..] == ds <==>
            TimedOut(s, now, high) && s.external.Some? && s.decoderWantsData
  {
    TakeKeeps(s, Results(now, high, excess));
    RecordedWhole(GetResults(s, now, high, excess).0, start, ds);
  }

  // The mark that ended a frame is not recorded, and neither is the space behind it.
  lemma HeadIgnored(s: Shared, start: uint32, ds: seq<nat>)
    requires Inv(s) && s.phase == READY && |ds| >= 2
    ensures Run(s, Edges(start, ds, true)) == Run(s, Signal(At(At(start, ds[0]), ds[1]), ds[2..]))
  {
    var steps, second, third := Edges(start, ds, true), At(start, ds[0]), At(At(start, ds[0]), ds[1]);
    assert steps[1..] == Edges(second, ds[1..], false);
    assert ds[1..][1..] == ds[2..];
    assert Edges(second, ds[1..], false) == Signal(third, ds[2..]);
  }

  // --- These states are reached ---

  lemma {:induction false} RunAppend(s: Shared, steps: seq<Step>, step: Step)
    requires Inv(s) && AllLegal(steps) && Legal(step)
    ensures AllLegal(steps + [step]) && Run(s, steps + [step]) == Take(Run(s, steps), step)
    decreases |steps|
  {
    if steps == [] {
      assert [] + [step] == [step];
    } else {
      TakeKeeps(s, steps[0]);
      RunAppend(Take(s, steps[0]), steps[1..], step);
      assert (steps + [step])[1..] == steps[1..] + [step];
    }
  }

  lemma RunAppendTwo(s: Shared, steps: seq<Step>, x: Step, y: Step)
    requires Inv(s) && AllLegal(steps) && Legal(x) && Legal(y)
    ensures var t := Run(s, steps);
            AllLegal(steps + [x, y]) && Inv(Take(t, x)) && Run(s, steps + [x, y]) == Take(Take(t, x), y)
  {
    RunAppend(s, steps, x);
    RunAppend(s, steps + [x], y);
    assert steps + [x, y] == (steps + [x]) + [y];
  }

  // From the start: a buffer of the decoder's own, enableIRIn, and a frame of one mark of 600us.
  function FirstFrame(buffer: seq<uint16>): seq<Step> {
    [AutoResume(buffer), Enable(0)] + [Interrupt(100, false), Interrupt(700, true)]
  }

  // The next mark begins and ends.
  function Resumed(buffer: seq<uint16>): seq<Step> {
    FirstFrame(buffer) + [Interrupt(20000, false), Interrupt(20600, true)]
  }

  // The mark behind it is a frame of its own.
  function SecondFrame(buffer: seq<uint16>): seq<Step> {
    Resumed(buffer) + [Interrupt(21200, false), Interrupt(21800, true)]
  }

  lemma FirstFrameReached(s: Shared, buffer: seq<uint16>)
    requires Initial(s) && s.frameTimeout == 7800 && |buffer| == RECV_BUF_LENGTH
    ensures Inv(s) && AllLegal(FirstFrame(buffer))
    ensures var t := Run(s, FirstFrame(buffer));
            && t.phase == RUNNING && t.recvLength == 2 && t.Recorded() == [100, 600] && t.timer == 700
            && t.frameTimeout == 7800 && t.external.Some? && t.decoderWantsData && !t.newDataAvailable
            && Elapsed(t, 20000) > t.frameTimeout
  {
    InitialKeeps(s);
    assert AllLegal([AutoResume(buffer)]) && AllLegal([]);
    RunAppendTwo(s, [], AutoResume(buffer), Enable(0));
    assert [] + [AutoResume(buffer), Enable(0)] == [AutoResume(buffer), Enable(0)];
    RunAppendTwo(s, [AutoResume(buffer), Enable(0)], Interrupt(100, false), Interrupt(700, true));
  }

  // The next mark ends the first frame, which waits in the decoder's buffer; the mark itself is missed.
  lemma ResumedReached(s: Shared, buffer: seq<uint16>)
    requires Initial(s) && s.frameTimeout == 7800 && |buffer| == RECV_BUF_LENGTH
    ensures Inv(s) && AllLegal(Resumed(buffer))
    ensures var t := Run(s, Resumed(buffer));
            && t.phase == READY && t.didAutoResume && t.Decoding() == [100, 600] && t.Recorded() == [] && t.timer == 700
            && t.frameTimeout == 7800
  {
    FirstFrameReached(s, buffer);
    RunAppendTwo(s, FirstFrame(buffer), Interrupt(20000, false), Interrupt(20600, true));
  }

  // A mark of 600us behind a resumed frame.
  lemma SecondMark(t: Shared)
    requires Inv(t) && t.phase == READY && t.didAutoResume && t.timer == 700 && t.frameTimeout == 7800
    ensures Inv(Take(t, Interrupt(21200, false)))
    ensures var u := Take(Take(t, Interrupt(21200, false)), Interrupt(21800, true));
            && Inv(u) && u.phase == RUNNING && u.didAutoResume && u.Decoding() == t.Decoding()
            && u.Recorded() == [20500, 600] && Complete(u).phase == FINISHED
  {
    var first := Take(t, Interrupt(21200, false));
    RecordGap(t, 21200);
    assert first.Recorded() == [20500];
    RecordOne(first, 600, true);
  }

  // The second frame is complete while the first one still waits.
  lemma SecondFrameReached(s: Shared, buffer: seq<uint16>)
    requires Initial(s) && s.frameTimeout == 7800 && |buffer| == RECV_BUF_LENGTH
    ensures Inv(s) && AllLegal(SecondFrame(buffer))
    ensures var t := Run(s, SecondFrame(buffer));
            && t.phase == RUNNING && t.didAutoResume && t.Decoding() == [100, 600] && t.Recorded() == [20500, 600]
            && Complete(t).phase == FINISHED
  {
    ResumedReached(s, buffer);
    RunAppendTwo(s, Resumed(buffer), Interrupt(21200, false), Interrupt(21800, true));
    SecondMark(Run(s, Resumed(buffer)));
  }
}
