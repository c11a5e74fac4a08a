// Messages sent one behind the other: which of them the signal still keeps apart.
module Succession {
  import opened Digits
  import opened Pulse
  import opened Wire
  import opened PhaseCode
  import opened PhaseRuns
  import opened Protocols
  import opened RoundTrip
  import opened Delivery
  import opened Waves
  import opened Transmission
  import opened FrameLength

  // A frame and the space behind it.
  datatype Spaced = Spaced(frame: seq<nat>, gap: nat)

  function Train(bs: seq<Spaced>): seq<Event> {
    if bs == [] then [] else Alternate(bs[0].frame, MARK) + [Event(SPACE, bs[0].gap)] + Train(bs[1..])
  }

  predicate Quiets(bs: seq<Spaced>) { forall i :: 0 <= i < |bs| ==> bs[i].frame != [] && Quiet(bs[i].frame) }

  predicate AllLong(bs: seq<Spaced>) { forall i :: 0 <= i < |bs| ==> bs[i].gap > FRAME_TIMEOUT }

  // Every space between two frames is long enough to end a frame.
  predicate Apart(bs: seq<Spaced>) { bs == [] || AllLong(bs[..|bs| - 1]) }

  function FramesIn(bs: seq<Spaced>): (fs: seq<seq<nat>>)
    ensures |fs| == |bs| && forall i :: 0 <= i < |bs| ==> fs[i] == bs[i].frame
  {
    seq(|bs|, i requires 0 <= i < |bs| => bs[i].frame)
  }

  // What cutting makes of them: a short space goes on with the frame.
  function Cut(bs: seq<Spaced>, open: seq<nat>): seq<seq<nat>> {
    if bs == [] then (if open == [] then [] else [open])
    else if bs[0].gap > FRAME_TIMEOUT || |bs| == 1 then [open + bs[0].frame] + Cut(bs[1..], [])
    else Cut(bs[1..], open + bs[0].frame + [bs[0].gap])
  }

  // --- Cutting a train of frames ---

  lemma {:induction false} FramesGoOn(rs: seq<Event>, gap: nat, rest: seq<Event>, open: seq<nat>)
    requires forall j :: 0 <= j < |rs| && rs[j].level == SPACE ==> rs[j].time <= FRAME_TIMEOUT
    requires gap <= FRAME_TIMEOUT && rest != []
    ensures Frames(rs + [Event(SPACE, gap)] + rest, open) == Frames(rest, open + Times(rs) + [gap])
    decreases |rs|
  {
    var all := rs + [Event(SPACE, gap)] + rest;
    if rs == [] {
      assert all[1..] == rest && open + Times(rs) == open;
    } else {
      assert all[1..] == rs[1..] + [Event(SPACE, gap)] + rest;
      FramesGoOn(rs[1..], gap, rest, open + [rs[0].time]);
      assert open + [rs[0].time] + Times(rs[1..]) == open + Times(rs);
    }
  }

  lemma {:induction false} FramesTrain(bs: seq<Spaced>, open: seq<nat>)
    requires Quiets(bs)
    ensures Frames(Train(bs), open) == Cut(bs, open)
    decreases |bs|
  {
    if bs != [] {
      var b, rest := bs[0], bs[1..];
      var rs := Alternate(b.frame, MARK);
      QuietLevels(b.frame);
      if b.gap > FRAME_TIMEOUT || |bs| == 1 {
        FramesTrain(rest, []);
        FramesQuiet(rs, b.gap, Train(rest), open);
      } else {
        FramesTrain(rest, open + b.frame + [b.gap]);
        FramesGoOn(rs, b.gap, Train(rest), open);
      }
    }
  }

  // A frame fewer for every short space.
  lemma {:induction false} CutBound(bs: seq<Spaced>, open: seq<nat>)
    requires bs != []
    ensures |Cut(bs, open)| <= |bs| && (|Cut(bs, open)| == |bs| ==> Apart(bs))
    decreases |bs|
  {
    if |bs| > 1 {
      var rest := bs[1..];
      CutBound(rest, if bs[0].gap > FRAME_TIMEOUT then [] else open + bs[0].frame + [bs[0].gap]);
      assert bs[..|bs| - 1] == [bs[0]] + rest[..|rest| - 1];
    }
  }

  lemma {:induction false} CutApart(bs: seq<Spaced>)
    requires Apart(bs)
    ensures Cut(bs, []) == FramesIn(bs)
    decreases |bs|
  {
    if bs != [] {
      var rest := bs[1..];
      if |bs| > 1 {
        assert bs[..|bs| - 1][0] == bs[0];
        assert rest[..|rest| - 1] == bs[..|bs| - 1][1..];
      }
      CutApart(rest);
      assert [] + bs[0].frame == bs[0].frame;
      assert FramesIn(bs) == [bs[0].frame] + FramesIn(rest);
    }
  }

  lemma FramesApart(bs: seq<Spaced>)
    requires Quiets(bs)
    ensures Frames(Train(bs), []) == FramesIn(bs) <==> Apart(bs)
  {
    FramesTrain(bs, []);
    if Apart(bs) { CutApart(bs); } else { CutBound(bs, []); }
  }

  // --- Trains of the senders ---

  lemma {:induction false} TrainConcat(xs: seq<Spaced>, ys: seq<Spaced>)
    ensures Train(xs + ys) == Train(xs) + Train(ys)
  {
    if xs == [] {
      assert xs + ys == ys;
    } else {
      TrainConcat(xs[1..], ys);
      assert (xs + ys)[1..] == xs[1..] + ys;
      Assoc(Alternate(xs[0].frame, MARK) + [Event(SPACE, xs[0].gap)], Train(xs[1..]), Train(ys));
    }
  }

  // The events es are the frames bs, however they are cut up.
  ghost predicate Carries(es: seq<Event>, bs: seq<Spaced>) {
    && es != [] && es[0].level == MARK && es[|es| - 1].level == SPACE
    && Merge(es) == Train(bs)
  }

  lemma BurstCarries(es: seq<Event>, ds: seq<nat>, gap: nat)
    requires Burst(es, ds, gap)
    ensures Carries(es, [Spaced(ds, gap)])
  {
    var b := Spaced(ds, gap);
    BurstEnds(es, ds, gap);
    assert [b][1..] == [] && Train([b][1..]) == [];
    assert Train([b]) == Alternate(ds, MARK) + [Event(SPACE, gap)];
  }

  lemma CarriesBoth(xs: seq<Event>, bs: seq<Spaced>, ys: seq<Event>, cs: seq<Spaced>)
    requires Carries(xs, bs) && Carries(ys, cs)
    ensures Carries(xs + ys, bs + cs)
  {
    MergeApart(xs, ys);
    TrainConcat(bs, cs);
  }

  // What one call of a send method puts on the wire.
  function TrainOf(m: Message, longLeadOut: bool): (bs: seq<Spaced>)
    ensures |bs| == |Sent(m)| > 0
    ensures forall i :: 0 <= i < |bs| ==> bs[i] == Spaced(Frame(Sent(m)[i]), GapBehind(m, longLeadOut))
  {
    seq(|Sent(m)|, i requires 0 <= i < |Sent(m)| => Spaced(Frame(Sent(m)[i]), GapBehind(m, longLeadOut)))
  }

  lemma SendCarries(m: Message, longLeadOut: bool)
    requires Supported(m)
    ensures Carries(WaveOf(m, longLeadOut), TrainOf(m, longLeadOut))
  {
    match m {
      case SonyMessage(d, n) => SonyCarries(d, n, longLeadOut);
      case JVCMessage(d, true) => JVCCarries(d, longLeadOut);
      case _ => OneCarries(m, longLeadOut);
    }
  }

  lemma OneCarries(m: Message, longLeadOut: bool)
    requires Supported(m) && Sent(m) == [m]
    ensures Carries(WaveOf(m, longLeadOut), TrainOf(m, longLeadOut))
  {
    var gap := GapBehind(m, longLeadOut);
    SingleBurst(m, longLeadOut);
    BurstCarries(WaveOf(m, longLeadOut), Frame(m), gap);
    assert TrainOf(m, longLeadOut) == [Spaced(Frame(m), gap)];
  }

  lemma SonyCarries(d: uint32, n: uint8, longLeadOut: bool)
    requires Supported(SonyMessage(d, n))
    ensures Carries(Copies(SonyOnce(d, n), 3), TrainOf(SonyMessage(d, n), longLeadOut))
  {
    var m, once := SonyMessage(d, n), SonyOnce(d, n);
    var b := Spaced(Frame(m), SonyGap(d, n));
    SonyBurst(d, n);
    BurstCarries(once, b.frame, b.gap);
    CarriesBoth(once, [b], once, [b]);
    CarriesBoth(once, [b], once + once, [b] + [b]);
    ThreeCopies(once);
    assert TrainOf(m, longLeadOut) == [b] + ([b] + [b]);
  }

  lemma JVCCarries(d: uint32, longLeadOut: bool)
    ensures Carries(JVCWave(d, true) + JVCWave(d, false), TrainOf(JVCMessage(d, true), longLeadOut))
  {
    var headed, repeated := JVCMessage(d, true), JVCMessage(d, false);
    FrameOdd(headed);
    FrameOdd(repeated);
    WaveTwo(Frame(headed), 525 * 3, 525 * 45);
    WaveTwo(Frame(repeated), 525 * 3, 525 * 45);
    BurstCarries(JVCWave(d, true), Frame(headed), 525 * 48);
    BurstCarries(JVCWave(d, false), Frame(repeated), 525 * 48);
    CarriesBoth(JVCWave(d, true), [Spaced(Frame(headed), 525 * 48)],
                JVCWave(d, false), [Spaced(Frame(repeated), 525 * 48)]);
    assert TrainOf(headed, longLeadOut) == [Spaced(Frame(headed), 525 * 48)] + [Spaced(Frame(repeated), 525 * 48)];
  }

  // A call of a send method; the lead-out of DirecTV is a field that the program may set in between.
  datatype Call = Call(message: Message, longLeadOut: bool) {
    function Wave(): seq<Event> { WaveOf(message, longLeadOut) }
    function Bursts(): seq<Spaced> { TrainOf(message, longLeadOut) }
  }

  // What calls one behind the other emit, without a pause of the program's own.
  function WavesOf(cs: seq<Call>): seq<Event> { if cs == [] then [] else cs[0].Wave() + WavesOf(cs[1..]) }

  function TrainsOf(cs: seq<Call>): seq<Spaced> { if cs == [] then [] else cs[0].Bursts() + TrainsOf(cs[1..]) }

  function AllSent(cs: seq<Call>): seq<Message> { if cs == [] then [] else Sent(cs[0].message) + AllSent(cs[1..]) }

  predicate AllSupported(cs: seq<Call>) { forall i :: 0 <= i < |cs| ==> Supported(cs[i].message) }

  lemma {:induction false} SendsCarry(cs: seq<Call>)
    requires AllSupported(cs)
    ensures Merge(WavesOf(cs)) == Train(TrainsOf(cs))
    ensures cs != [] ==> Carries(WavesOf(cs), TrainsOf(cs))
  {
    if cs != [] {
      var c, rest := cs[0], cs[1..];
      SendCarries(c.message, c.longLeadOut);
      SendsCarry(rest);
      if rest == [] {
        assert WavesOf(cs) == c.Wave() && TrainsOf(cs) == c.Bursts();
      } else {
        CarriesBoth(c.Wave(), c.Bursts(), WavesOf(rest), TrainsOf(rest));
      }
    }
  }

  lemma TrainQuiet(m: Message, longLeadOut: bool)
    requires Supported(m)
    ensures Quiets(TrainOf(m, longLeadOut))
  {
    var bs := TrainOf(m, longLeadOut);
    forall i | 0 <= i < |bs| ensures bs[i].frame != [] && Quiet(bs[i].frame) {
      SentSupported(m, i);
      FrameQuiet(Sent(m)[i]);
      FrameSome(Sent(m)[i]);
    }
  }

  lemma FrameSome(m: Message)
    requires Supported(m)
    ensures Frame(m) != []
  {
    if m.RC5Message? || m.RC6Message? { FrameEntries(m); } else { FrameOdd(m); }
  }

  lemma {:induction false} TrainsSent(cs: seq<Call>)
    requires AllSupported(cs)
    ensures Quiets(TrainsOf(cs)) && FramesIn(TrainsOf(cs)) == FramesOf(AllSent(cs))
  {
    if cs != [] {
      var c, rest := cs[0], cs[1..];
      TrainQuiet(c.message, c.longLeadOut);
      TrainsSent(rest);
      TrainFrames(c.message, c.longLeadOut);
      FramesInBoth(c.Bursts(), TrainsOf(rest));
      FramesOfBoth(Sent(c.message), AllSent(rest));
    }
  }

  lemma FramesInBoth(bs: seq<Spaced>, cs: seq<Spaced>)
    ensures FramesIn(bs + cs) == FramesIn(bs) + FramesIn(cs)
  {
  }

  lemma EachOfBoth<T, U>(f: T -> U, xs: seq<T>, ys: seq<T>, fs: seq<U>, gs: seq<U>, all: seq<U>)
    requires |fs| == |xs| && (forall i :: 0 <= i < |xs| ==> fs[i] == f(xs[i]))
    requires |gs| == |ys| && (forall i :: 0 <= i < |ys| ==> gs[i] == f(ys[i]))
    requires |all| == |xs + ys| && (forall i :: 0 <= i < |xs + ys| ==> all[i] == f((xs + ys)[i]))
    ensures all == fs + gs
  {
  }

  lemma FramesOfBoth(ms: seq<Message>, ns: seq<Message>)
    ensures FramesOf(ms + ns) == FramesOf(ms) + FramesOf(ns)
  {
    EachOfBoth(Frame, ms, ns, FramesOf(ms), FramesOf(ns), FramesOf(ms + ns));
  }

  lemma TrainFrames(m: Message, longLeadOut: bool)
    ensures FramesIn(TrainOf(m, longLeadOut)) == FramesOf(Sent(m))
  {
  }

  // --- The space behind a message ---

  // The messages that another one must not follow at once: the space behind them is too short to end
  // a frame. RC5 and RC6 belong here when their space is cut to 16 bits.
  predicate RunsOn(m: Message) {
    match m
    case PanasonicOldMessage(_) => true
    case NECxMessage(d) => d != REPEAT_CODE
    case RC5Message(_, n) => 23 <= n <= 26
    case RC6Message(_, n) => 32 <= n <= 40
    case SonyMessage(_, _) => !Separated(m)
    case _ => false
  }

  lemma ScaledTail(rs: seq<Event>, t1: nat)
    ensures TailSpace(Scale(rs, t1)) == TailSpace(rs) * t1
  {
  }

  lemma TailScale(us: seq<Event>, t1: nat)
    ensures TailSpace(Merge(Scale(us, t1))) == TailSpace(Merge(us)) * t1
  {
    MergeScale(us, t1);
    ScaledTail(Merge(us), t1);
  }

  // The last run is the second half of the last bit, whatever opens the frame.
  lemma RC5LastRun(bits: seq<nat>)
    requires bits != [] && InBase(bits, 2)
    ensures TailSpace(Merge([Event(MARK, 1)] + PhaseUnits(RC5Code, bits, 0))) <= 1
  {
    var m := Merge(PhaseUnits(RC5Code, bits, 0));
    RC5Runs(bits);
    LastRun(RC5Code, bits, 0);
    OpenedEnd(m);
  }

  lemma RC6LastRun(bits: seq<nat>)
    requires bits != [] && InBase(bits, 2)
    ensures TailSpace(Merge([Event(MARK, 1), Event(SPACE, 1)] + PhaseUnits(RC6Code, bits, 0))) <= 2
  {
    var m := Merge(PhaseUnits(RC6Code, bits, 0));
    RC6Runs(bits);
    LastRun(RC6Code, bits, 0);
    JoinedEnd(MARK, 1, m);
    assert TailSpace(Joined(MARK, 1, m)) <= 2;
  }

  lemma RC5Tail(d: uint32, n: nat)
    requires n >= 1
    ensures TailSpace(Merge(Scale(RC5Units(d, n), 889))) <= 889
  {
    RC5LastRun(Bits(d, n));
    TailScale(RC5Units(d, n), 889);
  }

  lemma RC6Tail(d: uint32, n: nat)
    requires n >= 1
    ensures TailSpace(Merge(Scale(RC6Units(d, n), 444))) <= 888
  {
    RC6LastRun(RC6Bits(d, n));
    TailScale(RC6Units(d, n), 444);
  }

  lemma RC5Short(d: uint32, n: uint8)
    requires 1 <= n <= 32
    ensures RC5Gap(d, n) <= FRAME_TIMEOUT <==> 23 <= n <= 26
  {
    RC5BodyTotal(d, n);
    RC5Tail(d, n);
  }

  // k bits and a trailer of double width, if there are that many.
  lemma RC6Cut(k: int, tail: int)
    requires 1 <= k <= 64 && k != 32 && 0 <= tail <= 888
    ensures var total := 3555 + 444 * (2 * k + if k > 3 then 4 else 2);
            tail + (107000 - total) % 0x1_0000 <= FRAME_TIMEOUT <==> 33 <= k <= 40
  {
  }

  lemma RC6Short(d: uint32, n: uint8)
    requires 1 <= n <= 64
    ensures RC6Gap(d, n) <= FRAME_TIMEOUT <==> 32 <= n <= 40
  {
    var tail: int, total: int := TailSpace(Merge(Scale(RC6Units(d, n), 444))), Total(RC6Body(d, n));
    assert tail <= 888 by { RC6Tail(d, n); }
    assert RC6Gap(d, n) == tail + (107000 - total) % 0x1_0000;
    RC6BodyTotal(d, n);
    RC6Cut(|RC6Bits(d, n)|, tail);
  }

  lemma NECGap(d: uint32)
    requires d != REPEAT_CODE
    ensures Remainder(108000, Alternate(Frame(NECMessage(d)), MARK)) == 57804 - 1128 * Ones(Bits(d, 32)) >= 21708
  {
    NECBodyTotal(d);
    OnesBound(Bits(d, 32));
  }

  lemma RCMMTotalBound(d: uint32, n: uint8)
    requires n <= 32
    ensures Total(Alternate(Frame(RCMMMessage(d, n)), MARK)) <= 15982
  {
    RCMMFrame(d, n);
    RCMMBodyTotal(RCMMDigits(d, n));
  }

  lemma RCMMGap(d: uint32, n: uint8)
    requires n <= 32
    ensures Remainder(27778, Alternate(Frame(RCMMMessage(d, n)), MARK)) >= 11796
  {
    RCMMTotalBound(d, n);
  }

  lemma FixedGap(m: Message, longLeadOut: bool)
    requires !m.NECMessage? && !m.SonyMessage? && !m.RC5Message? && !m.RC6Message? && !m.RCMMMessage?
    ensures GapBehind(m, longLeadOut) <= FRAME_TIMEOUT <==> RunsOn(m)
  {
  }

  lemma FilledGap(m: Message, longLeadOut: bool)
    requires Supported(m) && (m.NECMessage? || m.SonyMessage? || m.RCMMMessage?)
    ensures GapBehind(m, longLeadOut) <= FRAME_TIMEOUT <==> RunsOn(m)
  {
    match m {
      case NECMessage(d) => if d != REPEAT_CODE { NECGap(d); }
      case SonyMessage(d, n) => SonyGapValue(d, n);
      case RCMMMessage(d, n) => RCMMGap(d, n);
    }
  }

  lemma GapExactly(m: Message, longLeadOut: bool)
    requires Supported(m)
    ensures GapBehind(m, longLeadOut) <= FRAME_TIMEOUT <==> RunsOn(m)
  {
    if m.RC5Message? {
      RC5Short(m.data, m.nbits);
    } else if m.RC6Message? {
      RC6Short(m.data, m.nbits);
    } else if m.NECMessage? || m.SonyMessage? || m.RCMMMessage? {
      FilledGap(m, longLeadOut);
    } else {
      FixedGap(m, longLeadOut);
    }
  }

  // --- Which messages are told apart ---

  // A message keeps its own frames apart, and the next message from its last frame.
  predicate KeptApart(cs: seq<Call>) {
    && (forall i :: 0 <= i < |cs| ==> Separated(cs[i].message))
    && (forall i :: 0 <= i < |cs| - 1 ==> !RunsOn(cs[i].message))
  }

  lemma {:induction false} ApartExactly(cs: seq<Call>)
    requires AllSupported(cs)
    ensures Apart(TrainsOf(cs)) <==> KeptApart(cs)
  {
    if cs != [] {
      var c, rest := cs[0], cs[1..];
      ApartExactly(rest);
      ApartFirst(c.message, c.longLeadOut, TrainsOf(rest));
      KeptFirst(c, rest);
      assert cs == [c] + rest;
    }
  }

  lemma KeptFirst(c: Call, rest: seq<Call>)
    ensures KeptApart([c] + rest) <==>
            Separated(c.message) && (rest == [] || !RunsOn(c.message)) && KeptApart(rest)
  {
    var cs := [c] + rest;
    assert cs[0] == c && forall i :: 0 <= i < |rest| ==> cs[i + 1] == rest[i];
    if KeptApart(cs) {
      forall i | 0 <= i < |rest|
        ensures Separated(rest[i].message) && (i < |rest| - 1 ==> !RunsOn(rest[i].message))
      {
        assert cs[i + 1] == rest[i];
      }
    }
  }

  // Sony and JVC have several frames; all the spaces of a message are the same.
  lemma ApartFirst(m: Message, longLeadOut: bool, bs: seq<Spaced>)
    requires Supported(m)
    ensures Apart(TrainOf(m, longLeadOut) + bs) <==> Separated(m) && (bs == [] || !RunsOn(m)) && Apart(bs)
  {
    var own := TrainOf(m, longLeadOut);
    GapExactly(m, longLeadOut);
    if bs == [] { assert own + bs == own; } else { ApartConcat(own, bs); }
    assert own[0].gap == GapBehind(m, longLeadOut);
    if m.SonyMessage? { assert own[..|own| - 1][0] == own[0]; }
  }

  lemma ApartConcat(xs: seq<Spaced>, ys: seq<Spaced>)
    requires ys != []
    ensures Apart(xs + ys) <==> AllLong(xs) && Apart(ys)
  {
    var n := |ys| - 1;
    assert (xs + ys)[..|xs| + n] == xs + ys[..n];
    AllLongConcat(xs, ys[..n]);
  }

  lemma AllLongConcat(xs: seq<Spaced>, ys: seq<Spaced>)
    ensures AllLong(xs + ys) <==> AllLong(xs) && AllLong(ys)
  {
    var all := xs + ys;
    assert forall i :: 0 <= i < |xs| ==> all[i] == xs[i];
    if AllLong(all) {
      forall i | 0 <= i < |ys| ensures ys[i].gap > FRAME_TIMEOUT { assert all[|xs| + i] == ys[i]; }
    }
  }

  // Messages sent one behind the other give the frames that were meant, and no others, exactly when
  // no long Sony message is among them and only the last may leave a short space behind it.
  lemma SendsOnTheWire(cs: seq<Call>)
    requires AllSupported(cs)
    ensures Frames(Merge(WavesOf(cs)), []) == FramesOf(AllSent(cs)) <==> KeptApart(cs)
  {
    SendsCarry(cs);
    TrainsSent(cs);
    FramesApart(TrainsOf(cs));
    ApartExactly(cs);
  }

  // --- One message ---

  // The frames of one call of a send method.
  function OnTheWire(m: Message, longLeadOut: bool): seq<seq<nat>> { Frames(Merge(WaveOf(m, longLeadOut)), []) }

  lemma OneCall(m: Message, longLeadOut: bool)
    ensures WavesOf([Call(m, longLeadOut)]) == WaveOf(m, longLeadOut) && AllSent([Call(m, longLeadOut)]) == Sent(m)
  {
    var c := Call(m, longLeadOut);
    assert [c][1..] == [];
    assert WavesOf([c]) == c.Wave() + [] == c.Wave();
    assert AllSent([c]) == Sent(m) + [] == Sent(m);
  }

  lemma OneKept(m: Message, longLeadOut: bool)
    ensures KeptApart([Call(m, longLeadOut)]) <==> Separated(m)
  {
    assert [Call(m, longLeadOut)] == [Call(m, longLeadOut)] + [];
    KeptFirst(Call(m, longLeadOut), []);
  }

  // One message has exactly the frames that were meant, unless a long Sony message fills the 45ms of
  // a frame so far that the rest of it no longer separates it from the next.
  lemma FramesOnTheWire(m: Message, longLeadOut: bool)
    requires Supported(m)
    ensures OnTheWire(m, longLeadOut) == FramesOf(Sent(m)) <==> Separated(m)
  {
    OneCall(m, longLeadOut);
    OneKept(m, longLeadOut);
    SendsOnTheWire([Call(m, longLeadOut)]);
  }

  // Whatever frame of a message a receiver records to within ten percent, the whole chain decodes it
  // to what was sent.
  lemma SentIsReceived(m: Message, longLeadOut: bool, i: nat, buf: seq<uint16>)
    requires Supported(m) && Separated(m) && |buf| >= 1
    requires i < |OnTheWire(m, longLeadOut)| && AllNear(buf[1..], OnTheWire(m, longLeadOut)[i])
    ensures i < |Sent(m)| && DecodeChain(buf) == Some(Expected(Sent(m)[i]))
  {
    FramesOnTheWire(m, longLeadOut);
    SentSupported(m, i);
    ChainDelivers(Sent(m)[i], buf);
  }
}
