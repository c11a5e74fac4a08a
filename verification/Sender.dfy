// The senders: loops that shift a payload out of a register, mark by mark and space by space.
module Sender {
  import opened Digits
  import opened Pulse
  import opened Wire
  import opened PhaseCode
  import opened PhaseRuns
  import opened Protocols
  import opened Waves

  class IRsend {
    var wave: seq<Event>    // everything emitted so far
    var extent: uint32      // the time emitted since it was last cleared
    var longLeadOut: bool
    ghost var start: int    // the time that extent does not count

    ghost predicate Valid() reads this { extent == (Total(wave) - start) % 0x1_0000_0000 }

    constructor ()
      ensures Valid() && wave == [] && longLeadOut
    {
      wave, extent, longLeadOut, start := [], 0, true, 0;
    }

    method Mark(time: uint16)
      requires Valid()
      modifies `wave, `extent
      ensures Valid() && wave == old(wave) + [Event(MARK, time)]
    {
      TotalConcat(wave, [Event(MARK, time)]);
      TotalOne(Event(MARK, time));
      ExtentGrows(Total(wave) - start, time);
      wave := wave + [Event(MARK, time)];
      extent := (extent + time) % 0x1_0000_0000;
    }

    method Space(time: uint16)
      requires Valid()
      modifies `wave, `extent
      ensures Valid() && wave == old(wave) + [Event(SPACE, time)]
    {
      TotalConcat(wave, [Event(SPACE, time)]);
      TotalOne(Event(SPACE, time));
      ExtentGrows(Total(wave) - start, time);
      wave := wave + [Event(SPACE, time)];
      extent := (extent + time) % 0x1_0000_0000;
    }

    method ClearExtent()
      modifies `extent, `start
      ensures Valid() && start == Total(wave)
    {
      extent, start := 0, Total(wave);
    }

    // space(total - extent) behind the events of body: the difference is truncated to 16 bits.
    method SpaceUpTo(total: uint32, ghost before: seq<Event>, ghost body: seq<Event>)
      requires Valid() && wave == before + body && start == Total(before)
      modifies `wave, `extent
      ensures Valid() && wave == old(wave) + [Event(SPACE, Remainder(total, body))]
    {
      TotalConcat(before, body);
      RemainderOfExtent(total, Total(body));
      var gap: int := total - extent;
      Space(gap % 0x1_0000);
    }

    // The output stays low while the processor waits; extent does not notice.
    method Delay(milliseconds: uint16)
      requires Valid()
      modifies `wave, `start
      ensures Valid() && wave == old(wave) + [Event(SPACE, milliseconds * 1000)]
    {
      TotalConcat(wave, [Event(SPACE, milliseconds * 1000)]);
      TotalOne(Event(SPACE, milliseconds * 1000));
      wave := wave + [Event(SPACE, milliseconds * 1000)];
      start := start + milliseconds * 1000;
    }

    method SendCell(one: bool, markOne: uint16, markZero: uint16, spaceOne: uint16, spaceZero: uint16)
      requires Valid()
      modifies `wave, `extent
      ensures var cell := Timing(markOne, markZero, spaceOne, spaceZero).Cell(if one then 1 else 0);
              Valid() && wave == old(wave) + cell
    {
      if one {
        Mark(markOne);
        Space(spaceOne);
      } else {
        Mark(markZero);
        Space(spaceZero);
      }
    }

    // The data loop: the top numBits bits of a 32-bit register.
    method SendBits(register: uint32, numBits: uint8,
                    markOne: uint16, markZero: uint16, spaceOne: uint16, spaceZero: uint16)
      requires Valid() && numBits <= 32
      modifies `wave, `extent
      ensures var t := Timing(markOne, markZero, spaceOne, spaceZero);
              Valid() && wave == old(wave) + Pending(register, numBits, t)
    {
      ghost var t := Timing(markOne, markZero, spaceOne, spaceZero);
      ghost var goal := wave + Pending(register, numBits, t);
      var x, i := register, 0;
      while i < numBits
        invariant 0 <= i <= numBits && Valid()
        invariant wave + Pending(x, numBits - i, t) == goal
      {
        EmitBit(wave, x, numBits - i, t);
        SendCell(TopSet(x), markOne, markZero, spaceOne, spaceZero);
        x := ShiftLeft(x);
        i := i + 1;
      }
      AllEmitted(x, t);
    }

    method SendHeader(headMark: uint16, headSpace: uint16)
      requires Valid()
      modifies `wave, `extent
      ensures Valid() && wave == old(wave) + Header(headMark, headSpace)
    {
      if headMark != 0 { Mark(headMark); }
      if headSpace != 0 { Space(headSpace); }
    }

    // sendGeneric up to the lead-out
    method SendBody(data: uint32, numBits: uint8, headMark: uint16, headSpace: uint16, markOne: uint16,
                    markZero: uint16, spaceOne: uint16, spaceZero: uint16, useStop: bool)
      requires Valid() && 1 <= numBits <= 32
      modifies `wave, `extent, `start
      ensures Valid() && start == Total(old(wave))
      ensures wave == old(wave) + GenericBody(Bits(data, numBits), headMark, headSpace,
                                              Timing(markOne, markZero, spaceOne, spaceZero), useStop)
    {
      ghost var h, t := Header(headMark, headSpace), Timing(markOne, markZero, spaceOne, spaceZero);
      ghost var d := BitEvents(Bits(data, numBits), t);
      ClearExtent();
      SendHeader(headMark, headSpace);
      LoadedBits(data, numBits);
      SendBits(Load(data, numBits), numBits, markOne, markZero, spaceOne, spaceZero);
      Assoc(old(wave), h, d);
      if useStop {
        Mark(markOne);
        Assoc(old(wave), h + d, [Event(MARK, markOne)]);
      } else {
        assert h + d + [] == h + d;
      }
    }

    method SendGeneric(data: uint32, numBits: uint8, headMark: uint16, headSpace: uint16, markOne: uint16,
                       markZero: uint16, spaceOne: uint16, spaceZero: uint16, useStop: bool, maxExtent: uint32)
      requires Valid() && 1 <= numBits <= 32
      modifies `wave, `extent, `start
      ensures Valid()
      ensures var t := Timing(markOne, markZero, spaceOne, spaceZero);
              var body := GenericBody(Bits(data, numBits), headMark, headSpace, t, useStop);
              wave == old(wave) + body + [Event(SPACE, if maxExtent != 0 then Remainder(maxExtent, body) else spaceOne)]
    {
      SendBody(data, numBits, headMark, headSpace, markOne, markZero, spaceOne, spaceZero, useStop);
      ghost var body := GenericBody(Bits(data, numBits), headMark, headSpace,
                                    Timing(markOne, markZero, spaceOne, spaceZero), useStop);
      if maxExtent != 0 { SpaceUpTo(maxExtent, old(wave), body); } else { Space(spaceOne); }
    }

    method SendNEC(data: uint32)
      requires Valid()
      modifies `wave, `extent, `start
      ensures Valid() && wave == old(wave) + NECWave(data)
    {
      if data == REPEAT_CODE {
        SendNECDitto();
      } else {
        SendNECData(data);
      }
    }

    method SendNECData(data: uint32)
      requires Valid() && data != REPEAT_CODE
      modifies `wave, `extent, `start
      ensures Valid()
      ensures var frame := Frame(NECMessage(data));
              wave == old(wave) + PulseWave(frame, [Remainder(108000, Alternate(frame, MARK))])
    {
      SendGeneric(data, 32, 564 * 16, 564 * 8, 564, 564, 564 * 3, 564, true, 108000);
      NECBody(data);
      SilenceOne(Remainder(108000, Alternate(Frame(NECMessage(data)), MARK)));
    }

    method SendNECDitto()
      requires Valid()
      modifies `wave, `extent, `start
      ensures Valid() && wave == old(wave) + PulseWave([564 * 16, 564 * 4, 564], [572, 97000])
    {
      Mark(564 * 16);
      Space(564 * 4);
      Mark(564);
      Space(572);
      Delay(97);
      DittoWave(564 * 16, 564 * 4, 564, 572, 97000);
    }

    // One frame of a protocol that adds nothing to sendGeneric.
    method SendPlain(data: uint32, numBits: uint8, headMark: uint16, headSpace: uint16,
                     mark: uint16, one: uint16, zero: uint16, ghost f: Format)
      requires Valid() && 1 <= numBits <= 32
      requires f.alphabet == PulseDistance(mark, one, zero) && f.tail == [Unchecked(mark)]
      requires f.head == (if headMark == 0 then [] else [Percent(headMark), Percent(headSpace)])
               && (headMark == 0 <==> headSpace == 0)
      modifies `wave, `extent, `start
      ensures Valid() && wave == old(wave) + PulseWave(Nominal(FramePattern(f, Bits(data, numBits))), [one])
    {
      SendGeneric(data, numBits, headMark, headSpace, mark, mark, one, zero, true, 0);
      GenericFrame(f, Bits(data, numBits), headMark, headSpace, mark, one, zero);
      SilenceOne(one);
    }

    method SendPanasonicOld(data: uint32)
      requires Valid()
      modifies `wave, `extent, `start
      ensures Valid() && wave == old(wave) + PulseWave(Frame(PanasonicOldMessage(data)), [833 * 3])
    {
      SendPlain(data, 22, 833 * 4, 833 * 4, 833, 833 * 3, 833, PanasonicOldFormat());
    }

    method SendCYKM(data: uint32)
      requires Valid()
      modifies `wave, `extent, `start
      ensures Valid() && wave == old(wave) + PulseWave(Frame(CYKMMessage(data)), [650 * 3, 10000])
    {
      SendPlain(data, 15, 3100, 3100, 650, 650 * 3, 650, CYKMFormat());
      Delay(10);
      LongerWave(old(wave), Frame(CYKMMessage(data)), 650 * 3, 10000);
    }

    method SendNECxRepeat()
      requires Valid()
      modifies `wave, `extent, `start
      ensures Valid() && wave == old(wave) + PulseWave([564 * 8, 564 * 8, 564, 564, 564], [412, 98000])
    {
      SendHeader(564 * 8, 564 * 8);
      Mark(564);
      Space(564);
      Mark(564);
      Space(412);
      Delay(98);
      NECxRepeatWave();
    }

    method SendNECx(data: uint32)
      requires Valid()
      modifies `wave, `extent, `start
      ensures Valid() && wave == old(wave) + NECxWave(data)
    {
      if data == REPEAT_CODE {
        SendNECxRepeat();
      } else {
        SendPlain(data, 32, 564 * 8, 564 * 8, 564, 564 * 3, 564, NECxFormat());
      }
    }

    method SendGICable(data: uint32)
      requires Valid()
      modifies `wave, `extent, `start
      ensures Valid() && wave == old(wave) + GICableWave(data)
    {
      if data == REPEAT_CODE {
        SendGICableDitto();
      } else {
        SendPlain(data, 16, 490 * 18, 490 * 9, 490, 490 * 9, 2205, GICableFormat());
        Space(37 * 490);
        LongerWave(old(wave), Frame(GICableMessage(data)), 490 * 9, 37 * 490);
      }
    }

    method SendGICableDitto()
      requires Valid()
      modifies `wave, `extent, `start
      ensures Valid() && wave == old(wave) + PulseWave([490 * 18, 2205, 490], [220, 87000])
    {
      Mark(490 * 18);
      Space(2205);
      Mark(490);
      Space(220);
      Delay(87);
      DittoWave(490 * 18, 2205, 490, 220, 87000);
    }

    method SendJVCFrame(data: uint32, first: bool)
      requires Valid()
      modifies `wave, `extent, `start
      ensures Valid() && wave == old(wave) + JVCWave(data, first)
    {
      if first {
        SendPlain(data, 16, 525 * 16, 525 * 8, 525, 525 * 3, 525, JVCFormat());
      } else {
        SendPlain(data, 16, 0, 0, 525, 525 * 3, 525, JVCRepeatFormat());
      }
      Space(525 * 45);
      LongerWave(old(wave), Frame(JVCMessage(data, first)), 525 * 3, 525 * 45);
    }

    method SendJVC(data: uint32, first: bool)
      requires Valid()
      modifies `wave, `extent, `start
      ensures Valid() && wave == old(wave) + (JVCWave(data, first) + (if first then JVCWave(data, false) else []))
    {
      ghost var once := JVCWave(data, first);
      ghost var again := JVCWave(data, false);
      SendJVCFrame(data, first);
      if first {
        SendJVCFrame(data, false);
        Assoc(old(wave), once, again);
      }
    }

    // One of the three frames of a Sony message.
    method SendSonyOnce(data: uint32, nbits: uint8)
      requires Valid() && 1 <= nbits <= 32
      modifies `wave, `extent, `start
      ensures Valid()
      ensures wave == old(wave) + SonyOnce(data, nbits)
    {
      SendGeneric(data, nbits, 600 * 4, 600, 600 * 2, 600, 600, 600, false, 45000);
      SonyGeneric(data, nbits);
    }

    method SendSony(data: uint32, nbits: uint8)
      requires Valid() && 1 <= nbits <= 32
      modifies `wave, `extent, `start
      ensures Valid() && wave == old(wave) + Copies(SonyOnce(data, nbits), 3)
    {
      ghost var once := SonyOnce(data, nbits);
      var i := 0;
      while i < 3
        invariant 0 <= i <= 3 && Valid() && wave == old(wave) + Copies(once, i)
      {
        SendSonyOnce(data, nbits);
        Assoc(old(wave), Copies(once, i), once);
        i := i + 1;
      }
    }

    // One phase-coded bit.
    method SendPhaseCell(markFirst: bool, t: uint16)
      requires Valid()
      modifies `wave, `extent
      ensures Valid()
      ensures wave == old(wave) + (if markFirst then [Event(MARK, t), Event(SPACE, t)]
              else [Event(SPACE, t), Event(MARK, t)])
    {
      if markFirst {
        Mark(t);
        Space(t);
      } else {
        Space(t);
        Mark(t);
      }
    }

    method SendRC5Bits(register: uint32, n: uint8)
      requires Valid() && n <= 32
      modifies `wave, `extent
      ensures Valid() && wave == old(wave) + RC5Pending(register, n, 0)
    {
      ghost var goal := wave + RC5Pending(register, n, 0);
      var x, i := register, 0;
      while i < n
        invariant 0 <= i <= n && Valid()
        invariant wave + RC5Pending(x, n - i, i) == goal
      {
        RC5Step(wave, x, n - i, i);
        SendRC5Cell(x, i);
        assert wave + RC5Pending(ShiftLeft(x), n - i - 1, i + 1) == goal;
        x := ShiftLeft(x);
        i := i + 1;
      }
      RC5Done(x, i);
    }

    method SendRC5Cell(x: uint32, ghost i: nat)
      requires Valid()
      modifies `wave, `extent
      ensures Valid() && wave == old(wave) + PhaseCell(RC5Code, TopBitOf(x), i, 889)
    {
      RC5CellEvents(x, i);
      SendPhaseCell(!TopSet(x), 889);
    }

    method SendRC5(data: uint32, nBits: uint8)
      requires Valid() && nBits <= 32
      modifies `wave, `extent, `start
      ensures Valid() && wave == old(wave) + RC5Wave(data, if nBits == 0 then 13 else nBits)
    {
      var n := if nBits == 0 then 13 else nBits;
      LoadedBits(data, n);
      ClearExtent();
      Mark(889);
      SendRC5Bits(Load(data, n), n);
      ghost var body := Scale(RC5Units(data, n), 889);
      RC5Start(data, n);
      Assoc(old(wave), [Event(MARK, 889)], Scale(PhaseUnits(RC5Code, Bits(data, n), 0), 889));
      SpaceUpTo(114000, old(wave), body);
      Assoc(old(wave), body, [Event(SPACE, Remainder(114000, body))]);
    }

    method SendRC6Bits(register: uint64, n: uint8)
      requires Valid() && n <= 64
      modifies `wave, `extent
      ensures Valid() && wave == old(wave) + RC6Pending(register, n, 0)
    {
      ghost var goal := wave + RC6Pending(register, n, 0);
      var x, i := register, 0;
      while i < n
        invariant 0 <= i <= n && Valid()
        invariant wave + RC6Pending(x, n - i, i) == goal
      {
        var t := if i == 3 then 2 * 444 else 444;
        RC6Step(wave, x, n - i, i);
        RC6CellEvents(x, i, t);
        SendPhaseCell(TopSet64(x), t);
        x := ShiftLeft64(x);
        i := i + 1;
      }
      RC6Done(x, i);
    }

    method SendRC6(data: uint32, nBits: uint8)
      requires Valid() && nBits <= 64
      modifies `wave, `extent, `start
      ensures Valid() && wave == old(wave) + RC6Wave(data, if nBits == 0 then 16 else nBits)
    {
      var asked := if nBits == 0 then 16 else nBits;
      var bigData: nat, n := data, asked;
      if n == 32 {
        bigData := bigData + 0xC_0000_0000;
        n := 36;
      }
      SendRC6Frame(bigData, n, data, asked);
    }

    method SendRC6Frame(bigData: nat, n: uint8, ghost data: uint32, ghost asked: nat)
      requires Valid() && n <= 64 && Bits(bigData, n) == RC6Bits(data, asked)
      modifies `wave, `extent, `start
      ensures Valid() && wave == old(wave) + RC6Wave(data, asked)
    {
      ClearExtent();
      SendHeader(2666, 889);
      SendPhaseCell(true, 444);
      SendRC6Bits(Load64(bigData, n), n);
      ghost var body, bits := RC6Body(data, asked), Scale(PhaseUnits(RC6Code, RC6Bits(data, asked), 0), 444);
      RC6Start(data, asked);
      Assoc(old(wave), Header(2666, 889), [Event(MARK, 444), Event(SPACE, 444)]);
      Assoc(old(wave), RC6Opening(), bits);
      SpaceUpTo(107000, old(wave), body);
      Assoc(old(wave), body, [Event(SPACE, Remainder(107000, body))]);
    }

    method SendSamsung36Address(address: uint32)
      requires Valid()
      modifies `wave, `extent
      ensures Valid() && wave == old(wave) + Samsung36Address(address)
    {
      ghost var bits := BitEvents(Bits(address, 16), Samsung36Timing());
      LoadedBits(address, 16);
      SendHeader(500 * 9, 500 * 9);
      SendBits(Load(address, 16), 16, 500, 500, 500 * 3, 500);
      Assoc(old(wave), Header(4500, 4500), bits);
      SendHeader(500, 500 * 9);
      Assoc(old(wave), Header(4500, 4500) + bits, Header(500, 4500));
    }

    method SendSamsung36(data: uint32, address: uint32)
      requires Valid()
      modifies `wave, `extent
      ensures Valid() && wave == old(wave) + Samsung36Wave(data, address)
    {
      Samsung36Registers(data);
      SendSamsung36Address(address);
      SendBits(Load(data, 20), 12, 500, 500, 500 * 3, 500);
      ghost var early, late := Samsung36Early(data, address), Samsung36Late(data);
      Assoc(old(wave), Samsung36Address(address), BitEvents(Bits(data, 20)[..12], Samsung36Timing()));
      assert wave == old(wave) + early;
      Space(68);
      Assoc(old(wave), early, [Event(SPACE, 68)]);
      SendBits(ShiftLeft12(Load(data, 20)), 8, 500, 500, 500 * 3, 500);
      Mark(500);
      Assoc(old(wave) + (early + [Event(SPACE, 68)]), BitEvents(Bits(data, 20)[12..], Samsung36Timing()),
          [Event(MARK, 500)]);
      Assoc(old(wave), early + [Event(SPACE, 68)], late);
      Space(118 * 500);
      Assoc(old(wave), early + [Event(SPACE, 68)] + late, [Event(SPACE, 59000)]);
      Samsung36Events(data, address);
    }

    method SendDirecTV(data: uint32, first: bool)
      requires Valid()
      modifies `wave, `extent
      ensures Valid() && wave == old(wave) + DirecTVWave(data, first, longLeadOut)
    {
      if first { Mark(6000); } else { Mark(3000); }
      Space(1200);
      ghost var header := [Event(MARK, if first then 6000 else 3000), Event(SPACE, 1200)];
      assert wave == old(wave) + header;
      SendDirecTVBits(data);
      ghost var bits := Alternate(DirecTVTimes(Bits(data, 16)), MARK);
      Assoc(old(wave), header, bits);
      Mark(600);
      Assoc(old(wave), header + bits, [Event(MARK, 600)]);
      Space(if longLeadOut then 50 * 600 else 15 * 600);
      DirecTVEvents(data, first, longLeadOut);
      Assoc(old(wave), header + bits + [Event(MARK, 600)], [Event(SPACE, if longLeadOut then 30000 else 9000)]);
    }

    method SendDirecTVBits(data: uint32)
      requires Valid()
      modifies `wave, `extent
      ensures Valid() && wave == old(wave) + Alternate(DirecTVTimes(Bits(data, 16)), MARK)
    {
      ghost var n, goal := 16, wave + Alternate(DirecTVTimes(Bits(data, 16)), MARK);
      var x, i := data, 0;
      DirecTVStart(data, n);
      while i < 8
        invariant 0 <= i <= 8 && Valid() && n == 16 - 2 * i
        invariant wave + DirecTVPending(x, n) == goal
      {
        x := SendTwoBits(x, n, goal);
        i, n := i + 1, n - 2;
      }
      DirecTVDone(x);
    }

    // The top two of n bits that are left in the register.
    method SendTwoBits(x: uint32, ghost n: nat, ghost goal: seq<Event>) returns (rest: uint32)
      requires Valid() && n >= 2 && wave + DirecTVPending(x, n) == goal
      modifies `wave, `extent
      ensures Valid() && wave + DirecTVPending(rest, n - 2) == goal
    {
      var y := ShiftLeft(x);
      DirecTVStep(wave, x, n);
      SendDirecTVCell(Bit15(x), Bit15(y));
      rest := ShiftLeft(y);
    }

    method SendDirecTVCell(x: nat, y: nat)
      requires Valid()
      modifies `wave, `extent
      ensures Valid() && wave == old(wave) + DirecTVCell(x, y)
    {
      Mark(DirecTVTime(x));
      Space(DirecTVTime(y));
    }

    method SendRCMM(data: uint32, nBits: uint8)
      requires Valid() && nBits <= 32
      modifies `wave, `extent, `start
      ensures Valid() && wave == old(wave) + RCMMWave(data, if nBits == 0 then 12 else nBits)
    {
      var n: uint8 := if nBits == 0 then 12 else nBits;
      ghost var frame := Alternate(Frame(RCMMMessage(data, n)), MARK);
      ClearExtent();
      SendRCMMFrame(data, n);
      SpaceUpTo(27778, old(wave), frame);
      SilenceOne(Remainder(27778, frame));
      Assoc(old(wave), frame, [Event(SPACE, Remainder(27778, frame))]);
    }

    method SendRCMMFrame(data: uint32, n: uint8)
      requires Valid() && n <= 32
      modifies `wave, `extent
      ensures Valid() && wave == old(wave) + Alternate(Frame(RCMMMessage(data, n)), MARK)
    {
      ghost var events := RCMMEvents(RCMMDigits(data, n));
      RCMMFrame(data, n);
      SendHeader(417, 278);
      SendRCMMPayload(data, n);
      Assoc(old(wave), Header(417, 278), events);
      Mark(167);
      Assoc(old(wave), Header(417, 278) + events, [Event(MARK, 167)]);
    }

    method SendRCMMPayload(data: uint32, n: uint8)
      requires Valid() && n <= 32
      modifies `wave, `extent
      ensures Valid() && wave == old(wave) + RCMMEvents(RCMMDigits(data, n))
    {
      LoadedDigits(data, n);
      SendRCMMDigits(Load(data, n), n / 2);
    }

    method SendRCMMDigits(register: uint32, n: uint8)
      requires Valid() && n <= 16
      modifies `wave, `extent
      ensures Valid() && wave == old(wave) + RCMMPending(register, n)
    {
      ghost var goal := wave + RCMMPending(register, n);
      var x, i := register, 0;
      while i < n
        invariant 0 <= i <= n && Valid()
        invariant wave + RCMMPending(x, n - i) == goal
      {
        RCMMStep(wave, x, n - i);
        SendRCMMDigit(TopTwo(x));
        x := ShiftLeft2(x);
        i := i + 1;
      }
      RCMMDone(x);
    }

    method SendRCMMDigit(digit: nat)
      requires Valid() && digit < 4
      modifies `wave, `extent
      ensures Valid() && wave == old(wave) + RCMMCell(digit)
    {
      Mark(167);
      match digit {
        case 0 => Space(278);
        case 1 => Space(444);
        case 2 => Space(611);
        case _ => Space(778);
      }
    }

    // The dispatch of IRLibCombo.h. The carrier frequency is not modelled.
    method Send(protocolNum: uint8, data: uint32, data2: uint16)
      requires Valid() && (MessageFor(protocolNum, data, data2).Some?
               ==> Shiftable(MessageFor(protocolNum, data, data2).value))
      modifies `wave, `extent, `start
      ensures Valid()
      ensures match MessageFor(protocolNum, data, data2)
              case Some(m) => wave == old(wave) + WaveOf(m, longLeadOut)
              case None => wave == old(wave)
    {
      ghost var m := MessageFor(protocolNum, data, data2);
      ghost var es := if m.Some? then WaveOf(m.value, longLeadOut) else [];
      MeantFor(protocolNum, data, data2, longLeadOut);
      WidthFitsFor(protocolNum, data, data2);
      Dispatch(protocolNum, data, data2, es);
    }

    method Dispatch(protocolNum: uint8, data: uint32, data2: uint16, ghost es: seq<Event>)
      requires Valid() && Meant(protocolNum, data, data2, longLeadOut, es)
      requires WidthFits(protocolNum, data2 % 0x100)
      modifies `wave, `extent, `start
      ensures Valid() && wave == old(wave) + es
    {
      match protocolNum {
        case 1 => SendNEC(data);
        case 2 => SendSony(data, data2 % 0x100);
        case 3 => SendRC5(data, data2 % 0x100);
        case 4 => SendRC6(data, data2 % 0x100);
        case 5 => SendPanasonicOld(data);
        case 6 => SendJVC(data, data2 != 0);
        case 7 => SendNECx(data);
        case 8 => SendSamsung36(data, data2);
        case 9 => SendGICable(data);
        case 10 => SendDirecTV(data, data2 != 0);
        case 11 => SendRCMM(data, data2 % 0x100);
        case 12 => SendCYKM(data);
        case _ =>
      }
    }
  }
}
