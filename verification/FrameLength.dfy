// How long a frame takes. NEC, Sony, RC-MM, RC5 and RC6 fill a frame up to a fixed length, but space()
// takes 16 bits: where more than 65535us are missing, the frame ends 65536us early.
module FrameLength {
  import opened Digits
  import opened Wire
  import opened PhaseCode
  import opened PhaseRuns
  import opened Protocols
  import opened Waves
  import opened Transmission

  lemma {:induction false} TotalScaled(us: seq<Event>, t1: nat, n: nat)
    requires n <= |us|
    ensures TotalUpTo(Scale(us, t1), n) == TotalUpTo(us, n) * t1
    decreases n
  {
    if n > 0 {
      TotalScaled(us, t1, n - 1);
      SumTimes(TotalUpTo(us, n - 1), us[n - 1].time, t1);
    }
  }

  // The half-bits of the bits from number i on: the trailer of RC6 counts twice.
  lemma {:induction false} TotalUnits(k: Kind, bits: seq<nat>, i: nat)
    ensures Total(PhaseUnits(k, bits, i)) == 2 * |bits| + if k.RC6Code? && i <= 3 < i + |bits| then 2 else 0
    decreases |bits|
  {
    if bits != [] {
      var w, first := HalfWidth(k, i), FirstLevel(k, bits[0]);
      var x, y := Event(first, w), Event(Opposite(first), w);
      TotalUnits(k, bits[1..], i + 1);
      TotalTwo(x, y);
      TotalConcat([x, y], PhaseUnits(k, bits[1..], i + 1));
    }
  }

  // A frame filled up to total: it is as long as was asked for exactly when the space fits 16 bits.
  lemma FilledUp(body: seq<Event>, total: nat)
    requires Total(body) <= total < 0x2_0000
    ensures Total(body + [Event(SPACE, Remainder(total, body))])
            == if total - Total(body) < 0x1_0000 then total else total - 0x1_0000
  {
    TotalConcat(body, [Event(SPACE, Remainder(total, body))]);
    TotalOne(Event(SPACE, Remainder(total, body)));
  }

  lemma RC5BodyTotal(d: uint32, n: nat)
    ensures Total(Scale(RC5Units(d, n), 889)) == 889 * (2 * n + 1)
  {
    var units := RC5Units(d, n);
    TotalOne(Event(MARK, 1));
    TotalConcat([Event(MARK, 1)], PhaseUnits(RC5Code, Bits(d, n), 0));
    TotalUnits(RC5Code, Bits(d, n), 0);
    TotalScaled(units, 889, |units|);
  }

  lemma RC5Length(d: uint32, n: nat)
    requires n <= 32
    ensures Total(RC5Wave(d, n)) == if n >= 27 then 114000 else 114000 - 0x1_0000
  {
    RC5BodyTotal(d, n);
    FilledUp(Scale(RC5Units(d, n), 889), 114000);
  }

  lemma RC6BodyTotal(d: uint32, n: nat)
    ensures var bits := RC6Bits(d, n); Total(RC6Body(d, n)) == 3555 + 444 * (2 * |bits| + if |bits| > 3 then 4 else 2)
  {
    var units, bits := RC6Units(d, n), RC6Bits(d, n);
    TotalTwo(Event(MARK, 1), Event(SPACE, 1));
    TotalConcat([Event(MARK, 1), Event(SPACE, 1)], PhaseUnits(RC6Code, bits, 0));
    TotalUnits(RC6Code, bits, 0);
    TotalScaled(units, 444, |units|);
    TotalTwo(Event(MARK, 2666), Event(SPACE, 889));
    TotalConcat([Event(MARK, 2666), Event(SPACE, 889)], Scale(units, 444));
  }

  // Only RC6 frames of 41 bits and more are 107ms long.
  lemma RC6Length(d: uint32, n: nat)
    requires n <= 64
    ensures Total(RC6Wave(d, n)) == if n >= 41 then 107000 else 107000 - 0x1_0000
  {
    RC6BodyTotal(d, n);
    FilledUp(RC6Body(d, n), 107000);
  }

  lemma NECBodyTotal(d: uint32)
    requires d != REPEAT_CODE
    ensures Total(Alternate(Frame(NECMessage(d)), MARK)) == 50196 + 1128 * Ones(Bits(d, 32))
  {
    var bits, t := Bits(d, 32), Timing(564, 564, 1692, 564);
    GenericFrame(NECFormat(), bits, 9024, 4512, 564, 1692, 564);
    TotalThree(Header(9024, 4512), BitEvents(bits, t), [Event(MARK, 564)]);
    HeaderTotal(9024, 4512);
    NECBitsTotal(bits);
    TotalOne(Event(MARK, 564));
  }

  lemma {:induction false} NECBitsTotal(bits: seq<nat>)
    ensures Total(BitEvents(bits, Timing(564, 564, 1692, 564))) == 1128 * |bits| + 1128 * Ones(bits)
  {
    if bits != [] {
      var t, rest := Timing(564, 564, 1692, 564), bits[1..];
      var cell := t.Cell(bits[0]);
      NECBitsTotal(rest);
      TotalTwo(cell[0], cell[1]);
      TotalConcat(cell, BitEvents(rest, t));
    }
  }

  // Every NEC data frame is 108ms long and every Sony frame 45ms, whatever the payload.
  lemma NECLength(d: uint32)
    requires d != REPEAT_CODE
    ensures Total(NECWave(d)) == 108000
  {
    var body := Alternate(Frame(NECMessage(d)), MARK);
    NECBodyTotal(d);
    OnesBound(Bits(d, 32));
    FilledUp(body, 108000);
    SilenceOne(Remainder(108000, body));
  }

  // The ditto, which is documented to be as long, lasts 109416us.
  lemma NECDittoLength()
    ensures Total(NECWave(REPEAT_CODE)) == 109416
  {
    DittoWave(9024, 2256, 564, 572, 97000);
    FiveTotal(Event(MARK, 9024), Event(SPACE, 2256), Event(MARK, 564), Event(SPACE, 572), Event(SPACE, 97000));
  }

  lemma FiveTotal(a: Event, b: Event, c: Event, d: Event, e: Event)
    ensures Total([a, b, c, d, e]) == a.time + b.time + c.time + d.time + e.time
  {
    TotalThree([a, b], [c, d], [e]);
    TotalTwo(a, b);
    TotalTwo(c, d);
    TotalOne(e);
    assert [a, b, c, d, e] == [a, b] + [c, d] + [e];
  }

  // NECx data frames are documented to last 108ms as well, and none does: nothing fills them up.
  lemma NECxLength(d: uint32)
    requires d != REPEAT_CODE
    ensures Total(NECxWave(d)) == 47376 + 1128 * Ones(Bits(d, 32)) < 108000
  {
    var bits, t := Bits(d, 32), Timing(564, 564, 1692, 564);
    var body := Alternate(Frame(NECxMessage(d)), MARK);
    GenericFrame(NECxFormat(), bits, 4512, 4512, 564, 1692, 564);
    TotalThree(Header(4512, 4512), BitEvents(bits, t), [Event(MARK, 564)]);
    HeaderTotal(4512, 4512);
    NECBitsTotal(bits);
    TotalOne(Event(MARK, 564));
    OnesBound(bits);
    SilenceOne(1692);
    TotalConcat(body, [Event(SPACE, 1692)]);
    TotalOne(Event(SPACE, 1692));
  }

  lemma SonyLength(d: uint32, n: uint8)
    requires Supported(SonyMessage(d, n))
    ensures Total(SonyOnce(d, n)) == 45000
  {
    SonyTotal(d, n);
    OnesBound(Bits(d, n));
    FilledUp(SonyBody(d, n), 45000);
  }

  // Every RC-MM frame is 27778us long.
  lemma RCMMLength(d: uint32, n: uint8)
    requires n <= 32
    ensures Total(RCMMWave(d, n)) == 27778
  {
    var digits := RCMMDigits(d, n);
    var body := Header(417, 278) + RCMMEvents(digits) + [Event(MARK, 167)];
    RCMMFrame(d, n);
    RCMMBodyTotal(digits);
    assert |digits| <= 16;
    FilledUp(body, 27778);
    SilenceOne(Remainder(27778, body));
  }

  lemma RCMMBodyTotal(digits: seq<nat>)
    ensures Total(Header(417, 278) + RCMMEvents(digits) + [Event(MARK, 167)]) <= 862 + 945 * |digits|
  {
    TotalThree(Header(417, 278), RCMMEvents(digits), [Event(MARK, 167)]);
    HeaderTotal(417, 278);
    RCMMTotal(digits);
    TotalOne(Event(MARK, 167));
  }

  lemma {:induction false} RCMMTotal(digits: seq<nat>)
    ensures Total(RCMMEvents(digits)) <= 945 * |digits|
  {
    if digits != [] {
      var cell := RCMMCell(digits[0]);
      RCMMTotal(digits[1..]);
      TotalTwo(cell[0], cell[1]);
      TotalConcat(cell, RCMMEvents(digits[1..]));
    }
  }
}
