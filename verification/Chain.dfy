// The decoder chain of IRLibCombo.h: which decoders can claim the same buffer, and why every
// supported message reaches its own decoder.
module Chain {
  import opened Digits
  import opened Pulse
  import opened Wire
  import opened PhaseCode
  import opened Protocols
  import opened RoundTrip

  // --- What an accepted buffer looks like ---

  lemma PulseShape(f: Format, buf: seq<uint16>, length: nat)
    requires DecodePulse(f, buf, length).Some?
    ensures |buf| == length >= 1 + |f.head| + |f.tail|
    ensures forall i :: 0 <= i < |f.head| ==> Within(buf[1 + i], f.head[i])
  {
    var head := buf[1..1 + |f.head|];
    forall i | 0 <= i < |f.head| ensures Within(buf[1 + i], f.head[i]) { assert head[i] == buf[1 + i]; }
  }

  lemma RC5Shape(buf: seq<uint16>)
    requires DecodeRC5(buf).Some?
    ensures |buf| >= 13 && 666 <= Int16(buf[1]) <= 2222 && 666 <= Int16(buf[3])
  {
    var ls := Levels(buf, 1, 889);
    var bits := DecodePhase(RC5Code, [MARK], ls).value;
    assert Cell(ls, 1)[0] == MARK;
    PhaseSound(RC5Code, ls, [MARK], bits);
    AllReadable(buf, 1, 889);
    var full := [MARK] + Encode(RC5Code, bits, 0);
    assert bits != [] && full[1] == Code(RC5Code, 0, bits[0])[0] && full[2] == Code(RC5Code, 0, bits[0])[1];
    assert ls[1] == full[1] && ls[2] == full[2];
    assert Units(buf[1], 889) < 3 && Units(buf[3], 889) > 0;
  }

  lemma RC6Shape(buf: seq<uint16>)
    requires DecodeRC6(buf).Some?
    ensures 23 <= |buf| <= 77 && Match(buf[1], 2666) && Match(buf[2], 889) && Match(buf[3], 444)
  {
    var ls, u := Levels(buf, 3, 444), Units(buf[3], 444);
    assert Cell(ls, 2)[0] == MARK && Cell(ls, 2)[1] == SPACE;
    if u == 1 { assert ls == Repeat(MARK, 1) + Levels(buf, 4, 444); }
  }

  predicate Between(lo: int, v: uint16, hi: int) { lo <= Int16(v) <= hi }

  // Length and first intervals of the buffers that decoder p accepts.
  predicate Shape(p: uint8, buf: seq<uint16>) {
    var n := |buf|;
    n >= 3 &&
    var mark, space := buf[1], buf[2];
    match p
    case 1 => (n == 68 || n == 4) && Between(6768, mark, 11280)
    case 2 => (n == 18 || n == 26 || n == 32 || n == 42)
    case 3 => n >= 13 && Between(666, mark, 2222) && Between(666, buf[3], 0x7fff)
    case 4 => 23 <= n <= 77 && Between(1999, mark, 3332) && Between(666, space, 1111) && Between(333, buf[3], 555)
    case 5 => n == 48 && Between(2499, mark, 4165) && Between(2499, space, 4165)
    case 6 => (n == 36 && Between(6300, mark, 10500)) || (n == 34 && Between(393, mark, 656))
    case 7 => (n == 68 || n == 6) && Between(3384, mark, 5640)
    case 8 => n == 78 && Between(3375, mark, 5625)
    case 9 => (n == 36 || n == 4) && Between(6615, mark, 11025)
    case 10 => n == 20 && Between(2250, mark, 7500)
    case 11 => (n == 16 || n == 28 || n == 36) && Between(312, mark, 521)
    case 12 => n == 34 && Between(2325, mark, 3875) && Between(2325, space, 3875)
    case _ => false
  }

  lemma JVCRepeatShape(buf: seq<uint16>)
    requires DecodePulse(JVCRepeatFormat(), buf, 34).Some?
    ensures |buf| == 34 && Match(buf[1], 525)
  {
    var a := JVCRepeatFormat().alphabet;
    var cell := buf[1..33][..2];
    var s := SymbolOf(cell, a.codes).value;
    assert Within(cell[0], a.codes[s][0]);
  }

  lemma PlainShape(headMark: nat, headSpace: nat, mark: nat, one: nat, zero: nat, buf: seq<uint16>, length: nat)
    requires DecodePulse(Generic(headMark, headSpace, mark, one, zero), buf, length).Some?
    ensures |buf| == length >= 4 && Match(buf[1], headMark) && Match(buf[2], headSpace)
  {
    var f := Generic(headMark, headSpace, mark, one, zero);
    PulseShape(f, buf, length);
    assert Within(buf[1 + 0], f.head[0]) && Within(buf[1 + 1], f.head[1]);
  }

  lemma NECShape(buf: seq<uint16>)
    ensures DecodeNEC(buf).Some? ==> Shape(NEC, buf)
  {
    if DecodePulse(NECFormat(), buf, 68).Some? { PlainShape(564 * 16, 564 * 8, 564, 564 * 3, 564, buf, 68); }
  }

  lemma NECxShape(buf: seq<uint16>)
    ensures DecodeNECx(buf).Some? ==> Shape(NECX, buf)
  {
    if DecodePulse(NECxFormat(), buf, 68).Some? { PlainShape(564 * 8, 564 * 8, 564, 564 * 3, 564, buf, 68); }
  }

  lemma PanasonicOldShape(buf: seq<uint16>)
    ensures DecodePanasonicOld(buf).Some? ==> Shape(PANASONIC_OLD, buf)
  {
    if DecodePanasonicOld(buf).Some? { PlainShape(833 * 4, 833 * 4, 833, 833 * 3, 833, buf, 48); }
  }

  lemma GICableShape(buf: seq<uint16>)
    ensures DecodeGICable(buf).Some? ==> Shape(GICABLE, buf)
  {
    if DecodePulse(GICableFormat(), buf, 36).Some? { PlainShape(490 * 18, 490 * 9, 490, 490 * 9, 2205, buf, 36); }
  }

  lemma CYKMShape(buf: seq<uint16>)
    ensures DecodeCYKM(buf).Some? ==> Shape(CYKM, buf)
  {
    if DecodeCYKM(buf).Some? { PlainShape(3100, 3100, 650, 650 * 3, 650, buf, 34); }
  }

  lemma GenericShape(buf: seq<uint16>)
    ensures DecodeNEC(buf).Some? ==> Shape(NEC, buf)
    ensures DecodePanasonicOld(buf).Some? ==> Shape(PANASONIC_OLD, buf)
    ensures DecodeNECx(buf).Some? ==> Shape(NECX, buf)
    ensures DecodeGICable(buf).Some? ==> Shape(GICABLE, buf)
    ensures DecodeCYKM(buf).Some? ==> Shape(CYKM, buf)
  {
    NECShape(buf);
    PanasonicOldShape(buf);
    NECxShape(buf);
    GICableShape(buf);
    CYKMShape(buf);
  }

  lemma JVCShape(buf: seq<uint16>)
    ensures DecodeJVC(buf).Some? ==> Shape(JVC, buf)
  {
    if DecodePulse(JVCFormat(), buf, 36).Some? { PulseShape(JVCFormat(), buf, 36); }
    if DecodePulse(JVCRepeatFormat(), buf, 34).Some? { JVCRepeatShape(buf); }
  }

  lemma DirecTVShape(buf: seq<uint16>)
    ensures DecodeDirecTV(buf).Some? ==> Shape(DIRECTV, buf)
  {
    if DecodePulse(DirecTVFormat(false), buf, 20).Some? { PulseShape(DirecTVFormat(false), buf, 20); }
    if DecodePulse(DirecTVFormat(true), buf, 20).Some? { PulseShape(DirecTVFormat(true), buf, 20); }
  }

  lemma CustomShape(buf: seq<uint16>)
    ensures DecodeSamsung36(buf).Some? ==> Shape(SAMSUNG36, buf)
    ensures DecodeRCMM(buf).Some? ==> Shape(RCMM, buf)
  {
    if DecodeSamsung36(buf).Some? { assert Within(buf[1..3][0], Percent(4500)); }
    if DecodeRCMM(buf).Some? { PulseShape(RCMMFormat(), buf, |buf|); }
  }

  lemma AcceptedShape(p: uint8, buf: seq<uint16>)
    requires DecodeBy(p, buf).Some?
    ensures Shape(p, buf)
  {
    GenericShape(buf);
    JVCShape(buf);
    DirecTVShape(buf);
    CustomShape(buf);
    if p == RC5 { RC5Shape(buf); }
    if p == RC6 { RC6Shape(buf); }
  }

  // The pairs of decoders whose timing windows overlap.
  predicate Rivals(p: uint8, q: uint8) {
    (p == SONY && (q == RC5 || q == RC6)) || (q == GICABLE && (p == NEC || p == JVC))
  }

  // No buffer at all is accepted by two decoders, but for the rivals.
  lemma AtMostOneDecoder(buf: seq<uint16>, p: uint8, q: uint8)
    requires p < q && DecodeBy(p, buf).Some? && DecodeBy(q, buf).Some?
    ensures Rivals(p, q)
  {
    AcceptedShape(p, buf);
    AcceptedShape(q, buf);
  }

  // The chain stops at the first decoder that accepts.
  lemma {:induction false} ChainStops(p: uint8, q: uint8, buf: seq<uint16>)
    requires p <= q && DecodeBy(q, buf).Some?
    requires forall r: uint8 :: p <= r < q ==> DecodeBy(r, buf).None?
    ensures ChainFrom(p, buf) == DecodeBy(q, buf)
    decreases q - p
  {
    if p < q { ChainStops(p + 1, q, buf); }
  }

  // Exactly when an accepting decoder is the one whose result the chain returns.
  lemma ChainExact(buf: seq<uint16>, q: uint8)
    requires DecodeBy(q, buf).Some?
    ensures (forall r: uint8 :: Rivals(r, q) ==> DecodeBy(r, buf).None?) ==> DecodeChain(buf) == DecodeBy(q, buf)
    ensures forall r: uint8 :: Rivals(r, q) && DecodeBy(r, buf).Some? ==> DecodeChain(buf) == DecodeBy(r, buf)
  {
    if forall r: uint8 :: Rivals(r, q) ==> DecodeBy(r, buf).None? {
      forall r: uint8 | 1 <= r < q ensures DecodeBy(r, buf).None? {
        if DecodeBy(r, buf).Some? { AtMostOneDecoder(buf, r, q); }
      }
      ChainStops(1, q, buf);
    }
    forall r: uint8 | Rivals(r, q) && DecodeBy(r, buf).Some? ensures DecodeChain(buf) == DecodeBy(r, buf) {
      forall p: uint8 | 1 <= p < r ensures DecodeBy(p, buf).None? {
        if DecodeBy(p, buf).Some? { AtMostOneDecoder(buf, p, r); }
      }
      ChainStops(1, r, buf);
    }
  }
}
