// What the decoders of pulse-coded protocols read, entry by entry: which buffers they take and which
// numbers they make of them.
module Acceptance {
  import opened Digits
  import opened Pulse
  import opened Protocols
  import opened Scan

  // --- Payloads ---

  // Pairs of a mark and a space that is that of a one or of a zero.
  predicate AllPairs(b: seq<uint16>, mark: nat, one: nat, zero: nat) {
    forall i :: 0 <= i < |b| / 2 ==> Match(b[2 * i], mark) && (Match(b[2 * i + 1], one) || Match(b[2 * i + 1], zero))
  }

  // The second entry of a pair is the bit.
  function PairBits(b: seq<uint16>, one: nat): (bits: seq<nat>)
    ensures |bits| == |b| / 2 && InBase(bits, 2)
  {
    seq(|b| / 2, i requires 0 <= i < |b| / 2 => if Match(b[2 * i + 1], one) then 1 else 0)
  }

  lemma PairsBehind(b: seq<uint16>, mark: nat, one: nat, zero: nat)
    requires |b| >= 2
    ensures AllPairs(b, mark, one, zero) <==>
            Match(b[0], mark) && (Match(b[1], one) || Match(b[1], zero)) && AllPairs(b[2..], mark, one, zero)
    ensures PairBits(b, one) == [if Match(b[1], one) then 1 else 0] + PairBits(b[2..], one)
  {
    var rest := b[2..];
    assert forall i :: 0 <= i < |rest| / 2 ==> rest[2 * i] == b[2 * (i + 1)] && rest[2 * i + 1] == b[2 * (i + 1) + 1];
    if AllPairs(b, mark, one, zero) {
      assert Match(b[2 * 0], mark);
      forall i | 0 <= i < |rest| / 2
        ensures Match(rest[2 * i], mark) && (Match(rest[2 * i + 1], one) || Match(rest[2 * i + 1], zero))
      {
        assert Match(b[2 * (i + 1)], mark);
      }
    }
    if Match(b[0], mark) && (Match(b[1], one) || Match(b[1], zero)) && AllPairs(rest, mark, one, zero) {
      forall i | 0 <= i < |b| / 2
        ensures Match(b[2 * i], mark) && (Match(b[2 * i + 1], one) || Match(b[2 * i + 1], zero))
      {
        if i > 0 { assert Match(rest[2 * (i - 1)], mark); }
      }
    }
  }

  lemma {:induction false} ParsePairs(b: seq<uint16>, mark: nat, one: nat, zero: nat)
    requires |b| % 2 == 0
    ensures Parse(b, PulseDistance(mark, one, zero))
            == if AllPairs(b, mark, one, zero) then Some(PairBits(b, one)) else None
    decreases |b|
  {
    if b != [] {
      ParsePairs(b[2..], mark, one, zero);
      PairsBehind(b, mark, one, zero);
      FirstPulse(b[0], b[1], mark, one, zero);
      assert b[..2] == [b[0], b[1]];
    }
  }

  // --- Frames of decodeGeneric ---

  // Header, pairs, and a last mark of any length.
  predicate Framed(buf: seq<uint16>, length: nat, headMark: nat, headSpace: nat, mark: nat, one: nat, zero: nat) {
    && |buf| == length >= 4 && Match(buf[1], headMark) && Match(buf[2], headSpace)
    && AllPairs(buf[3..length - 1], mark, one, zero)
  }

  // The number that the pairs of a frame spell, first bit on top.
  function Number(buf: seq<uint16>, one: nat): nat
    requires |buf| >= 4
  {
    Val(PairBits(buf[3..|buf| - 1], one), 2)
  }

  lemma GenericReads(p: uint8, buf: seq<uint16>, length: nat,
                     headMark: nat, headSpace: nat, mark: nat, one: nat, zero: nat)
    requires headMark != 0 && headSpace != 0 && 4 <= length <= 68 && length % 2 == 0
    ensures FromBits(p, DecodePulse(Generic(headMark, headSpace, mark, one, zero), buf, length))
            == if Framed(buf, length, headMark, headSpace, mark, one, zero)
               then Some(Decoded(p, Low32(Number(buf, one)), 0, (length - 4) / 2)) else None
  {
    GenericFormatSymbols(buf, length, headMark, headSpace, mark, one, zero);
    if |buf| == length {
      assert buf[..PairsEnd(length)][3..] == buf[3..length - 1];
      ParsePairs(buf[3..length - 1], mark, one, zero);
      ShortFields(p, PairBits(buf[3..length - 1], one));
    }
  }

  predicate IsDittoOf(buf: seq<uint16>, mark: nat, space: nat, last: nat) {
    |buf| == 4 && Match(buf[1], mark) && Match(buf[2], space) && Match(buf[3], last)
  }

  lemma NECReads(buf: seq<uint16>)
    ensures DecodeNEC(buf)
            == if IsDittoOf(buf, 9024, 2256, 564) then Some(Decoded(1, 0xffff_ffff, 0, 0))
               else if Framed(buf, 68, 9024, 4512, 564, 1692, 564)
               then Some(Decoded(1, Low32(Number(buf, 1692)), 0, 32)) else None
  {
    GenericReads(1, buf, 68, 9024, 4512, 564, 1692, 564);
  }

  lemma PanasonicOldReads(buf: seq<uint16>)
    ensures DecodePanasonicOld(buf)
            == if Framed(buf, 48, 3332, 3332, 833, 2499, 833)
               then Some(Decoded(5, Low32(Number(buf, 2499)), 0, 22)) else None
  {
    GenericReads(5, buf, 48, 3332, 3332, 833, 2499, 833);
  }

  // The second space of the repeat frame is not looked at.
  lemma NECxReads(buf: seq<uint16>)
    ensures DecodeNECx(buf)
            == if |buf| == 6 && Match(buf[1], 4512) && Match(buf[2], 4512) && Match(buf[3], 564) && Match(buf[5], 564)
               then Some(Decoded(7, 0xffff_ffff, 0, 0))
               else if Framed(buf, 68, 4512, 4512, 564, 1692, 564)
               then Some(Decoded(7, Low32(Number(buf, 1692)), 0, 32)) else None
  {
    GenericReads(7, buf, 68, 4512, 4512, 564, 1692, 564);
  }

  lemma GICableReads(buf: seq<uint16>)
    ensures DecodeGICable(buf)
            == if IsDittoOf(buf, 8820, 2205, 490) then Some(Decoded(9, 0xffff_ffff, 0, 0))
               else if Framed(buf, 36, 8820, 4410, 490, 4410, 2205)
               then Some(Decoded(9, Low32(Number(buf, 4410)), 0, 16)) else None
  {
    GenericReads(9, buf, 36, 8820, 4410, 490, 4410, 2205);
  }

  lemma CYKMReads(buf: seq<uint16>)
    ensures DecodeCYKM(buf)
            == if Framed(buf, 34, 3100, 3100, 650, 1950, 650)
               then Some(Decoded(12, Low32(Number(buf, 1950)), 0, 15)) else None
  {
    GenericReads(12, buf, 34, 3100, 3100, 650, 1950, 650);
  }

  // With the header the address is 1; without it the pairs begin at once.
  lemma JVCReads(buf: seq<uint16>)
    ensures DecodeJVC(buf)
            == if Framed(buf, 36, 8400, 4200, 525, 1575, 525)
               then Some(Decoded(6, Low32(Number(buf, 1575)), 1, 16))
               else if |buf| == 34 && AllPairs(buf[1..33], 525, 1575, 525)
               then Some(Decoded(6, Low32(Val(PairBits(buf[1..33], 1575), 2)), 0, 16)) else None
  {
    GenericReads(6, buf, 36, 8400, 4200, 525, 1575, 525);
    if |buf| == 34 {
      HeadlessSymbols(buf);
      ParsePairs(buf[1..33], 525, 1575, 525);
      ShortFields(6, PairBits(buf[1..33], 1575));
    }
  }

  lemma HeadlessSymbols(buf: seq<uint16>)
    requires |buf| == 34
    ensures DecodePulse(JVCRepeatFormat(), buf, 34) == Parse(buf[1..33], PulseDistance(525, 525 * 3, 525))
  {
    ConformsOne(buf[33], Unchecked(525));
    assert buf[1..1] == [] && buf[33..] == [buf[33]];
  }

  // --- Sony, DirecTV, Samsung36, RC-MM ---

  // Sony's pairs are a space and a mark, behind a long mark.
  lemma SonyReadsWidth(buf: seq<uint16>, n: nat)
    requires (n == 8 || n == 12 || n == 15 || n == 20) && |buf| == 2 + 2 * n
    ensures DecodeSony(buf)
            == if Match(buf[1], 2400) && AllPairs(buf[2..], 600, 1200, 600)
               then Some(Decoded(2, Low32(Val(PairBits(buf[2..], 1200), 2)), 0, n)) else None
  {
    var body := buf[2..];
    var bits := PairBits(body, 1200);
    ParsePairs(body, 600, 1200, 600);
    SonyResult(buf);
    assert Parse(body, PulseDistance(600, 1200, 600)) == if AllPairs(body, 600, 1200, 600) then Some(bits) else None;
    assert |bits| % 0x100 == n;
  }

  lemma SonyReads(buf: seq<uint16>)
    ensures DecodeSony(buf)
            == if |buf| in [18, 26, 32, 42] && Match(buf[1], 2400) && AllPairs(buf[2..], 600, 1200, 600)
               then Some(Decoded(2, Low32(Val(PairBits(buf[2..], 1200), 2)), 0, |buf| / 2 - 1)) else None
  {
    if |buf| in [18, 26, 32, 42] { SonyReadsWidth(buf, |buf| / 2 - 1); }
  }

  predicate AllSingles(b: seq<uint16>) { forall i :: 0 <= i < |b| ==> Match(b[i], 600) || Match(b[i], 1200) }

  function SingleBits(b: seq<uint16>): (bits: seq<nat>)
    ensures |bits| == |b| && InBase(bits, 2)
  {
    seq(|b|, i requires 0 <= i < |b| => if Match(b[i], 1200) then 1 else 0)
  }

  lemma {:induction false} ParseSingles(b: seq<uint16>, first: bool)
    ensures Parse(b, DirecTVFormat(first).alphabet) == if AllSingles(b) then Some(SingleBits(b)) else None
  {
    if b != [] {
      ParseSingles(b[1..], first);
      FirstSingle(b[0], first);
      assert b[..1] == [b[0]] && forall i :: 0 <= i < |b[1..]| ==> b[1..][i] == b[i + 1];
      assert AllSingles(b) <==> (Match(b[0], 600) || Match(b[0], 1200)) && AllSingles(b[1..]) by {
        if AllSingles(b) { forall i | 0 <= i < |b[1..]| ensures Match(b[1..][i], 600) || Match(b[1..][i], 1200) {} }
      }
      assert SingleBits(b) == [if Match(b[0], 1200) then 1 else 0] + SingleBits(b[1..]);
    }
  }

  // A bit in every mark and one in every space; the header mark tells a repeat, with address 0.
  lemma DirecTVReads(buf: seq<uint16>)
    ensures DecodeDirecTV(buf)
            == if |buf| == 20 && (Match(buf[1], 3000) || Match(buf[1], 6000)) && Match(buf[2], 1200)
                  && AllSingles(buf[3..19])
               then Some(Decoded(10, Low32(Val(SingleBits(buf[3..19]), 2)), if Match(buf[1], 3000) then 0 else 1, 16))
               else None
  {
    if |buf| == 20 {
      DirecTVResult(buf);
      assert buf[..19][3..] == buf[3..19];
      ParseSingles(buf[3..19], true);
    }
  }

  // 16 pairs of address, a second header, and 20 pairs of data, once entry 62 is 68us shorter.
  lemma Samsung36Reads(buf: seq<uint16>)
    ensures DecodeSamsung36(buf)
            == if |buf| == 78 && Match(buf[1], 4500) && Match(buf[2], 4500)
                  && Match(buf[35], 500) && Match(buf[36], 4500)
                  && AllPairs(buf[3..35], 500, 1500, 500) && AllPairs(WithoutBreak(buf)[37..77], 500, 1500, 500)
               then Some(Decoded(8, Low32(Val(PairBits(WithoutBreak(buf)[37..77], 1500), 2)),
                                 Val(PairBits(buf[3..35], 1500), 2) % 0x1_0000, 36)) else None
  {
    if |buf| == 78 {
      Samsung36Result(buf);
      ParsePairs(buf[3..35], 500, 1500, 500);
      ParsePairs(WithoutBreak(buf)[37..77], 500, 1500, 500);
    }
  }

  // The digit of a space; 4 is none.
  function QuadDigit(v: uint16): nat {
    if 198 <= v <= 358 then 0 else if 364 <= v <= 524 then 1 else if 531 <= v <= 691 then 2
    else if 698 <= v <= 858 then 3 else 4
  }

  predicate AllQuads(b: seq<uint16>) {
    forall i :: 0 <= i < |b| / 2 ==> 87 <= b[2 * i] <= 247 && QuadDigit(b[2 * i + 1]) < 4
  }

  function QuadDigits(b: seq<uint16>): (ds: seq<nat>)
    ensures |ds| == |b| / 2
  {
    seq(|b| / 2, i requires 0 <= i < |b| / 2 => QuadDigit(b[2 * i + 1]))
  }

  lemma QuadsBehind(b: seq<uint16>)
    requires |b| >= 2
    ensures AllQuads(b) <==> 87 <= b[0] <= 247 && QuadDigit(b[1]) < 4 && AllQuads(b[2..])
    ensures QuadDigits(b) == [QuadDigit(b[1])] + QuadDigits(b[2..])
  {
    var rest := b[2..];
    assert forall i :: 0 <= i < |rest| / 2 ==> rest[2 * i] == b[2 * (i + 1)] && rest[2 * i + 1] == b[2 * (i + 1) + 1];
    if AllQuads(b) {
      assert 87 <= b[2 * 0] <= 247;
      forall i | 0 <= i < |rest| / 2 ensures 87 <= rest[2 * i] <= 247 && QuadDigit(rest[2 * i + 1]) < 4 {
        assert 87 <= b[2 * (i + 1)] <= 247;
      }
    }
    if 87 <= b[0] <= 247 && QuadDigit(b[1]) < 4 && AllQuads(rest) {
      forall i | 0 <= i < |b| / 2 ensures 87 <= b[2 * i] <= 247 && QuadDigit(b[2 * i + 1]) < 4 {
        if i > 0 { assert 87 <= rest[2 * (i - 1)] <= 247; }
      }
    }
  }

  lemma {:induction false} ParseQuads(b: seq<uint16>)
    requires |b| % 2 == 0
    ensures Parse(b, RCMMFormat().alphabet) == if AllQuads(b) then Some(QuadDigits(b)) else None
    decreases |b|
  {
    if b != [] {
      ParseQuads(b[2..]);
      QuadsBehind(b);
      FirstRCMM(b[0], b[1]);
      assert b[..2] == [b[0], b[1]];
    }
  }

  // Two bits a pair, in windows of 80us either way; the last mark is looked at as well.
  lemma RCMMReads(buf: seq<uint16>)
    ensures DecodeRCMM(buf)
            == if (|buf| == 16 || |buf| == 28 || |buf| == 36) && Match(buf[1], 417) && Match(buf[2], 278)
                  && Match(buf[|buf| - 1], 167) && AllQuads(buf[3..|buf| - 1])
               then Some(Decoded(11, Low32(Val(QuadDigits(buf[3..|buf| - 1]), 4)), 0, |buf| - 4)) else None
  {
    if |buf| == 16 || |buf| == 28 || |buf| == 36 {
      RCMMResult(buf);
      assert buf[..|buf| - 1][3..] == buf[3..|buf| - 1];
      ParseQuads(buf[3..|buf| - 1]);
    }
  }
}
