// Speech data: a stream of bits, least significant bit of every ROM byte first, cut into fields of
// different widths that make up frames.
module Talkie {
  import opened Digits

  // --- Reversing the bits of a byte ---

  // Two neighbouring bits, two pairs, and two nibbles change places.
  function SwapTwo(p: nat): nat { p % 2 * 2 + p / 2 }

  function SwapFour(x: nat): nat { x % 4 * 4 + x / 4 }

  function SwapNibbles(a: nat): nat { a % 16 * 16 + a / 16 }

  // ((a & 0xCC) >> 2) | ((a & 0x33) << 2): the pairs within either nibble
  function SwapPairs(a: nat): nat { SwapFour(a / 16) * 16 + SwapFour(a % 16) }

  // ((a & 0xAA) >> 1) | ((a & 0x55) << 1): the bits within every pair
  function SwapBits(a: nat): nat { SwapPairBits(a / 16) * 16 + SwapPairBits(a % 16) }

  function SwapPairBits(x: nat): nat { SwapTwo(x / 4) * 4 + SwapTwo(x % 4) }

  function Rev(a: uint8): nat { SwapBits(SwapPairs(SwapNibbles(a))) }

  // The bits of a pair, a nibble and a byte, least significant first.
  function PairBits(p: nat): (bits: seq<nat>)
    requires p < 4
    ensures |bits| == 2 && InBase(bits, 2)
  {
    [p % 2, p / 2]
  }

  function NibbleBits(x: nat): (bits: seq<nat>)
    requires x < 16
    ensures |bits| == 4 && InBase(bits, 2)
  {
    PairBits(x % 4) + PairBits(x / 4)
  }

  function ByteBits(a: uint8): (bits: seq<nat>)
    ensures |bits| == 8 && InBase(bits, 2)
  {
    NibbleBits(a % 16) + NibbleBits(a / 16)
  }

  lemma LeastSignificantFirst(a: uint8)
    ensures var b := ByteBits(a);
            a == b[0] + 2 * b[1] + 4 * b[2] + 8 * b[3] + 16 * b[4] + 32 * b[5] + 64 * b[6] + 128 * b[7]
  {
    NibbleValue(a % 16);
    NibbleValue(a / 16);
  }

  lemma NibbleValue(x: nat)
    requires x < 16
    ensures var b := NibbleBits(x); x == b[0] + 2 * b[1] + 4 * b[2] + 8 * b[3]
  {
  }

  lemma ValOfPair(p: nat)
    requires p < 4
    ensures Val(PairBits(p), 2) == SwapTwo(p)
  {
    assert Val([p % 2], 2) == 2 * Val([p % 2][..0], 2) + p % 2 == p % 2;
    assert PairBits(p)[..1] == [p % 2];
  }

  lemma ValOfNibble(x: nat)
    requires x < 16
    ensures Val(NibbleBits(x), 2) == SwapPairBits(SwapFour(x)) < 16
  {
    ValOfPair(x % 4);
    ValOfPair(x / 4);
    ValAppend(PairBits(x % 4), PairBits(x / 4), 2);
    assert Pow(2, 2) == 4;
    ModUnique(SwapFour(x), 4, x % 4, x / 4);
  }

  lemma SplitByte(h: nat, l: nat)
    requires l < 16
    ensures (h * 16 + l) / 16 == h && (h * 16 + l) % 16 == l
  {
  }

  lemma NibblesSwapped(a: nat, h: nat, l: nat)
    requires l < 16 && a == h * 16 + l
    ensures SwapNibbles(a) == l * 16 + h
  {
    SplitByte(h, l);
  }

  lemma PairsSwapped(a: nat, h: nat, l: nat)
    requires l < 16 && a == h * 16 + l
    ensures SwapPairs(a) == SwapFour(h) * 16 + SwapFour(l)
  {
    SplitByte(h, l);
  }

  lemma BitsSwapped(a: nat, h: nat, l: nat)
    requires l < 16 && a == h * 16 + l
    ensures SwapBits(a) == SwapPairBits(h) * 16 + SwapPairBits(l)
  {
    SplitByte(h, l);
  }

  lemma FourFits(x: nat)
    requires x < 16
    ensures SwapFour(x) < 16
  {
  }

  lemma RevOfHalves(a: uint8, h: nat, l: nat)
    requires h < 16 && l < 16 && a == h * 16 + l
    ensures Rev(a) == SwapPairBits(SwapFour(l)) * 16 + SwapPairBits(SwapFour(h))
  {
    FourFits(h);
    RevSteps(a, h, l, SwapFour(h), SwapFour(l));
  }

  lemma RevSteps(a: uint8, h: nat, l: nat, p: nat, q: nat)
    requires h < 16 && l < 16 && p < 16 && a == h * 16 + l && p == SwapFour(h) && q == SwapFour(l)
    ensures Rev(a) == SwapPairBits(q) * 16 + SwapPairBits(p)
  {
    var b, c := l * 16 + h, q * 16 + p;
    assert SwapNibbles(a) == b by { NibblesSwapped(a, h, l); }
    assert SwapPairs(b) == c by { PairsSwapped(b, l, h); }
    assert SwapBits(c) == SwapPairBits(q) * 16 + SwapPairBits(p) by { BitsSwapped(c, q, p); }
    RevUnfold(a, b, c);
  }

  lemma RevUnfold(a: uint8, b: nat, c: nat)
    requires SwapNibbles(a) == b && SwapPairs(b) == c
    ensures Rev(a) == SwapBits(c)
  {
  }

  lemma ValOfByte(a: uint8)
    ensures Val(ByteBits(a), 2) == SwapPairBits(SwapFour(a % 16)) * 16 + SwapPairBits(SwapFour(a / 16))
  {
    ValOfNibble(a / 16);
    ValOfNibble(a % 16);
    ValAppend(NibbleBits(a % 16), NibbleBits(a / 16), 2);
    assert Pow(2, 4) == 16 by { assert Pow(2, 2) == 4; }
  }

  // rev puts the bit that comes first at the top.
  lemma RevReads(a: uint8)
    ensures Rev(a) == Val(ByteBits(a), 2)
  {
    var h, l := a / 16, a % 16;
    RevOfHalves(a, h, l);
    ValOfByte(a);
  }

  // --- The stream ---

  function Stream(rom: seq<uint8>): (bits: seq<nat>)
    ensures |bits| == 8 * |rom| && InBase(bits, 2)
  {
    if rom == [] then [] else ByteBits(rom[0]) + Stream(rom[1..])
  }

  // --- The bit buffer: a 16-bit register whose top bits are the pending ones ---

  // x << n
  function Shl(x: nat, n: nat): nat { x * Pow(2, n) }

  // The register holds these bits and zeros behind them.
  predicate Holds(buf: uint16, pending: seq<nat>) {
    |pending| <= 16 && InBase(pending, 2) && buf == Val(pending, 2) * Pow(2, 16 - |pending|)
  }

  // Another byte, placed behind what is pending.
  lemma Refill(buf: uint16, pending: seq<nat>, bits: seq<nat>)
    requires Holds(buf, pending) && |pending| <= 7 && |bits| == 8 && InBase(bits, 2)
    ensures Or(buf, Shl(Val(bits, 2), 8 - |pending|))
            == Val(pending + bits, 2) * Pow(2, 16 - |pending + bits|) < 0x1_0000
  {
    var s := Pow(2, 8 - |pending|);
    Pow8();
    PowAdd(2, 8, 8 - |pending|);
    ValBound(bits, 2);
    MulLess(Val(bits, 2), 0x100, s);
    OrDisjoint(Val(pending, 2), Val(bits, 2) * s, 16 - |pending|);
    Appended(pending, bits, s);
    HeldFits(pending + bits);
  }

  // The register after a byte has been fetched.
  function Refilled(buf: uint16, pending: nat, c: uint8): nat
    requires pending <= 8
  {
    Or(buf, Shl(Rev(c), 8 - pending))
  }

  lemma RefilledHolds(buf: uint16, pending: seq<nat>, c: uint8)
    requires Holds(buf, pending) && |pending| <= 7
    ensures Refilled(buf, |pending|, c) < 0x1_0000 && Holds(Refilled(buf, |pending|, c), pending + ByteBits(c))
  {
    RevReads(c);
    Refill(buf, pending, ByteBits(c));
  }

  // The stream behind pending bits, with one more byte of them fetched.
  lemma StreamStep(rom: seq<uint8>, ptr: nat, pending: seq<nat>)
    requires ptr < |rom|
    ensures (pending + ByteBits(rom[ptr])) + Stream(rom[ptr + 1..]) == pending + Stream(rom[ptr..])
  {
    assert rom[ptr..][1..] == rom[ptr + 1..];
  }

  // Taking n pending bits takes n bits of the stream.
  lemma TakePending(pending: seq<nat>, tail: seq<nat>, n: nat)
    requires n <= |pending|
    ensures (pending + tail)[..n] == pending[..n] && (pending + tail)[n..] == pending[n..] + tail
  {
  }

  function Quotient(x: nat, p: nat): nat
    requires p > 0
  {
    x / p
  }

  // The value of the top n bits.
  function TopBits(buf: uint16, n: nat): nat
    requires n <= 16
  {
    Quotient(buf, Pow(2, 16 - n))
  }

  function ShiftedOut(buf: uint16, n: nat): uint16 { Shl(buf, n) % 0x1_0000 }

  lemma Appended(pending: seq<nat>, bits: seq<nat>, s: nat)
    requires |bits| == 8
    ensures Val(pending + bits, 2) * s == Val(pending, 2) * (0x100 * s) + Val(bits, 2) * s
  {
    Pow8();
    ValAppend(pending, bits, 2);
    Regroup(Val(pending, 2), 0x100, Val(bits, 2), s);
  }

  lemma Regroup(x: nat, p: nat, y: nat, s: nat)
    ensures (x * p + y) * s == x * (p * s) + y * s
  {
    SumTimes(x * p, y, s);
    Associate(x, p, s);
  }

  lemma HeldFits(pending: seq<nat>)
    requires |pending| <= 16 && InBase(pending, 2)
    ensures Val(pending, 2) * Pow(2, 16 - |pending|) < 0x1_0000
  {
    ValBound(pending, 2);
    MulLess(Val(pending, 2), Pow(2, |pending|), Pow(2, 16 - |pending|));
    PowAdd(2, |pending|, 16 - |pending|);
    Pow16();
  }

  // The register splits at any of its bits.
  lemma SplitHeld(front: seq<nat>, rest: seq<nat>)
    requires |front| + |rest| <= 16 && InBase(rest, 2)
    ensures var s, h := Pow(2, 16 - |front| - |rest|), Pow(2, 16 - |front|);
            Val(front + rest, 2) * s == Val(front, 2) * h + Val(rest, 2) * s && Val(rest, 2) * s < h
  {
    PowSplit(|front|, |rest|);
    SplitScaled(front, rest, Pow(2, 16 - |front| - |rest|), Pow(2, 16 - |front|));
  }

  lemma SplitScaled(front: seq<nat>, rest: seq<nat>, s: nat, h: nat)
    requires InBase(rest, 2) && s > 0 && h == Pow(2, |rest|) * s
    ensures Val(front + rest, 2) * s == Val(front, 2) * h + Val(rest, 2) * s && Val(rest, 2) * s < h
  {
    ValAppend(front, rest, 2);
    ValBound(rest, 2);
    ScaleSum(Val(front + rest, 2), Val(front, 2), Pow(2, |rest|), Val(rest, 2), s, h);
  }

  lemma PowSplit(m: nat, n: nat)
    requires m + n <= 16
    ensures Pow(2, 16 - m) == Pow(2, n) * Pow(2, 16 - m - n)
  {
    PowAdd(2, n, 16 - m - n);
  }

  lemma ScaleSum(v: nat, x: nat, p: nat, y: nat, s: nat, h: nat)
    requires v == x * p + y && h == p * s && y < p && s > 0
    ensures v * s == x * h + y * s && y * s < h
  {
    Regroup(x, p, y, s);
    MulLess(y, p, s);
  }

  lemma ShiftHeld(buf: nat, front: nat, rest: nat, n: nat, m: nat)
    requires n <= m <= 16 && buf == front * Pow(2, 16 - n) + rest * Pow(2, 16 - m)
    ensures buf * Pow(2, n) == front * 0x1_0000 + rest * Pow(2, 16 - (m - n))
  {
    var p, q, s := Pow(2, 16 - n), Pow(2, 16 - m), Pow(2, n);
    assert p * s == 0x1_0000 by { PowAdd(2, 16 - n, n); Pow16(); }
    assert q * s == Pow(2, 16 - (m - n)) by { PowAdd(2, 16 - m, n); }
    ScaleBoth(front, p, rest, q, s);
  }

  lemma ScaleBoth(x: nat, p: nat, y: nat, q: nat, s: nat)
    ensures (x * p + y * q) * s == x * (p * s) + y * (q * s)
  {
    Regroup(x, p, y * q, s);
    Associate(y, q, s);
  }

  // The top n bits, and the register without them.
  lemma Drain(buf: uint16, pending: seq<nat>, n: nat)
    requires Holds(buf, pending) && n <= |pending|
    ensures TopBits(buf, n) == Val(pending[..n], 2) && Holds(ShiftedOut(buf, n), pending[n..])
  {
    var front, rest, s := pending[..n], pending[n..], Pow(2, 16 - |pending|);
    var r := Val(rest, 2) * s;
    assert pending == front + rest;
    assert buf == Val(front, 2) * Pow(2, 16 - n) + r && r < Pow(2, 16 - n) by { SplitHeld(front, rest); }
    ModUnique(buf, Pow(2, 16 - n), Val(front, 2), r);
    DrainRest(buf, Val(front, 2), rest, n, |pending|);
  }

  lemma DrainRest(buf: nat, front: nat, rest: seq<nat>, n: nat, m: nat)
    requires n <= m <= 16 && |rest| == m - n && InBase(rest, 2)
    requires buf == front * Pow(2, 16 - n) + Val(rest, 2) * Pow(2, 16 - m)
    ensures Holds(Shl(buf, n) % 0x1_0000, rest)
  {
    var low := Shl(Val(rest, 2), 16 - |rest|);
    assert Shl(buf, n) == front * 0x1_0000 + low by { ShiftHeld(buf, front, Val(rest, 2), n, m); }
    assert low < 0x1_0000 by { HeldFits(rest); }
    WrapsTo(Shl(buf, n), front, low);
  }

  lemma WrapsTo(x: nat, high: nat, low: nat)
    requires x == high * 0x1_0000 + low && low < 0x1_0000
    ensures x % 0x1_0000 == low
  {
  }

  // --- Speech frames ---

  // energy and period are indices of tables; k are those of the filter coefficients.
  datatype SpeechFrame =
    | Rest
    | Repeated(energy: nat, period: nat)
    | Spoken(energy: nat, period: nat, k: seq<nat>)

  // A voiced frame has six more coefficients.
  function Widths(period: nat): seq<uint8> { if period == 0 then [5, 5, 4, 4] else [5, 5, 4, 4, 4, 4, 4, 3, 3, 3] }

  predicate FieldsFit(k: seq<nat>, widths: seq<uint8>) {
    |k| == |widths| && forall i :: 0 <= i < |k| ==> 1 <= widths[i] <= 8 && k[i] < Pow(2, widths[i])
  }

  predicate ValidFrame(f: SpeechFrame) {
    match f
    case Rest => true
    case Repeated(energy, period) => 1 <= energy <= 14 && period < 64
    case Spoken(energy, period, k) => 1 <= energy <= 14 && period < 64 && FieldsFit(k, Widths(period))
  }

  function Field(v: nat, width: nat): (bits: seq<nat>)
    ensures |bits| == width && InBase(bits, 2)
  {
    ToDigits(v, width, 2)
  }

  function FieldBits(k: seq<nat>, widths: seq<uint8>): (bits: seq<nat>)
    requires |k| == |widths|
  {
    if k == [] then [] else Field(k[0], widths[0]) + FieldBits(k[1..], widths[1..])
  }

  function FrameBits(f: SpeechFrame): seq<nat>
    requires ValidFrame(f)
  {
    match f
    case Rest => Field(0, 4)
    case Repeated(energy, period) => Field(energy, 4) + (Field(1, 1) + Field(period, 6))
    case Spoken(energy, period, k) =>
      Field(energy, 4) + (Field(0, 1) + (Field(period, 6) + FieldBits(k, Widths(period))))
  }

  predicate AllValid(fs: seq<SpeechFrame>) { forall i :: 0 <= i < |fs| ==> ValidFrame(fs[i]) }

  // Frames, then the one that stops.
  function SpeechBits(fs: seq<SpeechFrame>): seq<nat>
    requires AllValid(fs)
  {
    if fs == [] then Field(15, 4) else FrameBits(fs[0]) + SpeechBits(fs[1..])
  }

  // 4, 11, 29 and 50 bits
  lemma FrameSizes(f: SpeechFrame)
    requires ValidFrame(f)
    ensures |FrameBits(f)| == if f.Rest? then 4 else if f.Repeated? then 11 else if f.period == 0 then 29 else 50
  {
    if f.Spoken? {
      FieldBitsLength(f.k, Widths(f.period));
      if f.period == 0 { SumFour(5, 5, 4, 4); } else { SumTen(); }
    }
  }

  lemma FourFields(a: nat, b: nat, c: nat, d: nat, v: uint8, w: uint8, x: uint8, y: uint8)
    ensures FieldBits([a, b, c, d], [v, w, x, y]) == Field(a, v) + Field(b, w) + Field(c, x) + Field(d, y)
  {
    TwoFields(a, b, v, w);
    TwoFields(c, d, x, y);
    FieldsConcat([a, b], [v, w], [c, d], [x, y]);
    assert [a, b] + [c, d] == [a, b, c, d] && [v, w] + [x, y] == [v, w, x, y];
  }

  lemma TwoFields(a: nat, b: nat, v: uint8, w: uint8)
    ensures FieldBits([a, b], [v, w]) == Field(a, v) + Field(b, w)
  {
    var k: seq<nat>, widths: seq<uint8> := [a, b], [v, w];
    assert k[1..] == [b] && widths[1..] == [w] && [b][1..] == [];
    assert FieldBits([b], [w]) == Field(b, w) + [] == Field(b, w);
  }

  lemma {:induction false} FieldsConcat(k: seq<nat>, ws: seq<uint8>, l: seq<nat>, vs: seq<uint8>)
    requires |k| == |ws| && |l| == |vs|
    ensures FieldBits(k + l, ws + vs) == FieldBits(k, ws) + FieldBits(l, vs)
  {
    if k == [] {
      assert k + l == l && ws + vs == vs;
    } else {
      FieldsConcat(k[1..], ws[1..], l, vs);
      assert (k + l)[1..] == k[1..] + l && (ws + vs)[1..] == ws[1..] + vs;
    }
  }

  // A rest has energy 0, the stop has energy 15, and a repeated frame a one behind its energy.
  lemma ShortLayouts(energy: nat, period: nat)
    requires ValidFrame(Repeated(energy, period))
    ensures FrameBits(Rest) == [0, 0, 0, 0] && SpeechBits([]) == [1, 1, 1, 1]
    ensures FrameBits(Repeated(energy, period)) == Field(energy, 4) + ([1] + Field(period, 6))
  {
    assert Field(1, 1) == Field(0, 0) + [1] == [1];
    assert Field(3, 2) == Field(1, 1) + [1] && Field(7, 3) == Field(3, 2) + [1] && Field(15, 4) == Field(7, 3) + [1];
    assert Field(0, 1) == [0] && Field(0, 2) == Field(0, 1) + [0] && Field(0, 3) == Field(0, 2) + [0];
    assert Field(0, 4) == Field(0, 3) + [0];
  }

  // An unvoiced frame: energy, a zero, a period of zero, and coefficients of 5, 5, 4 and 4 bits.
  lemma UnvoicedLayout(energy: nat, k: seq<nat>)
    requires ValidFrame(Spoken(energy, 0, k))
    ensures |k| == 4
    ensures FrameBits(Spoken(energy, 0, k))
            == Field(energy, 4) + (Field(0, 1) + (Field(0, 6)
               + (Field(k[0], 5) + Field(k[1], 5) + Field(k[2], 4) + Field(k[3], 4))))
  {
    FourFields(k[0], k[1], k[2], k[3], 5, 5, 4, 4);
    assert k == [k[0], k[1], k[2], k[3]];
  }

  // A voiced one has six more, of 4, 4, 4, 3, 3 and 3 bits.
  lemma VoicedLayout(energy: nat, period: nat, k: seq<nat>)
    requires ValidFrame(Spoken(energy, period, k)) && period > 0
    ensures |k| == 10
    ensures FrameBits(Spoken(energy, period, k))
            == Field(energy, 4) + (Field(0, 1) + (Field(period, 6)
               + ((Field(k[0], 5) + Field(k[1], 5) + Field(k[2], 4) + Field(k[3], 4))
                  + ((Field(k[4], 4) + Field(k[5], 4) + Field(k[6], 4) + Field(k[7], 3))
                     + (Field(k[8], 3) + Field(k[9], 3))))))
  {
    FourFields(k[0], k[1], k[2], k[3], 5, 5, 4, 4);
    FourFields(k[4], k[5], k[6], k[7], 4, 4, 4, 3);
    TwoFields(k[8], k[9], 3, 3);
    var middle, last := [k[4], k[5], k[6], k[7]], [k[8], k[9]];
    FieldsConcat(middle, [4, 4, 4, 3], last, [3, 3]);
    FieldsConcat([k[0], k[1], k[2], k[3]], [5, 5, 4, 4], middle + last, [4, 4, 4, 3] + [3, 3]);
    assert k == [k[0], k[1], k[2], k[3]] + (middle + last);
    assert [5, 5, 4, 4] + ([4, 4, 4, 3] + [3, 3]) == [5, 5, 4, 4, 4, 4, 4, 3, 3, 3];
  }

  function Sum(widths: seq<uint8>): nat { if widths == [] then 0 else widths[0] + Sum(widths[1..]) }

  lemma {:induction false} FieldBitsLength(k: seq<nat>, widths: seq<uint8>)
    requires |k| == |widths|
    ensures |FieldBits(k, widths)| == Sum(widths)
  {
    if k != [] { FieldBitsLength(k[1..], widths[1..]); }
  }

  lemma SumFour(a: uint8, b: uint8, c: uint8, d: uint8)
    ensures Sum([a, b, c, d]) == a + b + c + d
  {
    SumTwo(a, b);
    SumTwo(c, d);
    SumConcat([a, b], [c, d]);
    assert [a, b, c, d] == [a, b] + [c, d];
  }

  lemma SumTwo(a: uint8, b: uint8)
    ensures Sum([a, b]) == a + b
  {
    var s: seq<uint8> := [a, b];
    assert s[1..] == [b] && Sum([b]) == b;
  }

  lemma {:induction false} SumConcat(x: seq<uint8>, y: seq<uint8>)
    ensures Sum(x + y) == Sum(x) + Sum(y)
  {
    if x == [] {
      assert x + y == y;
    } else {
      SumConcat(x[1..], y);
      assert (x + y)[1..] == x[1..] + y;
    }
  }

  lemma SumTen()
    ensures Sum([5, 5, 4, 4, 4, 4, 4, 3, 3, 3]) == 39
  {
    SumFour(5, 5, 4, 4);
    SumFour(4, 4, 4, 3);
    SumTwo(3, 3);
    SumConcat([5, 5, 4, 4], [4, 4, 4, 3]);
    SumConcat([5, 5, 4, 4] + [4, 4, 4, 3], [3, 3]);
    assert [5, 5, 4, 4, 4, 4, 4, 3, 3, 3] == [5, 5, 4, 4] + [4, 4, 4, 3] + [3, 3];
  }

  lemma FieldValue(v: nat, width: nat)
    requires v < Pow(2, width)
    ensures Val(Field(v, width), 2) == v
  {
    ValOfToDigits(v, width, 2);
    ModUnique(v, Pow(2, width), 0, v);
  }

  predicate FieldWidths(widths: seq<uint8>) { forall i :: 0 <= i < |widths| ==> 1 <= widths[i] <= 8 }

  // One more field, at the end.
  lemma {:induction false} FieldBitsSnoc(k: seq<nat>, widths: seq<uint8>, v: nat, width: uint8)
    requires |k| == |widths|
    ensures FieldBits(k + [v], widths + [width]) == FieldBits(k, widths) + Field(v, width)
    decreases |k|
  {
    if k == [] {
      assert [v][1..] == [] && [] + [v] == [v] && [] + [width] == [width];
    } else {
      FieldBitsSnoc(k[1..], widths[1..], v, width);
      assert (k + [v])[1..] == k[1..] + [v] && (widths + [width])[1..] == widths[1..] + [width];
    }
  }

  // --- Packing bits into bytes ---

  function Padded(bits: seq<nat>, i: nat): (b: nat)
    requires InBase(bits, 2)
    ensures b < 2
  {
    if i < |bits| then bits[i] else 0
  }

  function Pack(bits: seq<nat>): (rom: seq<uint8>)
    requires InBase(bits, 2)
    decreases |bits|
  {
    if bits == [] then [] else [Eight(bits)] + Pack(if |bits| <= 8 then [] else bits[8..])
  }

  // The first eight bits, filled up with zeros.
  function Eight(bits: seq<nat>): uint8
    requires InBase(bits, 2)
  {
    Byte(Padded(bits, 0), Padded(bits, 1), Padded(bits, 2), Padded(bits, 3),
         Padded(bits, 4), Padded(bits, 5), Padded(bits, 6), Padded(bits, 7))
  }

  function Byte(b0: nat, b1: nat, b2: nat, b3: nat, b4: nat, b5: nat, b6: nat, b7: nat): (a: uint8)
    requires b0 < 2 && b1 < 2 && b2 < 2 && b3 < 2 && b4 < 2 && b5 < 2 && b6 < 2 && b7 < 2
  {
    (b7 * 8 + b6 * 4 + b5 * 2 + b4) * 16 + (b3 * 8 + b2 * 4 + b1 * 2 + b0)
  }

  lemma BitsOfNibble(b0: nat, b1: nat, b2: nat, b3: nat)
    requires b0 < 2 && b1 < 2 && b2 < 2 && b3 < 2
    ensures NibbleBits(b3 * 8 + b2 * 4 + b1 * 2 + b0) == [b0, b1, b2, b3]
  {
    ModUnique(b3 * 8 + b2 * 4 + b1 * 2 + b0, 4, b3 * 2 + b2, b1 * 2 + b0);
  }

  lemma BitsOfByte(b0: nat, b1: nat, b2: nat, b3: nat, b4: nat, b5: nat, b6: nat, b7: nat)
    requires b0 < 2 && b1 < 2 && b2 < 2 && b3 < 2 && b4 < 2 && b5 < 2 && b6 < 2 && b7 < 2
    ensures ByteBits(Byte(b0, b1, b2, b3, b4, b5, b6, b7)) == [b0, b1, b2, b3, b4, b5, b6, b7]
  {
    SplitByte(b7 * 8 + b6 * 4 + b5 * 2 + b4, b3 * 8 + b2 * 4 + b1 * 2 + b0);
    BitsOfNibble(b0, b1, b2, b3);
    BitsOfNibble(b4, b5, b6, b7);
  }

  lemma FirstByte(bits: seq<nat>)
    requires InBase(bits, 2)
    ensures forall i :: 0 <= i < 8 ==> ByteBits(Eight(bits))[i] == Padded(bits, i)
  {
    BitsOfByte(Padded(bits, 0), Padded(bits, 1), Padded(bits, 2), Padded(bits, 3),
               Padded(bits, 4), Padded(bits, 5), Padded(bits, 6), Padded(bits, 7));
  }

  // The stream of packed bits begins with them.
  lemma {:induction false} StreamOfPack(bits: seq<nat>)
    requires InBase(bits, 2)
    ensures bits <= Stream(Pack(bits))
    decreases |bits|
  {
    if bits != [] {
      var rest := if |bits| <= 8 then [] else bits[8..];
      StreamOfPack(rest);
      FirstByte(bits);
      var first := ByteBits(Eight(bits));
      assert Pack(bits) == [Eight(bits)] + Pack(rest);
      assert Stream(Pack(bits)) == first + Stream(Pack(rest));
      PrefixOfBoth(bits, first, rest, Stream(Pack(rest)));
    }
  }

  lemma PrefixOfBoth(bits: seq<nat>, first: seq<nat>, rest: seq<nat>, tail: seq<nat>)
    requires InBase(bits, 2) && |first| == 8 && (forall i :: 0 <= i < 8 ==> first[i] == Padded(bits, i))
    requires rest == (if |bits| <= 8 then [] else bits[8..]) && rest <= tail
    ensures bits <= first + tail
  {
    forall i | 0 <= i < |bits| ensures bits[i] == (first + tail)[i] {
      if i >= 8 { assert bits[i] == rest[i - 8] == tail[i - 8]; }
    }
  }
}
