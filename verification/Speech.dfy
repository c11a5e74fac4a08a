// The speech data reader: a bit buffer over the ROM, and the frames it is read for.
module Speech {
  import opened Digits
  import opened Talkie

  class Reader {
    const rom: seq<uint8>
    var ptrAddr: nat
    var buf: uint16
    var bufBits: uint8
    ghost var pending: seq<nat>   // the bits in buf
    ghost var consumed: nat       // the bits handed out

    // buf is left-aligned with zeros behind its bits, which are the next ones of the stream.
    ghost predicate Buffered()
      reads this
    {
      && Holds(buf, pending) && |pending| == bufBits
      && ptrAddr <= |rom| && 8 * ptrAddr == consumed + bufBits
      && pending + Stream(rom[ptrAddr..]) == Stream(rom)[consumed..]
    }

    // Between two calls fewer than eight bits are pending.
    ghost predicate Valid()
      reads this
    {
      Buffered() && bufBits <= 7
    }

    // What has not been handed out yet.
    ghost function Ahead(): seq<nat>
      requires Valid()
      reads this
    {
      Stream(rom)[consumed..]
    }

    constructor (addr: seq<uint8>)
      ensures Valid() && rom == addr && consumed == 0 && Ahead() == Stream(addr)
    {
      rom, ptrAddr, buf, bufBits := addr, 0, 0, 0;
      pending, consumed := [], 0;
      new;
      NothingRead(rom);
    }

    // Another byte of the ROM.
    method Fetch()
      requires Valid() && ptrAddr < |rom|
      modifies this
      ensures Buffered() && ptrAddr == old(ptrAddr) + 1 && bufBits == old(bufBits) + 8 && consumed == old(consumed)
    {
      RefilledHolds(buf, pending, rom[ptrAddr]);
      StreamStep(rom, ptrAddr, pending);
      buf := Refilled(buf, bufBits, rom[ptrAddr]);
      pending := pending + ByteBits(rom[ptrAddr]);
      bufBits := bufBits + 8;
      ptrAddr := ptrAddr + 1;
    }

    // The top bits of the register.
    method TakeBits(bits: uint8) returns (value: uint8)
      requires Buffered() && 1 <= bits <= 8 && bits <= bufBits <= bits + 7
      modifies `buf, `bufBits, `pending, `consumed
      ensures Valid() && consumed == old(consumed) + bits && bufBits == old(bufBits) - bits
      ensures value == Val(Stream(rom)[old(consumed)..][..bits], 2)
    {
      NextBits(Stream(rom), consumed, pending, Stream(rom[ptrAddr..]), bits);
      Drain(buf, pending, bits);
      ByteFits(pending[..bits]);
      value := TopBits(buf, bits);
      buf := ShiftedOut(buf, bits);
      bufBits := bufBits - bits;
      pending, consumed := pending[bits..], consumed + bits;
    }

    // The next bits of the stream, the first of them at the top; no byte is fetched too early.
    method GetBits(bits: uint8) returns (value: uint8)
      requires Valid() && 1 <= bits <= 8 && bits <= |Ahead()|
      modifies this
      ensures Valid() && value == Val(old(Ahead())[..bits], 2) && Ahead() == old(Ahead())[bits..]
      ensures consumed == old(consumed) + bits && ptrAddr == (consumed + 7) / 8
    {
      DropDrop(Stream(rom), consumed, bits);
      if bits > bufBits { Fetch(); }
      value := TakeBits(bits);
    }

    // One field v of the given width.
    method ReadField(width: uint8, ghost v: nat, ghost rest: seq<nat>) returns (value: uint8)
      requires Valid() && 1 <= width <= 8 && v < Pow(2, width) && Ahead() == Field(v, width) + rest
      modifies this
      ensures Valid() && value == v && Ahead() == rest
    {
      FieldValue(v, width);
      assert Ahead()[..width] == Field(v, width) && Ahead()[width..] == rest;
      value := GetBits(width);
    }

    // One more field behind the values that were read since stream was ahead.
    method NextField(width: uint8, values: seq<nat>, ghost widths: seq<uint8>, ghost stream: seq<nat>)
        returns (longer: seq<nat>)
      requires Valid() && FieldsFit(values, widths) && stream == FieldBits(values, widths) + Ahead()
      requires 1 <= width <= 8 && width <= |Ahead()|
      modifies this
      ensures Valid() && |Ahead()| == old(|Ahead()|) - width
      ensures FieldsFit(longer, widths + [width]) && stream == FieldBits(longer, widths + [width]) + Ahead()
      ensures consumed == old(consumed) + width && ptrAddr == (consumed + 7) / 8
    {
      ghost var ahead := Ahead();
      var value := GetBits(width);
      FieldAdded(stream, values, widths, ahead, width);
      longer := values + [value];
    }

    // Whatever the widths, the values spell the stream bit by bit, and no byte is fetched too early.
    method ReadFields(widths: seq<uint8>) returns (values: seq<nat>)
      requires Valid() && FieldWidths(widths) && Sum(widths) <= |Ahead()|
      modifies this
      ensures Valid() && FieldsFit(values, widths) && old(Ahead()) == FieldBits(values, widths) + Ahead()
      ensures consumed == old(consumed) + Sum(widths) && (widths != [] ==> ptrAddr == (consumed + 7) / 8)
    {
      values := [];
      var i := 0;
      ghost var stream := Ahead();
      while i < |widths|
        invariant 0 <= i <= |widths| && Valid() && Sum(widths[i..]) <= |Ahead()|
        invariant FieldsFit(values, widths[..i]) && stream == FieldBits(values, widths[..i]) + Ahead()
        invariant consumed + Sum(widths[i..]) == old(consumed) + Sum(widths)
        invariant i > 0 ==> ptrAddr == (consumed + 7) / 8
      {
        SumFrom(widths, i);
        TakeNext(widths, i);
        values := NextField(widths[i], values, widths[..i], stream);
        i := i + 1;
      }
      assert widths[..i] == widths;
    }

    // read16 and read8, one after the other.
    method ReadCoefficients(widths: seq<uint8>, ghost k: seq<nat>, ghost rest: seq<nat>) returns (values: seq<nat>)
      requires Valid() && FieldsFit(k, widths) && Ahead() == FieldBits(k, widths) + rest
      modifies this
      ensures Valid() && values == k && Ahead() == rest
    {
      FieldBitsLength(k, widths);
      values := ReadFields(widths);
      FieldsUnique(values, k, widths, Ahead(), rest);
    }

    // A frame behind its energy, when that is neither a rest nor the stop.
    method ReadBody(energy: uint8, ghost f: SpeechFrame, ghost rest: seq<nat>) returns (frame: SpeechFrame)
      requires Valid() && ValidFrame(f) && !f.Rest? && energy == f.energy && Ahead() == AfterEnergy(f) + rest
      modifies this
      ensures Valid() && frame == f && Ahead() == rest
    {
      ghost var coefficients := AfterPeriod(f);
      BodyFields(f, rest);
      var repeat := ReadField(1, if f.Repeated? then 1 else 0, Field(f.period, 6) + (coefficients + rest));
      var period := ReadField(6, f.period, coefficients + rest);
      if repeat == 1 {
        assert coefficients + rest == rest;
        return Repeated(energy, period);
      }
      var k := ReadCoefficients(Widths(period), f.k, rest);
      return Spoken(energy, period, k);
    }

    // One frame; None is the one that stops.
    method ReadFrame(ghost left: seq<SpeechFrame>, ghost rest: seq<nat>) returns (frame: Option<SpeechFrame>)
      requires Valid() && AllValid(left) && Ahead() == SpeechBits(left) + rest
      modifies this
      ensures Valid()
      ensures if left == [] then frame == None && Ahead() == rest
              else frame == Some(left[0]) && Ahead() == SpeechBits(left[1..]) + rest
    {
      EnergyFirst(left, rest);
      var energy := ReadField(4, EnergyOf(left), AfterFirst(left) + rest);
      if energy == 15 { return None; }
      BodyFirst(left, rest);
      if energy == 0 { return Some(Rest); }
      var body := ReadBody(energy, left[0], SpeechBits(left[1..]) + rest);
      return Some(body);
    }

    // The frame reader of say: it recovers the frames that were packed and stops at the stop frame.
    method ReadFrames(ghost fs: seq<SpeechFrame>, ghost rest: seq<nat>) returns (frames: seq<SpeechFrame>)
      requires Valid() && AllValid(fs) && Ahead() == SpeechBits(fs) + rest
      modifies this
      ensures Valid() && frames == fs && Ahead() == rest
    {
      frames := [];
      ghost var left := fs;
      while true
        invariant Valid() && AllValid(left) && frames + left == fs
        invariant Ahead() == SpeechBits(left) + rest
        decreases |left|
      {
        var frame := ReadFrame(left, rest);
        if frame == None {
          assert frames + left == frames;
          return;
        }
        MoveOne(frames, left);
        frames := frames + [frame.value];
        left := left[1..];
      }
    }
  }

  // The bits that were taken are those of the value they denote.
  lemma FieldTaken(ahead: seq<nat>, width: uint8)
    requires InBase(ahead, 2) && width <= |ahead|
    ensures ahead == Field(Val(ahead[..width], 2), width) + ahead[width..]
    ensures Val(ahead[..width], 2) < Pow(2, width)
  {
    ToDigitsOfVal(ahead[..width], 2);
    ValBound(ahead[..width], 2);
  }

  // Bits can be read as fields of given widths in one way only.
  lemma {:induction false} FieldsUnique(k: seq<nat>, l: seq<nat>, widths: seq<uint8>, x: seq<nat>, y: seq<nat>)
    requires FieldsFit(k, widths) && FieldsFit(l, widths) && FieldBits(k, widths) + x == FieldBits(l, widths) + y
    ensures k == l && x == y
    decreases |k|
  {
    FieldBitsLength(k, widths);
    FieldBitsLength(l, widths);
    if k == [] {
      assert [] + x == x && [] + y == y;
    } else {
      var w, restK, restL := widths[0], FieldBits(k[1..], widths[1..]), FieldBits(l[1..], widths[1..]);
      FirstField(k, widths, x);
      FirstField(l, widths, y);
      SamePrefix(Field(k[0], w), restK + x, Field(l[0], w), restL + y);
      FieldValue(k[0], w);
      FieldValue(l[0], w);
      FieldsUnique(k[1..], l[1..], widths[1..], x, y);
      assert k == [k[0]] + k[1..] && l == [l[0]] + l[1..];
    }
  }

  lemma FieldAdded(stream: seq<nat>, k: seq<nat>, widths: seq<uint8>, ahead: seq<nat>, width: uint8)
    requires FieldsFit(k, widths) && stream == FieldBits(k, widths) + ahead
    requires InBase(ahead, 2) && 1 <= width <= 8 && width <= |ahead|
    ensures var longer := k + [Val(ahead[..width], 2)];
            FieldsFit(longer, widths + [width]) && stream == FieldBits(longer, widths + [width]) + ahead[width..]
  {
    var v := Val(ahead[..width], 2);
    FieldTaken(ahead, width);
    FieldsFitSnoc(k, widths, v, width);
    FieldBitsSnoc(k, widths, v, width);
    assert FieldBits(k, widths) + (Field(v, width) + ahead[width..])
           == (FieldBits(k, widths) + Field(v, width)) + ahead[width..];
  }

  lemma FieldsFitSnoc(k: seq<nat>, widths: seq<uint8>, v: nat, width: uint8)
    requires FieldsFit(k, widths) && 1 <= width <= 8 && v < Pow(2, width)
    ensures FieldsFit(k + [v], widths + [width])
  {
  }

  lemma TakeNext(widths: seq<uint8>, i: nat)
    requires i < |widths|
    ensures widths[..i + 1] == widths[..i] + [widths[i]]
  {
  }

  lemma SumFrom(widths: seq<uint8>, i: nat)
    requires i < |widths|
    ensures Sum(widths[i..]) == widths[i] + Sum(widths[i + 1..])
  {
    assert widths[i..][1..] == widths[i + 1..];
  }

  lemma FirstField(k: seq<nat>, widths: seq<uint8>, rest: seq<nat>)
    requires |k| == |widths| > 0
    ensures FieldBits(k, widths) + rest == Field(k[0], widths[0]) + (FieldBits(k[1..], widths[1..]) + rest)
  {
  }

  lemma SamePrefix(a: seq<nat>, x: seq<nat>, b: seq<nat>, y: seq<nat>)
    requires |a| == |b| && a + x == b + y
    ensures a == b && x == y
  {
    assert a == (a + x)[..|a|] && b == (b + y)[..|b|] && x == (a + x)[|a|..] && y == (b + y)[|b|..];
  }

  // Taking n of the pending bits takes n bits of the stream.
  lemma NextBits(stream: seq<nat>, consumed: nat, pending: seq<nat>, tail: seq<nat>, n: nat)
    requires consumed <= |stream| && pending + tail == stream[consumed..] && n <= |pending|
    ensures stream[consumed..][..n] == pending[..n]
    ensures pending[n..] + tail == stream[consumed..][n..] == stream[consumed + n..]
  {
    TakePending(pending, tail, n);
    DropDrop(stream, consumed, n);
  }

  lemma DropDrop(s: seq<nat>, m: nat, n: nat)
    requires m + n <= |s|
    ensures s[m..][n..] == s[m + n..]
  {
  }

  lemma NothingRead(rom: seq<uint8>)
    ensures Holds(0, []) && [] + Stream(rom[0..]) == Stream(rom)[0..] == Stream(rom)
  {
    assert rom[0..] == rom;
  }

  lemma ByteFits(bits: seq<nat>)
    requires |bits| <= 8 && InBase(bits, 2)
    ensures Val(bits, 2) < 0x100
  {
    ValBound(bits, 2);
    PowAdd(2, |bits|, 8 - |bits|);
    Pow8();
    MulLess(0, Pow(2, |bits|), Pow(2, 8 - |bits|));
    AtLeast(Pow(2, |bits|), Pow(2, 8 - |bits|));
  }

  lemma AtLeast(x: nat, y: nat)
    requires y >= 1
    ensures x * y >= x
  {
  }

  lemma EnergyFits()
    ensures Pow(2, 4) == 16
  {
    assert Pow(2, 2) == 4;
  }

  lemma PeriodFits()
    ensures Pow(2, 6) == 64
  {
    EnergyFits();
    PowAdd(2, 4, 2);
  }

  // What follows the energy of a frame, and its period.
  function AfterEnergy(f: SpeechFrame): seq<nat>
    requires ValidFrame(f)
  {
    match f
    case Rest => []
    case Repeated(_, period) => Field(1, 1) + Field(period, 6)
    case Spoken(_, period, k) => Field(0, 1) + (Field(period, 6) + FieldBits(k, Widths(period)))
  }

  function AfterPeriod(f: SpeechFrame): seq<nat>
    requires ValidFrame(f)
  {
    if f.Spoken? then FieldBits(f.k, Widths(f.period)) else []
  }

  lemma BodyFields(f: SpeechFrame, rest: seq<nat>)
    requires ValidFrame(f) && !f.Rest?
    ensures Pow(2, 1) == 2 && Pow(2, 6) == 64
    ensures AfterEnergy(f) + rest
            == Field(if f.Repeated? then 1 else 0, 1) + (Field(f.period, 6) + (AfterPeriod(f) + rest))
  {
    PeriodFits();
  }

  // The energy that comes next: 15 when no frames are left.
  function EnergyOf(fs: seq<SpeechFrame>): nat { if fs == [] then 15 else if fs[0].Rest? then 0 else fs[0].energy }

  function AfterFirst(fs: seq<SpeechFrame>): seq<nat>
    requires AllValid(fs)
  {
    if fs == [] then [] else AfterEnergy(fs[0]) + SpeechBits(fs[1..])
  }

  lemma FrameSplit(f: SpeechFrame)
    requires ValidFrame(f)
    ensures FrameBits(f) == Field(if f.Rest? then 0 else f.energy, 4) + AfterEnergy(f)
  {
    if f.Rest? { assert Field(0, 4) + [] == Field(0, 4); }
  }

  lemma Regrouped(x: seq<nat>, y: seq<nat>, z: seq<nat>, rest: seq<nat>)
    ensures ((x + y) + z) + rest == x + ((y + z) + rest) && (y + z) + rest == y + (z + rest)
  {
  }

  lemma EnergyFirst(fs: seq<SpeechFrame>, rest: seq<nat>)
    requires AllValid(fs)
    ensures EnergyOf(fs) < Pow(2, 4) && SpeechBits(fs) + rest == Field(EnergyOf(fs), 4) + (AfterFirst(fs) + rest)
    ensures EnergyOf(fs) == 15 <==> fs == []
    ensures fs == [] ==> AfterFirst(fs) + rest == rest
  {
    EnergyFits();
    if fs == [] {
      assert [] + rest == rest;
    } else {
      FrameSplit(fs[0]);
      Regrouped(Field(EnergyOf(fs), 4), AfterEnergy(fs[0]), SpeechBits(fs[1..]), rest);
    }
  }

  lemma BodyFirst(fs: seq<SpeechFrame>, rest: seq<nat>)
    requires AllValid(fs) && fs != []
    ensures AfterFirst(fs) + rest == AfterEnergy(fs[0]) + (SpeechBits(fs[1..]) + rest)
    ensures fs[0].Rest? ==> AfterFirst(fs) + rest == SpeechBits(fs[1..]) + rest
    ensures fs[0].Rest? <==> EnergyOf(fs) == 0
  {
    Regrouped([], AfterEnergy(fs[0]), SpeechBits(fs[1..]), rest);
  }

  lemma PrefixAndRest(x: seq<nat>, y: seq<nat>)
    requires x <= y
    ensures y == x + y[|x|..]
  {
  }

  lemma MoveOne(done: seq<SpeechFrame>, left: seq<SpeechFrame>)
    requires left != [] && AllValid(left)
    ensures (done + [left[0]]) + left[1..] == done + left && AllValid(left[1..])
  {
  }

  // Any list of frames, packed into bytes, is read back.
  method ReadPacked(fs: seq<SpeechFrame>) returns (frames: seq<SpeechFrame>)
    requires AllValid(fs)
    ensures frames == fs
  {
    SpeechInBase(fs);
    var bits := SpeechBits(fs);
    var rom := Pack(bits);
    StreamOfPack(bits);
    ghost var rest := Stream(rom)[|bits|..];
    PrefixAndRest(bits, Stream(rom));
    var reader := new Reader(rom);
    frames := reader.ReadFrames(fs, rest);
  }

  lemma {:induction false} FieldsInBase(k: seq<nat>, widths: seq<uint8>)
    requires |k| == |widths|
    ensures InBase(FieldBits(k, widths), 2)
  {
    if k != [] { FieldsInBase(k[1..], widths[1..]); }
  }

  lemma FrameInBase(f: SpeechFrame)
    requires ValidFrame(f)
    ensures InBase(FrameBits(f), 2)
  {
    if f.Spoken? { FieldsInBase(f.k, Widths(f.period)); }
  }

  lemma {:induction false} SpeechInBase(fs: seq<SpeechFrame>)
    requires AllValid(fs)
    ensures InBase(SpeechBits(fs), 2)
  {
    if fs != [] {
      SpeechInBase(fs[1..]);
      FrameInBase(fs[0]);
    }
  }
}
