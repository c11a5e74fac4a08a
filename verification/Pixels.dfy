// The pixel store of a strip: colours in RAM, already multiplied by the brightness.
module Pixels {
  import opened Digits

  // Where each component sits within a pixel; w == r means that there is no white.
  datatype Order = Order(w: uint8, r: uint8, g: uint8, b: uint8) {
    function Size(): nat { if w == r then 3 else 4 }

    // The colour orders with a name: every component has a place of its own.
    predicate Named() {
      && r != g && r != b && g != b && r < Size() && g < Size() && b < Size()
      && (w != r ==> w < 4 && w != g && w != b)
    }
  }

  datatype Color = Color(w: uint8, r: uint8, g: uint8, b: uint8)

  // A packed colour: white, red, green and blue from the most significant byte down.
  function Pack(c: Color): uint32 { ((c.w * 0x100 + c.r) * 0x100 + c.g) * 0x100 + c.b }

  function Unpack(x: uint32): Color {
    var upper := x / 0x100;
    Color(upper / 0x100 / 0x100, upper / 0x100 % 0x100, upper % 0x100, x % 0x100)
  }

  // No component of a packed colour bleeds into its neighbour.
  lemma UnpackOfPack(c: Color)
    ensures Unpack(Pack(c)) == c
  {
    var upper := (c.w * 0x100 + c.r) * 0x100 + c.g;
    ModUnique(Pack(c), 0x100, upper, c.b);
    ModUnique(upper, 0x100, c.w * 0x100 + c.r, c.g);
    ModUnique(c.w * 0x100 + c.r, 0x100, c.w, c.r);
  }

  // White is the top byte, blue the lowest.
  lemma PackedBytes(c: Color)
    ensures Pack(c) / 0x100_0000 == c.w && Pack(c) / 0x1_0000 % 0x100 == c.r
    ensures Pack(c) / 0x100 % 0x100 == c.g && Pack(c) % 0x100 == c.b
  {
    var low := (c.r * 0x100 + c.g) * 0x100 + c.b;
    ModUnique(Pack(c), 0x100_0000, c.w, low);
    ModUnique(Pack(c), 0x1_0000, c.w * 0x100 + c.r, c.g * 0x100 + c.b);
    ModUnique(Pack(c), 0x100, (c.w * 0x100 + c.r) * 0x100 + c.g, c.b);
  }

  // brightness is stored plus one, so that 0 stands for 256: no scaling.
  datatype Strip = Strip(order: Order, numLEDs: uint16, pixels: seq<uint8>, brightness: uint8) {
    function GetBrightness(): uint8 { if brightness == 0 then 255 else brightness - 1 }

    function Offset(n: nat): nat { if order.w == order.r then 3 * n else 4 * n }

    predicate Valid() { order.Named() && |pixels| == Offset(numLEDs) < 0x1_0000 && Dimmed(pixels, GetBrightness()) }

    function At(n: nat, offset: uint8): uint8
      requires Valid() && n < numLEDs && offset < order.Size()
    {
      pixels[Offset(n) + offset]
    }
  }

  // No stored byte is brighter than the strip.
  predicate Dimmed(bytes: seq<uint8>, limit: uint8) { forall i :: 0 <= i < |bytes| ==> bytes[i] <= limit }

  // --- Scaling ---

  // What is stored of component c.
  function Scaled(c: uint8, brightness: uint8): (s: uint8)
    ensures brightness != 0 ==> s < brightness
  {
    if brightness == 0 then c else c * brightness / 0x100
  }

  // What is read back of the stored byte s.
  function Unscaled(s: uint8, brightness: uint8): uint8
    requires brightness == 0 || s < brightness
  {
    if brightness == 0 then s
    else
      QuotientFits(s, brightness);
      s * 0x100 / brightness
  }

  lemma QuotientFits(s: nat, brightness: nat)
    requires s < brightness
    ensures 0 <= s * 0x100 / brightness < 0x100
  {
    var q := s * 0x100 / brightness;
    assert q * brightness <= s * 0x100 < brightness * 0x100;
    MulLeq(0x100, q, brightness);
  }

  lemma MulLeq(x: nat, y: nat, s: nat)
    ensures x <= y ==> x * s <= y * s
  {
  }

  // A component that was written and read back: exact at full brightness, otherwise less by a bounded amount.
  predicate Close(written: uint8, read: uint8, brightness: uint8) {
    if brightness == 0 then read == written
    else read <= written && brightness * (written - read) < 0x100 + brightness
  }

  lemma ScaleRoundTrip(c: uint8, brightness: uint8)
    ensures Close(c, Unscaled(Scaled(c, brightness), brightness), brightness)
  {
    if brightness != 0 {
      var s := Scaled(c, brightness);
      var g := Unscaled(s, brightness);
      assert s * 0x100 <= c * brightness < s * 0x100 + 0x100;
      assert g * brightness <= s * 0x100 < g * brightness + brightness;
      Difference(brightness, c, g);
      MulLeq(c + 1, g, brightness);
    }
  }

  lemma Difference(m: nat, x: int, y: int)
    ensures m * (x - y) == x * m - y * m
  {
  }

  // setBrightness: the factor, in 8.8 fixed point, from the old to the new brightness
  function Rescale(was: uint8, b: uint8): (scale: uint16)
  {
    if was == 0 then 0
    else if b == 255 then
      ScaleFits(65535, was);
      65535 / was
    else
      ScaleFits((b + 1) * 0x100 - 1, was);
      ((b + 1) * 0x100 - 1) / was
  }

  lemma ScaleFits(x: nat, was: nat)
    requires was > 0 && x < 0x1_0000
    ensures 0 <= x / was < 0x1_0000
  {
    MulLeq(1, was, x / was);
  }

  // The product of a stored byte and the factor fits 16 bits, and its upper byte the new brightness.
  lemma RescaleBound(c: uint8, was: uint8, b: uint8)
    requires c <= was
    ensures c * Rescale(was, b) <= 65535 && c * Rescale(was, b) / 0x100 <= b
  {
    var scale := Rescale(was, b);
    if was == 0 {
      assert c == 0;
    } else {
      var limit: nat := if b == 255 then 65535 else (b + 1) * 0x100 - 1;
      assert scale * was <= limit;
      MulLeq(c, was, scale);
    }
  }

  function RescaleByte(c: uint8, was: uint8, b: uint8): (r: uint8)
    requires c <= was
    ensures r <= b
  {
    RescaleBound(c, was, b);
    c * Rescale(was, b) / 0x100
  }

  // Byte c of a strip with brightness was becomes r at brightness b: c * b / was, in fractions that are
  // less than one step off either way.
  predicate Rescaled(c: uint8, r: uint8, was: uint8, b: uint8) {
    && r * (was * 0x100) <= c * ((b + 1) * 0x100 - 1)
    && c * ((b + 1) * 0x100 - was) < (was * 0x100) * (r + 1)
  }

  lemma FactorBounds(was: uint8, b: uint8)
    requires was > 0
    ensures (b + 1) * 0x100 - was <= Rescale(was, b) * was <= (b + 1) * 0x100 - 1
  {
  }

  lemma ProductBounds(c: nat, scale: nat, was: nat, low: int, high: int, r: nat)
    requires low <= scale * was <= high && r == c * scale / 0x100 && was > 0
    ensures r * (was * 0x100) <= c * high && c * low < (was * 0x100) * (r + 1)
  {
    assert r * 0x100 <= c * scale < (r + 1) * 0x100;
    Grouped(r, c * scale, was);
    MulLess(c * scale, (r + 1) * 0x100, was);
    Associate(c, scale, was);
    Monotone(c, low, scale * was);
    Monotone(c, scale * was, high);
    assert (r + 1) * 0x100 * was == (was * 0x100) * (r + 1);
  }

  lemma Grouped(r: nat, x: nat, was: nat)
    requires r * 0x100 <= x
    ensures r * (was * 0x100) <= x * was
  {
    MulLeq(r * 0x100, x, was);
    Associate(r, 0x100, was);
  }

  lemma Monotone(c: nat, x: int, y: int)
    requires x <= y
    ensures c * x <= c * y
  {
  }

  // No byte keeps less light than it should, or gets more.
  lemma RescaleKeepsLight(c: uint8, was: uint8, b: uint8)
    requires 0 < was && c <= was
    ensures Rescaled(c, RescaleByte(c, was, b), was, b)
  {
    FactorBounds(was, b);
    ProductBounds(c, Rescale(was, b), was, (b + 1) * 0x100 - was, (b + 1) * 0x100 - 1, RescaleByte(c, was, b));
  }

  // A byte that is as bright as the strip stays so.
  lemma RescaleFull(was: uint8, b: uint8)
    requires 0 < was
    ensures RescaleByte(was, was, b) == b
  {
    var r: int := RescaleByte(was, was, b);
    RescaleKeepsLight(was, was, b);
    Associate(was, 0x100, r + 1);
    CancelFactor(was, (b + 1) * 0x100 - was, 0x100 * (r + 1));
  }

  lemma CancelFactor(was: nat, x: int, y: int)
    requires was > 0 && was * x < was * y
    ensures x < y
  {
  }

  lemma RescaleNothing(c: uint8, b: uint8)
    requires c <= 0
    ensures RescaleByte(c, 0, b) == 0
  {
  }

  // --- Operations ---

  // A new strip is dark and at full brightness.
  function Reset(order: Order, n: uint16): (s: Strip)
    requires order.Named() && n * order.Size() < 0x1_0000
    ensures s.Valid() && s.GetBrightness() == 255
  {
    var s := Strip(order, n, [], 0);
    s.(pixels := seq(s.Offset(n), _ => 0))
  }

  // The bytes of c as they are stored.
  function ScaledColor(c: Color, brightness: uint8): Color {
    Color(Scaled(c.w, brightness), Scaled(c.r, brightness), Scaled(c.g, brightness), Scaled(c.b, brightness))
  }

  // Pixel n of a buffer in this order; on strips without white that component is left out.
  function StoreAt(bytes: seq<uint8>, o: Order, p: nat, c: Color): (r: seq<uint8>)
    requires o.Named() && p + o.Size() <= |bytes|
    ensures |r| == |bytes|
  {
    var whitened := if o.w == o.r then bytes else bytes[p + o.w := c.w];
    whitened[p + o.r := c.r][p + o.g := c.g][p + o.b := c.b]
  }

  // setPixelColor with red, green, blue and white
  function SetColor(s: Strip, n: uint16, c: Color): (t: Strip)
    requires s.Valid()
    ensures t.Valid() && t.order == s.order && t.numLEDs == s.numLEDs && t.brightness == s.brightness
  {
    if n >= s.numLEDs then s
    else s.(pixels := StoreAt(s.pixels, s.order, s.Offset(n), ScaledColor(c, s.brightness)))
  }

  function GetColor(s: Strip, n: uint16): Color
    requires s.Valid()
  {
    if n >= s.numLEDs then Color(0, 0, 0, 0)
    else
      var o, b := s.order, s.brightness;
      Color(if o.w == o.r then 0 else Unscaled(s.At(n, o.w), b),
            Unscaled(s.At(n, o.r), b), Unscaled(s.At(n, o.g), b), Unscaled(s.At(n, o.b), b))
  }

  function RescaleAll(bytes: seq<uint8>, was: uint8, b: uint8): (r: seq<uint8>)
    requires Dimmed(bytes, was)
    ensures |r| == |bytes| && Dimmed(r, b)
  {
    seq(|bytes|, i requires 0 <= i < |bytes| => RescaleByte(bytes[i], was, b))
  }

  function SetBrightness(s: Strip, b: uint8): (t: Strip)
    requires s.Valid()
    ensures t.Valid() && t.GetBrightness() == b && t.order == s.order && t.numLEDs == s.numLEDs
  {
    var stored: uint8 := if b == 255 then 0 else b + 1;
    if stored == s.brightness then s
    else s.(pixels := RescaleAll(s.pixels, s.GetBrightness(), b), brightness := stored)
  }

  // The pixel behind the last one that fill reaches: the sum is a 16-bit one.
  function FillEnd(s: Strip, first: uint16, count: uint16): nat {
    if count == 0 then s.numLEDs
    else
      var end := (first + count) % 0x1_0000;
      if end > s.numLEDs then s.numLEDs else end
  }

  function FillFrom(s: Strip, c: Color, i: nat, end: nat): (t: Strip)
    requires s.Valid() && end <= s.numLEDs
    ensures t.Valid() && t.order == s.order && t.numLEDs == s.numLEDs && t.brightness == s.brightness
    decreases end - i
  {
    if i >= end then s else FillFrom(SetColor(s, i, c), c, i + 1, end)
  }

  function Fill(s: Strip, c: Color, first: uint16, count: uint16): (t: Strip)
    requires s.Valid()
    ensures t.Valid()
  {
    if first >= s.numLEDs then s else FillFrom(s, c, first, FillEnd(s, first, count))
  }

  function Clear(s: Strip): (t: Strip)
    requires s.Valid()
    ensures t.Valid()
  {
    s.(pixels := seq(|s.pixels|, _ => 0))
  }

  // Every byte of a strip is rescaled alike: none is left dark that was not, none is brighter than its
  // share, and those that were as bright as the strip still are.
  lemma BrightnessRescales(s: Strip, b: uint8, i: nat)
    requires s.Valid() && i < |s.pixels|
    ensures var was, c, r := s.GetBrightness(), s.pixels[i], SetBrightness(s, b).pixels[i];
            && (was > 0 ==> Rescaled(c, r, was, b)) && (was == 0 ==> r == 0) && (c == was > 0 ==> r == b)
  {
    var was, c := s.GetBrightness(), s.pixels[i];
    if was == 0 {
      RescaleNothing(c, b);
    } else if b == was {
      SameBrightness(c, was);
    } else {
      RescaleKeepsLight(c, was, b);
      RescaleFull(was, b);
    }
  }

  lemma SameBrightness(c: uint8, was: uint8)
    requires 0 < was && c <= was
    ensures Rescaled(c, c, was, was)
  {
    Distribute(c, was, c, 0x100);
    MulLeq(0, c, was);
    assert c * ((was + 1) * 0x100 - 1) == c * (was * 0x100) + c * 0xFF;
    assert c * ((was + 1) * 0x100 - was) == c * (was * 0x100) + c * 0x100 - c * was;
    assert (was * 0x100) * (c + 1) == c * (was * 0x100) + was * 0x100;
    if c > 0 { MulLess(0, c, was); }
  }

  // --- Dark strips ---

  predicate Dark(s: Strip) { forall i :: 0 <= i < |s.pixels| ==> s.pixels[i] == 0 }

  // A dark strip reads as black.
  lemma DarkReads(s: Strip, n: uint16)
    requires s.Valid() && Dark(s)
    ensures GetColor(s, n) == Color(0, 0, 0, 0)
  {
  }

  lemma ClearIsDark(s: Strip, n: uint16)
    requires s.Valid()
    ensures Dark(Clear(s)) && Clear(s) == s.(pixels := Clear(s).pixels) && GetColor(Clear(s), n) == Color(0, 0, 0, 0)
  {
    DarkReads(Clear(s), n);
  }

  // A new strip, and one of a new length, are dark; order and brightness stay.
  lemma NewLengthIsDark(s: Strip, n: uint16, m: uint16)
    requires s.order.Named() && s.Offset(n) < 0x1_0000
    ensures var t := UpdateLength(s, n);
            Dark(t) && t.numLEDs == n && t.order == s.order && t.brightness == s.brightness
            && GetColor(t, m) == Color(0, 0, 0, 0)
  {
    DarkReads(UpdateLength(s, n), m);
  }

  lemma NewStripIsDark(order: Order, n: uint16, m: uint16)
    requires order.Named() && n * order.Size() < 0x1_0000
    ensures var t := Reset(order, n);
            Dark(t) && t.numLEDs == n && t.order == order && GetColor(t, m) == Color(0, 0, 0, 0)
  {
    DarkReads(Reset(order, n), m);
  }

  // A colour order of the same size leaves the bytes as they are, so that going back restores every
  // colour; one of another size leaves a dark strip of the same length.
  lemma TypeKeepsBytes(s: Strip, order: Order)
    requires s.Valid() && Legal(s, Type(order))
    ensures var t := UpdateType(s, order);
            && t.order == order && t.numLEDs == s.numLEDs && t.brightness == s.brightness
            && if order.Size() != s.order.Size() then Dark(t)
               else Legal(t, Type(s.order)) && UpdateType(t, s.order) == s
  {
  }

  // Pixels that are not there are not written, and read as black.
  lemma OutOfRange(s: Strip, n: uint16, c: Color, count: uint16)
    requires s.Valid() && n >= s.numLEDs
    ensures SetColor(s, n, c) == s && Fill(s, c, n, count) == s && GetColor(s, n) == Color(0, 0, 0, 0)
  {
  }

  // --- What is written is read back ---

  // What a strip of this order and brightness returns for a pixel set to c.
  function Echo(order: Order, brightness: uint8, c: Color): Color {
    Color(if order.w == order.r then 0 else Unscaled(Scaled(c.w, brightness), brightness),
          Unscaled(Scaled(c.r, brightness), brightness), Unscaled(Scaled(c.g, brightness), brightness),
          Unscaled(Scaled(c.b, brightness), brightness))
  }

  // Every component reads back exactly at full brightness, and otherwise less than 1 + 256 / brightness
  // below what was written; strips without white return none.
  lemma EchoIsClose(order: Order, brightness: uint8, c: Color)
    ensures var read := Echo(order, brightness, c);
            && (if order.w == order.r then read.w == 0 else Close(c.w, read.w, brightness))
            && Close(c.r, read.r, brightness) && Close(c.g, read.g, brightness) && Close(c.b, read.b, brightness)
  {
    ScaleRoundTrip(c.w, brightness);
    ScaleRoundTrip(c.r, brightness);
    ScaleRoundTrip(c.g, brightness);
    ScaleRoundTrip(c.b, brightness);
  }

  lemma StoredBytes(s: Strip, n: uint16, c: Color)
    requires s.Valid() && n < s.numLEDs
    ensures var t := SetColor(s, n, c);
            && t.At(n, s.order.r) == Scaled(c.r, s.brightness) && t.At(n, s.order.g) == Scaled(c.g, s.brightness)
            && t.At(n, s.order.b) == Scaled(c.b, s.brightness)
            && (s.order.w != s.order.r ==> t.At(n, s.order.w) == Scaled(c.w, s.brightness))
  {
  }

  lemma OtherBytes(s: Strip, n: uint16, c: Color, m: uint16, offset: uint8)
    requires s.Valid() && m < s.numLEDs && m != n && offset < s.order.Size()
    ensures SetColor(s, n, c).At(m, offset) == s.At(m, offset)
  {
  }

  // For every named colour order and in every reachable state, setting a pixel changes what is read
  // of that pixel and of no other.
  lemma SetThenGet(s: Strip, n: uint16, c: Color, m: uint16)
    requires s.Valid() && n < s.numLEDs
    ensures GetColor(SetColor(s, n, c), m) == if m == n then Echo(s.order, s.brightness, c) else GetColor(s, m)
  {
    if m == n {
      StoredBytes(s, n, c);
    } else if m < s.numLEDs {
      OtherBytes(s, n, c, m, s.order.r);
      OtherBytes(s, n, c, m, s.order.g);
      OtherBytes(s, n, c, m, s.order.b);
      if s.order.w != s.order.r { OtherBytes(s, n, c, m, s.order.w); }
    }
  }

  lemma FillNext(s: Strip, c: Color, i: uint16, end: nat)
    requires s.Valid() && i < end <= s.numLEDs
    ensures FillFrom(s, c, i, end) == FillFrom(SetColor(s, i, c), c, i + 1, end)
  {
  }

  // t is s with the pixels from i to end filled, as far as pixel m tells.
  predicate FilledAt(s: Strip, t: Strip, c: Color, i: nat, end: nat, m: uint16)
    requires s.Valid() && t.Valid()
  {
    GetColor(t, m) == if i <= m < end then Echo(s.order, s.brightness, c) else GetColor(s, m)
  }

  lemma {:induction false} FillReads(s: Strip, c: Color, i: nat, end: nat, m: uint16)
    requires s.Valid() && end <= s.numLEDs
    ensures FilledAt(s, FillFrom(s, c, i, end), c, i, end, m)
    decreases end - i
  {
    if i < end {
      FillReads(SetColor(s, i, c), c, i + 1, end, m);
      FillStep(s, c, i, end, m);
    } else {
      assert FillFrom(s, c, i, end) == s;
    }
  }

  lemma FillStep(s: Strip, c: Color, i: nat, end: nat, m: uint16)
    requires s.Valid() && i < end <= s.numLEDs
    requires var t := SetColor(s, i, c); FilledAt(t, FillFrom(t, c, i + 1, end), c, i + 1, end, m)
    ensures FilledAt(s, FillFrom(s, c, i, end), c, i, end, m)
  {
    FillNext(s, c, i, end);
    SetThenGet(s, i, c, m);
  }

  // Should pixel m be filled? count 0 means to the end; the range is cut off there.
  predicate InRange(s: Strip, first: uint16, count: uint16, m: uint16) {
    first <= m < s.numLEDs && (count == 0 || m < first + count)
  }

  // fill reaches exactly the pixels asked for if and only if first + count fits 16 bits; beyond that
  // it fills none of them.
  lemma FillExactly(s: Strip, first: uint16, count: uint16)
    requires s.Valid() && first < s.numLEDs
    ensures (forall m: uint16 :: InRange(s, first, count, m) <==> first <= m < FillEnd(s, first, count))
            <==> first + count < 0x1_0000
    ensures first + count >= 0x1_0000 ==> FillEnd(s, first, count) <= first
  {
    if first + count >= 0x1_0000 {
      assert InRange(s, first, count, first) && !(first <= first < FillEnd(s, first, count));
    }
  }

  lemma FillThenGet(s: Strip, c: Color, first: uint16, count: uint16, m: uint16)
    requires s.Valid() && first < s.numLEDs && first + count < 0x1_0000
    ensures GetColor(Fill(s, c, first, count), m)
            == if InRange(s, first, count, m) then Echo(s.order, s.brightness, c) else GetColor(s, m)
  {
    FillReads(s, c, first, FillEnd(s, first, count), m);
    FillExactly(s, first, count);
    assert InRange(s, first, count, m) <==> first <= m < FillEnd(s, first, count);
  }

  // --- Every run ---

  datatype Step =
    | Set(n: uint16, c: Color)
    | Brightness(b: uint8)
    | FillWith(c: Color, first: uint16, count: uint16)
    | ClearAll
    | Length(n: uint16)
    | Type(order: Order)

  // updateLength allocates and clears; an allocation that fails leaves no pixels.
  function UpdateLength(s: Strip, n: uint16): (t: Strip)
    requires s.order.Named() && s.Offset(n) < 0x1_0000
    ensures t.Valid()
  {
    s.(numLEDs := n, pixels := seq(s.Offset(n), _ => 0))
  }

  // updateType reallocates when the size of a pixel changes.
  function UpdateType(s: Strip, order: Order): (t: Strip)
    requires s.Valid() && order.Named() && s.(order := order).Offset(s.numLEDs) < 0x1_0000
    ensures t.Valid()
  {
    var t := s.(order := order);
    if order.Size() == s.order.Size() then t else UpdateLength(t, s.numLEDs)
  }

  // What the strip asks of its callers: named orders, and buffers that 16 bits can count.
  predicate Legal(s: Strip, step: Step) {
    match step
    case Length(n) => s.Offset(n) < 0x1_0000
    case Type(order) => order.Named() && s.(order := order).Offset(s.numLEDs) < 0x1_0000
    case _ => true
  }

  function Take(s: Strip, step: Step): (t: Strip)
    requires s.Valid() && Legal(s, step)
    ensures t.Valid()
  {
    match step
    case Set(n, c) => SetColor(s, n, c)
    case Brightness(b) => SetBrightness(s, b)
    case FillWith(c, first, count) => Fill(s, c, first, count)
    case ClearAll => Clear(s)
    case Length(n) => UpdateLength(s, n)
    case Type(order) => UpdateType(s, order)
  }

  predicate AllLegal(s: Strip, steps: seq<Step>)
    requires s.Valid()
    decreases |steps|
  {
    steps == [] || (Legal(s, steps[0]) && AllLegal(Take(s, steps[0]), steps[1..]))
  }

  function Run(s: Strip, steps: seq<Step>): (t: Strip)
    requires s.Valid() && AllLegal(s, steps)
    ensures t.Valid()
    decreases |steps|
  {
    if steps == [] then s else Run(Take(s, steps[0]), steps[1..])
  }

  // In every state that a run reaches, no stored byte is brighter than the strip, so that neither
  // the 16-bit products of the next setBrightness nor the bytes they leave overflow.
  lemma NeverBrighter(s: Strip, steps: seq<Step>, b: uint8, i: nat)
    requires s.Valid() && AllLegal(s, steps) && i < |Run(s, steps).pixels|
    ensures var t := Run(s, steps);
            t.pixels[i] <= t.GetBrightness() && t.pixels[i] * Rescale(t.GetBrightness(), b) <= 65535
            && t.pixels[i] * Rescale(t.GetBrightness(), b) / 0x100 <= b
  {
    var t := Run(s, steps);
    RescaleBound(t.pixels[i], t.GetBrightness(), b);
  }
}
