// ColorHSV: hue, saturation and value to red, green and blue in integer arithmetic.
module ColorWheel {
  import opened Digits
  import opened Pixels

  datatype RGB = RGB(r: uint8, g: uint8, b: uint8)

  // 16-bit hues are mapped to 0..1530; red is centred on the rollover, and 1530 is red again.
  function Position(hue: uint16): (h: nat)
    ensures h <= 1530
  {
    (hue * 1530 + 32768) / 65536
  }

  // The six ramps of the colour wheel.
  function Pure(h: nat): RGB {
    if h < 510 then (if h < 255 then RGB(255, h, 0) else RGB(510 - h, 255, 0))
    else if h < 1020 then (if h < 765 then RGB(0, 255, h - 510) else RGB(0, 1020 - h, 255))
    else if h < 1530 then (if h < 1275 then RGB(h - 1020, 0, 255) else RGB(255, 0, 1530 - h))
    else RGB(255, 0, 0)
  }

  // The way from h to k around the wheel.
  function Distance(h: nat, k: nat): nat
    requires h <= 1530 && k <= 1530
  {
    var d := if h < k then k - h else h - k;
    if d <= 765 then d else 1530 - d
  }

  // A component is full within 255 steps of its own hue, and falls to nothing at 510.
  function Ramp(distance: nat): uint8 { if distance <= 255 then 255 else if distance >= 510 then 0 else 510 - distance }

  // Red sits at 0, green a third of the wheel further on, and blue another third.
  function Wheel(h: nat): RGB
    requires h <= 1530
  {
    RGB(Ramp(Distance(h, 0)), Ramp(Distance(h, 510)), Ramp(Distance(h, 1020)))
  }

  // The six ramps are the three components, each from its distance.
  lemma PureIsWheel(h: nat)
    requires h <= 1530
    ensures Pure(h) == Wheel(h)
  {
  }

  // The position is the nearest one.
  lemma PositionNearest(hue: uint16)
    ensures -32768 <= hue * 1530 - Position(hue) * 65536 < 32768
  {
  }

  // Saturation lifts every component towards white.
  function Lift(c: uint8, sat: uint8): uint8 {
    ProductFits(c, 1 + sat);
    c * (1 + sat) / 0x100 + (255 - sat)
  }

  // Value scales it.
  function Dim(c: uint8, val: uint8): (s: uint8)
    ensures s <= val
  {
    ProductFits(c, 1 + val);
    c * (1 + val) / 0x100
  }

  function Shade(c: uint8, sat: uint8, val: uint8): (s: uint8)
    ensures s <= val
  {
    Dim(Lift(c, sat), val)
  }

  lemma ProductFits(x: nat, y: nat)
    requires x <= 255 && y > 0
    ensures 0 <= x * y / 0x100 <= y - 1
  {
    assert (255 - x) * y >= 0;
    assert 255 * y - x * y == (255 - x) * y;
  }

  function Shaded(c: RGB, sat: uint8, val: uint8): RGB {
    RGB(Shade(c.r, sat, val), Shade(c.g, sat, val), Shade(c.b, sat, val))
  }

  function ColorHSV(hue: uint16, sat: uint8, val: uint8): RGB { Shaded(Pure(Position(hue)), sat, val) }

  // --- How far the integers are from the exact values ---

  // Between white and the pure component, by the saturation: 255 - (255 - c) * sat / 255
  lemma LiftClose(c: uint8, sat: uint8)
    ensures -255 < 255 * Lift(c, sat) - (65025 - (255 - c) * sat) < 255
  {
    var p := c * (1 + sat);
    assert p == c + c * sat && (255 - c) * sat == 255 * sat - c * sat;
    assert 0 <= c * (255 - sat) <= 65025 && c * (255 - sat) == 255 * c - c * sat by { WithinWord(c, 255 - sat); }
    Quotient(p, c * sat, c);
  }

  lemma Quotient(p: nat, product: nat, c: nat)
    requires p == product + c && 0 <= 255 * c - product <= 65025
    ensures -255 < 255 * (p / 0x100) - product < 255
  {
  }

  // The value's share: c * val / 255
  lemma DimClose(c: uint8, val: uint8)
    ensures -255 < 255 * Dim(c, val) - c * val < 255
  {
    assert c * (1 + val) == c + c * val;
    assert 0 <= c * (255 - val) <= 65025 && c * (255 - val) == 255 * c - c * val by { WithinWord(c, 255 - val); }
    Quotient(c * (1 + val), c * val, c);
  }

  // --- The packed colour ---

  // x & 0xff00, for a 32-bit x
  function Masked(x: uint32): uint32 { x / 0x100 % 0x100 * 0x100 }

  // A component before it is shifted to its place: the value in the upper byte, a fraction in the lower.
  function Product(c: uint8, sat: uint8, val: uint8): (p: uint32)
    ensures p < 0x1_0000
  {
    WithinWord(Lift(c, sat), 1 + val);
    Lift(c, sat) * (1 + val)
  }

  lemma WithinWord(x: nat, y: nat)
    requires x <= 255 && y <= 0x100
    ensures 0 <= x * y <= 255 * 0x100
  {
    MulLeq(x, 255, y);
    MulLeq(y, 0x100, 255);
  }

  // Red is shifted up, green stays where it is, blue is shifted down.
  function PackedHSV(hue: uint16, sat: uint8, val: uint8): nat {
    var c := Pure(Position(hue));
    Or(Or(Masked(Product(c.r, sat, val)) * 0x100, Masked(Product(c.g, sat, val))), Product(c.b, sat, val) / 0x100)
  }

  lemma MaskedProduct(c: uint8, sat: uint8, val: uint8)
    ensures Masked(Product(c, sat, val)) == Shade(c, sat, val) * 0x100
    ensures Product(c, sat, val) / 0x100 == Shade(c, sat, val)
  {
    UpperByte(Product(c, sat, val), Shade(c, sat, val));
  }

  lemma UpperByte(p: uint32, s: uint8)
    requires p / 0x100 == s
    ensures Masked(p) == s * 0x100
  {
  }

  lemma OrOfBytes(r: uint8, g: uint8, b: uint8)
    ensures Or(Or(r * 0x100 * 0x100, g * 0x100), b) == Pack(Color(0, r, g, b))
  {
    Pow8();
    Pow16();
    OrDisjoint(r, g * 0x100, 16);
    OrDisjoint(r * 0x100 + g, b, 8);
  }

  // No component carries into its neighbour: the word is the packed colour of the three components.
  lemma PackedColor(hue: uint16, sat: uint8, val: uint8)
    ensures PackedHSV(hue, sat, val) < 0x100_0000
    ensures var c := ColorHSV(hue, sat, val); Unpack(PackedHSV(hue, sat, val)) == Color(0, c.r, c.g, c.b)
  {
    var c := ColorHSV(hue, sat, val);
    PackedIs(hue, sat, val);
    UnpackOfPack(Color(0, c.r, c.g, c.b));
  }

  lemma PackedIs(hue: uint16, sat: uint8, val: uint8)
    ensures var c := ColorHSV(hue, sat, val); PackedHSV(hue, sat, val) == Pack(Color(0, c.r, c.g, c.b))
  {
    var p, c := Pure(Position(hue)), ColorHSV(hue, sat, val);
    MaskedProduct(p.r, sat, val);
    MaskedProduct(p.g, sat, val);
    MaskedProduct(p.b, sat, val);
    OrOfBytes(c.r, c.g, c.b);
  }

  // The whole way: each byte of the word is the shade of a component, which the distance from its own
  // hue gives.
  lemma PackedWheel(hue: uint16, sat: uint8, val: uint8)
    ensures PackedHSV(hue, sat, val) < 0x100_0000
    ensures var c := Wheel(Position(hue));
            && PackedHSV(hue, sat, val) / 0x1_0000 == Shade(c.r, sat, val)
            && PackedHSV(hue, sat, val) / 0x100 % 0x100 == Shade(c.g, sat, val)
            && PackedHSV(hue, sat, val) % 0x100 == Shade(c.b, sat, val)
  {
    var c := ColorHSV(hue, sat, val);
    PureIsWheel(Position(hue));
    PackedIs(hue, sat, val);
    PackedBytes(Color(0, c.r, c.g, c.b));
  }

  function Max(c: RGB): uint8 { if c.r >= c.g && c.r >= c.b then c.r else if c.g >= c.b then c.g else c.b }

  function Min(c: RGB): uint8 { if c.r <= c.g && c.r <= c.b then c.r else if c.g <= c.b then c.g else c.b }

  // The largest component is the value itself, for every hue and saturation.
  lemma ShadeFull(sat: uint8, val: uint8)
    ensures Shade(255, sat, val) == val
  {
    FullQuotient(1 + sat);
    FullQuotient(1 + val);
  }

  lemma FullQuotient(y: nat)
    requires 0 < y <= 0x100
    ensures 255 * y / 0x100 == y - 1
  {
  }

  lemma LargestIsValue(hue: uint16, sat: uint8, val: uint8)
    ensures Max(ColorHSV(hue, sat, val)) == val
  {
    ShadeFull(sat, val);
    var c := Pure(Position(hue));
    assert c.r == 255 || c.g == 255 || c.b == 255;
  }

  lemma PureExtremes(h: nat)
    ensures Max(Pure(h)) == 255 && Min(Pure(h)) == 0
  {
  }

  lemma ShadeIdentity(c: uint8)
    ensures Shade(c, 255, 255) == c
  {
    assert Lift(c, 255) == c && Dim(c, 255) == c;
  }

  // At full saturation and value the wheel is reached as it is, from 0 to 255.
  lemma PureColours(hue: uint16)
    ensures ColorHSV(hue, 255, 255) == Wheel(Position(hue))
    ensures Max(ColorHSV(hue, 255, 255)) == 255 && Min(ColorHSV(hue, 255, 255)) == 0
  {
    var c := Pure(Position(hue));
    ShadeIdentity(c.r);
    ShadeIdentity(c.g);
    ShadeIdentity(c.b);
    assert ColorHSV(hue, 255, 255) == c;
    PureIsWheel(Position(hue));
    PureExtremes(Position(hue));
  }

  lemma Grey(hue: uint16, val: uint8)
    ensures ColorHSV(hue, 0, val) == RGB(val, val, val)
  {
    FullQuotient(1 + val);
  }

  // --- Neighbouring hues ---

  predicate Adjacent(x: uint8, y: uint8) { y <= x <= y + 1 || x <= y <= x + 1 }

  lemma QuotientStep(x: nat, y: nat)
    requires y <= 0x100
    ensures 0 <= (x + 1) * y / 0x100 - x * y / 0x100 <= 1
  {
    assert (x + 1) * y == x * y + y;
    StepDivided(x * y, y);
  }

  lemma StepDivided(p: nat, y: nat)
    requires y <= 0x100
    ensures 0 <= (p + y) / 0x100 - p / 0x100 <= 1
  {
  }

  lemma ShadeStep(c: uint8, sat: uint8, val: uint8)
    requires c < 255
    ensures 0 <= Shade(c + 1, sat, val) - Shade(c, sat, val) <= 1
  {
    QuotientStep(c, 1 + sat);
    DimStep(Lift(c, sat), Lift(c + 1, sat), val);
  }

  lemma DimStep(x: uint8, y: uint8, val: uint8)
    requires x <= y <= x + 1
    ensures 0 <= Dim(y, val) - Dim(x, val) <= 1
  {
    QuotientStep(x, 1 + val);
  }

  // Neighbouring hues, also across the rollover, have colours that differ by at most one in at
  // most one component.
  lemma Continuous(hue: uint16, sat: uint8, val: uint8)
    ensures var c, d := ColorHSV(hue, sat, val), ColorHSV((hue + 1) % 0x1_0000, sat, val);
            (c.g == d.g && c.b == d.b && Adjacent(c.r, d.r)) || (c.r == d.r && c.b == d.b && Adjacent(c.g, d.g))
            || (c.r == d.r && c.g == d.g && Adjacent(c.b, d.b))
  {
    var h, k := Position(hue), Position((hue + 1) % 0x1_0000);
    PositionStep(hue);
    if k == h + 1 { PureStep(h, sat, val); }
  }

  lemma PositionStep(hue: uint16)
    ensures var h, k := Position(hue), Position((hue + 1) % 0x1_0000); k == h || k == h + 1 || (h == 1530 && k == 0)
  {
  }

  lemma PureStep(h: nat, sat: uint8, val: uint8)
    requires h < 1530
    ensures var c, d := Shaded(Pure(h), sat, val), Shaded(Pure(h + 1), sat, val);
            (c.g == d.g && c.b == d.b && Adjacent(c.r, d.r)) || (c.r == d.r && c.b == d.b && Adjacent(c.g, d.g))
            || (c.r == d.r && c.g == d.g && Adjacent(c.b, d.b))
  {
    var c, d := Pure(h), Pure(h + 1);
    if c.r < d.r { ShadeStep(c.r, sat, val); } else if d.r < c.r { ShadeStep(d.r, sat, val); }
    if c.g < d.g { ShadeStep(c.g, sat, val); } else if d.g < c.g { ShadeStep(d.g, sat, val); }
    if c.b < d.b { ShadeStep(c.b, sat, val); } else if d.b < c.b { ShadeStep(d.b, sat, val); }
  }

  // --- The wheel has 1530 distinct hues, and all of them are reached ---

  lemma DistinctHues(h: nat, k: nat)
    requires h < k < 1530
    ensures Pure(h) != Pure(k)
  {
  }

  lemma EveryPosition(h: nat) returns (hue: uint16)
    requires h < 1530
    ensures Position(hue) == h
  {
    hue := if h == 0 then 0 else (h * 65536 - 32768 + 1529) / 1530;
    var scaled := hue * 1530 + 32768;
    if h > 0 { assert h * 65536 <= scaled < h * 65536 + 1530; }
    ModUnique(scaled, 65536, h, scaled - h * 65536);
  }
}
