// The strip object, which rescales and overwrites its pixel buffer in place.
module NeoPixelStrip {
  import opened Digits
  import opened Pixels

  // c >> 16 and c >> 24, cut to a byte
  lemma Shifts(x: uint32)
    ensures x / 0x1_0000 % 0x100 == x / 0x100 / 0x100 % 0x100 && x / 0x100_0000 == x / 0x100 / 0x100 / 0x100
  {
    var upper, top := x / 0x100, x / 0x100 / 0x100;
    ModUnique(x, 0x1_0000, top, upper % 0x100 * 0x100 + x % 0x100);
    ModUnique(x, 0x100_0000, top / 0x100, top % 0x100 * 0x1_0000 + upper % 0x100 * 0x100 + x % 0x100);
  }

  // A NEO_ constant without its speed bit holds the four offsets, two bits each.
  function OrderOf(t: uint16): Order { Order(t / 64 % 4, t / 16 % 4, t / 4 % 4, t % 4) }

  // --- The names of the constants ---

  // The components in the order in which a pixel transmits them: "GRB" for NEO_GRB.
  predicate Letters(name: string) {
    && (|name| == 3 || (|name| == 4 && 'W' in name)) && 'R' in name && 'G' in name && 'B' in name
    && forall i :: 0 <= i < |name| ==> name[i] in "RGBW"
  }

  function Place(name: string, x: char): (k: nat)
    requires x in name
    ensures k < |name| && name[k] == x
  {
    if name[0] == x then 0 else 1 + Place(name[1..], x)
  }

  // White is with red if there is none.
  function WhitePlace(name: string): nat
    requires Letters(name)
  {
    Place(name, if 'W' in name then 'W' else 'R')
  }

  // How the constant of that name is made: the place of every component.
  function CodeOf(name: string): uint16
    requires Letters(name)
  {
    WhitePlace(name) * 64 + Place(name, 'R') * 16 + Place(name, 'G') * 4 + Place(name, 'B')
  }

  function Component(c: Color, x: char): uint8 {
    if x == 'R' then c.r else if x == 'G' then c.g else if x == 'B' then c.b else c.w
  }

  lemma OffsetsOfCode(w: nat, r: nat, g: nat, b: nat)
    requires w < 4 && r < 4 && g < 4 && b < 4
    ensures OrderOf(w * 64 + r * 16 + g * 4 + b) == Order(w, r, g, b)
  {
    var t := w * 64 + r * 16 + g * 4 + b;
    assert t / 64 == w && t / 16 == w * 4 + r && t / 4 == (w * 4 + r) * 4 + g;
  }

  // No letter comes twice: there are as many as have to be there.
  lemma PlacesDiffer(name: string)
    requires Letters(name)
    ensures var r, g, b := Place(name, 'R'), Place(name, 'G'), Place(name, 'B');
            && r != g && r != b && g != b
            && forall k :: 0 <= k < |name| ==> k == r || k == g || k == b || name[k] == 'W'
    ensures |name| == 3 ==> 'W' !in name
  {
    var r, g, b := Place(name, 'R'), Place(name, 'G'), Place(name, 'B');
    if 'W' in name { assert name[Place(name, 'W')] == 'W'; }
  }

  lemma CodeParts(name: string)
    requires Letters(name)
    ensures OrderOf(CodeOf(name)) == Order(WhitePlace(name), Place(name, 'R'), Place(name, 'G'), Place(name, 'B'))
  {
    OffsetsOfCode(WhitePlace(name), Place(name, 'R'), Place(name, 'G'), Place(name, 'B'));
  }

  lemma WhiteDiffers(name: string)
    requires Letters(name)
    ensures var w := WhitePlace(name);
            if |name| == 3 then w == Place(name, 'R')
            else w != Place(name, 'R') && w != Place(name, 'G') && w != Place(name, 'B')
  {
    PlacesDiffer(name);
  }

  // Every such name is a colour order of the strip, with the components in their places.
  lemma NameIsOrder(name: string)
    requires Letters(name)
    ensures var o := OrderOf(CodeOf(name));
            && o == Order(WhitePlace(name), Place(name, 'R'), Place(name, 'G'), Place(name, 'B'))
            && o.Named() && o.Size() == |name|
  {
    CodeParts(name);
    PlacesDiffer(name);
    WhiteDiffers(name);
  }

  lemma OnlyPlace(name: string, k: nat)
    requires Letters(name) && k < |name|
    ensures k == Place(name, name[k])
  {
    PlacesDiffer(name);
    assert name[Place(name, name[k])] == name[k];
    WhiteDiffers(name);
  }

  // A strip of that name holds the components of a pixel in that order, each scaled.
  lemma TransmitsAs(name: string, s: Strip, n: uint16, c: Color, k: nat)
    requires Letters(name) && s.Valid() && s.order == OrderOf(CodeOf(name)) && n < s.numLEDs && k < |name|
    ensures |name| == s.order.Size()
    ensures SetColor(s, n, c).At(n, k) == Scaled(Component(c, name[k]), s.brightness)
  {
    NameIsOrder(name);
    OnlyPlace(name, k);
    StoredBytes(s, n, c);
  }

  class NeoPixel {
    var numLEDs: uint16
    var numBytes: uint16
    var brightness: uint8
    var pixels: array<uint8>
    var wOffset: uint8
    var rOffset: uint8
    var gOffset: uint8
    var bOffset: uint8

    ghost function State(): Strip
      reads this, pixels
    {
      Strip(Order(wOffset, rOffset, gOffset, bOffset), numLEDs, pixels[..], brightness)
    }

    ghost predicate Valid()
      reads this, pixels
    {
      State().Valid() && numBytes == pixels.Length
    }

    // available says whether there was memory for the pixels.
    constructor (n: uint16, t: uint16, available: bool)
      requires OrderOf(t).Named() && n * OrderOf(t).Size() < 0x1_0000
      ensures Valid() && fresh(pixels)
      ensures State() == Reset(OrderOf(t), if available then n else 0)
    {
      var order := OrderOf(t);
      wOffset, rOffset, gOffset, bOffset := order.w, order.r, order.g, order.b;
      brightness := 0;
      var size := if available then (if order.w == order.r then 3 * n else 4 * n) else 0;
      pixels := new uint8[size](_ => 0);
      numLEDs, numBytes := if available then n else 0, size;
    }

    method UpdateLength(n: uint16, available: bool)
      requires State().order.Named() && State().Offset(n) < 0x1_0000
      modifies this
      ensures Valid() && fresh(pixels)
      ensures State() == Pixels.UpdateLength(old(State()), if available then n else 0)
    {
      numBytes := if wOffset == rOffset then 3 * n else 4 * n;
      if available {
        pixels := new uint8[numBytes](_ => 0);
        numLEDs := n;
      } else {
        pixels := new uint8[0];
        numLEDs, numBytes := 0, 0;
      }
    }

    method UpdateType(t: uint16, available: bool)
      requires Valid() && Legal(State(), Type(OrderOf(t)))
      modifies this
      ensures Valid() && State().order == OrderOf(t)
      ensures OrderOf(t).Size() == old(State().order.Size()) || available
              ==> State() == Pixels.UpdateType(old(State()), OrderOf(t))
      ensures OrderOf(t).Size() != old(State().order.Size()) && !available ==> numLEDs == 0
    {
      var oldThreeBytesPerPixel := wOffset == rOffset;
      wOffset := t / 64 % 4;
      rOffset := t / 16 % 4;
      gOffset := t / 4 % 4;
      bOffset := t % 4;
      var newThreeBytesPerPixel := wOffset == rOffset;
      if newThreeBytesPerPixel != oldThreeBytesPerPixel { UpdateLength(numLEDs, available); }
    }

    method Put(i: nat, v: uint8)
      requires i < pixels.Length
      modifies pixels
      ensures pixels[..] == old(pixels[..])[i := v]
    {
      pixels[i] := v;
    }

    // p points to the first byte of a pixel.
    method Store(p: nat, r: uint8, g: uint8, b: uint8, w: uint8)
      requires State().order.Named() && p + State().order.Size() <= pixels.Length
      modifies pixels
      ensures pixels[..] == StoreAt(old(pixels[..]), State().order, p, Color(w, r, g, b))
    {
      if wOffset != rOffset { Put(p + wOffset, w); }
      Put(p + rOffset, r);
      Put(p + gOffset, g);
      Put(p + bOffset, b);
    }

    method StorePixel(n: uint16, r: uint8, g: uint8, b: uint8, w: uint8, ghost c: Color)
      requires Valid() && n < numLEDs && Color(w, r, g, b) == ScaledColor(c, brightness)
      modifies pixels
      ensures Valid() && State() == SetColor(old(State()), n, c)
    {
      ghost var goal := SetColor(State(), n, c);
      Store(if wOffset == rOffset then 3 * n else 4 * n, r, g, b, w);
      assert State() == goal;
    }

    // setPixelColor(n, r, g, b, w)
    method SetPixelRGBW(n: uint16, red: uint8, green: uint8, blue: uint8, white: uint8)
      requires Valid()
      modifies pixels
      ensures Valid() && State() == SetColor(old(State()), n, Color(white, red, green, blue))
    {
      if n < numLEDs {
        StorePixel(n, Scaled(red, brightness), Scaled(green, brightness), Scaled(blue, brightness),
                   Scaled(white, brightness), Color(white, red, green, blue));
      }
    }

    // setPixelColor(n, r, g, b): white off
    method SetPixelRGB(n: uint16, red: uint8, green: uint8, blue: uint8)
      requires Valid()
      modifies pixels
      ensures Valid() && State() == SetColor(old(State()), n, Color(0, red, green, blue))
    {
      if n < numLEDs {
        StorePixel(n, Scaled(red, brightness), Scaled(green, brightness), Scaled(blue, brightness), 0,
                   Color(0, red, green, blue));
      }
    }

    // setPixelColor(n, c)
    method SetPixelColor(n: uint16, c: uint32)
      requires Valid()
      modifies pixels
      ensures Valid() && State() == SetColor(old(State()), n, Unpack(c))
    {
      if n < numLEDs {
        Shifts(c);
        var r, g, b, w := c / 0x1_0000 % 0x100, c / 0x100 % 0x100, c % 0x100, c / 0x100_0000;
        StorePixel(n, Scaled(r, brightness), Scaled(g, brightness), Scaled(b, brightness),
                   Scaled(w, brightness), Unpack(c));
      }
    }

    method GetPixelColor(n: uint16) returns (c: uint32)
      requires Valid()
      ensures c == Pack(GetColor(State(), n))
    {
      if n >= numLEDs { return 0; }
      ghost var s := State();
      if wOffset == rOffset {
        var p := 3 * n;
        assert s.At(n, rOffset) == pixels[p + rOffset] && s.At(n, gOffset) == pixels[p + gOffset]
               && s.At(n, bOffset) == pixels[p + bOffset];
        c := Pack(Color(0, Unscaled(pixels[p + rOffset], brightness), Unscaled(pixels[p + gOffset], brightness),
                        Unscaled(pixels[p + bOffset], brightness)));
      } else {
        var p := 4 * n;
        assert s.At(n, rOffset) == pixels[p + rOffset] && s.At(n, gOffset) == pixels[p + gOffset]
               && s.At(n, bOffset) == pixels[p + bOffset];
        assert s.At(n, wOffset) == pixels[p + wOffset];
        c := Pack(Color(Unscaled(pixels[p + wOffset], brightness), Unscaled(pixels[p + rOffset], brightness),
                        Unscaled(pixels[p + gOffset], brightness), Unscaled(pixels[p + bOffset], brightness)));
      }
    }

    method Fill(c: uint32, first: uint16, count: uint16)
      requires Valid()
      modifies pixels
      ensures Valid() && State() == Pixels.Fill(old(State()), Unpack(c), first, count)
    {
      if first >= numLEDs { return; }
      ghost var goal := Pixels.Fill(State(), Unpack(c), first, count);
      var end := numLEDs;
      if count != 0 {
        var sum: int := first + count;
        end := sum % 0x1_0000;
        if end > numLEDs { end := numLEDs; }
      }
      assert goal == FillFrom(State(), Unpack(c), first, end);
      FillPixels(c, first, end);
    }

    method FillPixels(c: uint32, first: uint16, end: uint16)
      requires Valid() && end <= numLEDs
      modifies pixels
      ensures Valid() && State() == FillFrom(old(State()), Unpack(c), first, end)
    {
      ghost var goal := FillFrom(State(), Unpack(c), first, end);
      var i: int := first;
      while i < end
        invariant first <= i && Valid() && end <= numLEDs
        invariant FillFrom(State(), Unpack(c), i, end) == goal
        decreases end - i
      {
        FillOne(i, c, end, goal);
        i := i + 1;
      }
    }

    method FillOne(i: uint16, c: uint32, ghost end: nat, ghost goal: Strip)
      requires Valid() && i < end <= numLEDs && FillFrom(State(), Unpack(c), i, end) == goal
      modifies pixels
      ensures Valid() && FillFrom(State(), Unpack(c), i + 1, end) == goal
    {
      FillNext(State(), Unpack(c), i, end);
      SetPixelColor(i, c);
    }

    method SetBrightness(b: uint8)
      requires Valid()
      modifies this`brightness, pixels
      ensures Valid() && State() == Pixels.SetBrightness(old(State()), b)
    {
      var newBrightness: uint8 := if b == 255 then 0 else b + 1;
      if newBrightness != brightness {
        var oldBrightness := GetBrightness();
        RescaleInPlace(Rescale(oldBrightness, b), oldBrightness, b);
        brightness := newBrightness;
      }
    }

    // The stored byte minus one, in 8 bits.
    method GetBrightness() returns (b: uint8)
      ensures b == State().GetBrightness()
    {
      b := if brightness == 0 then 255 else brightness - 1;
    }

    method RescaleInPlace(scale: uint16, ghost was: uint8, ghost b: uint8)
      requires numBytes == pixels.Length && Dimmed(pixels[..], was) && scale == Rescale(was, b)
      modifies pixels
      ensures pixels[..] == RescaleAll(old(pixels[..]), was, b)
    {
      ghost var bytes := pixels[..];
      var i := 0;
      while i < numBytes
        invariant 0 <= i <= numBytes
        invariant forall j :: 0 <= j < i ==> pixels[j] == RescaleByte(bytes[j], was, b)
        invariant forall j :: i <= j < numBytes ==> pixels[j] == bytes[j]
      {
        var c := pixels[i];
        assert c == bytes[i];
        RescaleBound(c, was, b);
        pixels[i] := c * scale / 0x100;
        i := i + 1;
      }
      assert pixels[..] == RescaleAll(bytes, was, b);
    }

    method Clear()
      requires Valid()
      modifies pixels
      ensures Valid() && State() == Pixels.Clear(old(State()))
    {
      forall i | 0 <= i < pixels.Length { pixels[i] := 0; }
    }
  }
}
