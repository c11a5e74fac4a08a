// Timing windows, and frames whose payload is a run of symbols: every protocol except RC5 and RC6.
module Pulse {
  import opened Digits

  // One recorded interval is compared with its nominal length by MATCH (25 percent) or by
  // ABS_MATCH, or the decoder never looks at it.
  datatype Window =
    | Percent(nominal: nat)
    | Absolute(nominal: nat, tolerance: nat)
    | Unchecked(nominal: nat)

  // The decoders pass 16-bit unsigned intervals to parameters of type int16_t.
  function Int16(v: uint16): int { if v < 0x8000 then v else v - 0x1_0000 }

  predicate Match(val: uint16, expected: nat) {
    expected * 3 / 4 <= Int16(val) <= expected * 5 / 4
  }

  predicate AbsMatch(val: uint16, expected: nat, tolerance: nat) {
    expected - tolerance <= Int16(val) <= expected + tolerance
  }

  // A quarter either way, rounded down, and nothing from 32768 on, which is negative.
  lemma MatchWindow(v: uint16, e: nat)
    ensures Match(v, e) <==> v < 0x8000 && 3 * e - 4 < 4 * v <= 5 * e
  {
  }

  predicate Within(v: uint16, w: Window) {
    match w
    case Percent(e) => Match(v, e)
    case Absolute(e, t) => AbsMatch(v, e, t)
    case Unchecked(_) => true
  }

  predicate Conforms(b: seq<uint16>, ws: seq<Window>) {
    |b| == |ws| && forall i :: 0 <= i < |ws| ==> Within(b[i], ws[i])
  }

  function Nominal(ws: seq<Window>): (ds: seq<nat>)
    ensures |ds| == |ws|
    ensures forall i :: 0 <= i < |ws| ==> ds[i] == ws[i].nominal
  {
    seq(|ws|, i requires 0 <= i < |ws| => ws[i].nominal)
  }

  // Recorded interval v lies within ten percent of d.
  predicate Near(v: uint16, d: nat) { 9 * d <= 10 * v <= 11 * d }

  predicate AllNear(b: seq<uint16>, ds: seq<nat>) {
    |b| == |ds| && forall i :: 0 <= i < |ds| ==> Near(b[i], ds[i])
  }

  // A window that no interval within ten percent of its nominal length can miss.
  predicate Roomy(w: Window) {
    w.nominal <= 26000 && (w.Absolute? ==> w.nominal <= 10 * w.tolerance)
  }

  lemma NearConforms(b: seq<uint16>, ws: seq<Window>)
    requires AllNear(b, Nominal(ws)) && forall w :: w in ws ==> Roomy(w)
    ensures Conforms(b, ws)
  {
    forall i | 0 <= i < |ws| ensures Within(b[i], ws[i]) {
      assert Roomy(ws[i]) && Near(b[i], ws[i].nominal);
    }
  }

  // Symbol s is sent as the intervals codes[s]; all codes have the same length.
  datatype Alphabet = Alphabet(codes: seq<seq<Window>>) {
    function Width(): nat { if codes == [] then 0 else |codes[0]| }

    // No interval list can be read as two different symbols.
    ghost predicate Valid() {
      && Width() > 0
      && (forall s :: 0 <= s < |codes| ==> |codes[s]| == Width())
      && (forall s, t, b ::
            0 <= s < |codes| && 0 <= t < |codes| && Conforms(b, codes[s]) && Conforms(b, codes[t]) ==> s == t)
    }
  }

  // Of two symbols that fit, which only happens where windows overlap, the higher one is read: the
  // generic decoder tries the one before the zero.
  function SymbolOf(b: seq<uint16>, codes: seq<seq<Window>>): (r: Option<nat>)
    ensures r.Some? ==> r.value < |codes| && Conforms(b, codes[r.value])
    ensures r.None? ==> forall s :: 0 <= s < |codes| ==> !Conforms(b, codes[s])
    decreases |codes|
  {
    if codes == [] then None
    else if Conforms(b, codes[|codes| - 1]) then Some(|codes| - 1)
    else SymbolOf(b, codes[..|codes| - 1])
  }

  lemma ConformsOne(x: uint16, v: Window)
    ensures Conforms([x], [v]) <==> Within(x, v)
  {
    if Within(x, v) { assert [x][0] == x && [v][0] == v; }
    if Conforms([x], [v]) { assert Within([x][0], [v][0]); }
  }

  lemma ConformsTwo(x: uint16, y: uint16, v: Window, w: Window)
    ensures Conforms([x, y], [v, w]) <==> Within(x, v) && Within(y, w)
  {
    if Conforms([x, y], [v, w]) { assert Within([x, y][0], [v, w][0]) && Within([x, y][1], [v, w][1]); }
  }

  lemma SymbolSnoc(b: seq<uint16>, codes: seq<seq<Window>>, code: seq<Window>)
    ensures SymbolOf(b, codes + [code])
            == if Conforms(b, code) then Some(|codes|) else SymbolOf(b, codes)
  {
    assert (codes + [code])[..|codes|] == codes;
  }

  lemma SymbolOfTwo(b: seq<uint16>, c: seq<Window>, d: seq<Window>)
    ensures SymbolOf(b, [c, d]) == if Conforms(b, d) then Some(1) else if Conforms(b, c) then Some(0) else None
  {
    SymbolSnoc(b, [], c);
    SymbolSnoc(b, [c], d);
    assert [] + [c] == [c] && [c] + [d] == [c, d];
  }

  function Pattern(symbols: seq<nat>, a: Alphabet): (ws: seq<Window>) {
    if symbols == [] || symbols[0] >= |a.codes| then [] else a.codes[symbols[0]] + Pattern(symbols[1..], a)
  }

  function Prepend(s: nat, rest: Option<seq<nat>>): Option<seq<nat>> {
    match rest
    case None => None
    case Some(symbols) => Some([s] + symbols)
  }

  function Parse(b: seq<uint16>, a: Alphabet): Option<seq<nat>>
    decreases |b|
  {
    if b == [] then Some([])
    else if a.Width() == 0 || |b| < a.Width() then None
    else match SymbolOf(b[..a.Width()], a.codes)
      case None => None
      case Some(s) => Prepend(s, Parse(b[a.Width()..], a))
  }

  lemma ConformsConcat(b: seq<uint16>, ws: seq<Window>, vs: seq<Window>)
    requires |ws| <= |b|
    ensures Conforms(b, ws + vs) <==> Conforms(b[..|ws|], ws) && Conforms(b[|ws|..], vs)
  {
    if Conforms(b, ws + vs) {
      forall i | 0 <= i < |ws| ensures Within(b[i], ws[i]) { assert (ws + vs)[i] == ws[i]; }
      forall i | 0 <= i < |vs| ensures Within(b[|ws| + i], vs[i]) { assert (ws + vs)[|ws| + i] == vs[i]; }
    }
  }

  // Parse accepts exactly the buffers that lie in the windows of some payload, and returns that payload.
  lemma {:induction false} ParseSound(b: seq<uint16>, a: Alphabet)
    requires a.Valid() && Parse(b, a).Some?
    ensures InBase(Parse(b, a).value, |a.codes|) && Conforms(b, Pattern(Parse(b, a).value, a))
    decreases |b|
  {
    if b != [] {
      var w := a.Width();
      var s := SymbolOf(b[..w], a.codes).value;
      ParseSound(b[w..], a);
      var rest := Parse(b[w..], a).value;
      assert ([s] + rest)[1..] == rest;
      ConformsConcat(b, a.codes[s], Pattern(rest, a));
    }
  }

  lemma SymbolUnique(b: seq<uint16>, a: Alphabet, s: nat)
    requires a.Valid() && s < |a.codes| && Conforms(b, a.codes[s])
    ensures SymbolOf(b, a.codes) == Some(s)
  {
  }

  lemma ParseFirst(b: seq<uint16>, a: Alphabet, s: nat)
    requires a.Valid() && s < |a.codes| && a.Width() <= |b| && Conforms(b[..a.Width()], a.codes[s])
    ensures Parse(b, a) == Prepend(s, Parse(b[a.Width()..], a))
  {
    SymbolUnique(b[..a.Width()], a, s);
  }

  lemma {:induction false} ParseComplete(b: seq<uint16>, a: Alphabet, symbols: seq<nat>)
    requires a.Valid() && InBase(symbols, |a.codes|) && Conforms(b, Pattern(symbols, a))
    ensures Parse(b, a) == Some(symbols)
    decreases |symbols|
  {
    if symbols != [] {
      var w, s, rest := a.Width(), symbols[0], symbols[1..];
      assert |a.codes[s]| == w;
      ConformsConcat(b, a.codes[s], Pattern(rest, a));
      ParseFirst(b, a, s);
      ParseComplete(b[w..], a, rest);
      assert symbols == [s] + rest;
    }
  }

  // A frame: header windows, payload, trailing windows. buffer[0] holds the gap before it.
  datatype Format = Format(head: seq<Window>, alphabet: Alphabet, tail: seq<Window>)

  function FramePattern(f: Format, symbols: seq<nat>): seq<Window> {
    f.head + Pattern(symbols, f.alphabet) + f.tail
  }

  function DecodePulse(f: Format, buf: seq<uint16>, length: nat): Option<seq<nat>> {
    if |buf| != length || length < 1 + |f.head| + |f.tail| then None
    else if !Conforms(buf[1..1 + |f.head|], f.head) || !Conforms(buf[length - |f.tail|..], f.tail) then None
    else Parse(buf[1 + |f.head|..length - |f.tail|], f.alphabet)
  }

  lemma PatternConforms(f: Format, buf: seq<uint16>, symbols: seq<nat>)
    requires |buf| == 1 + |FramePattern(f, symbols)|
    ensures Conforms(buf[1..], FramePattern(f, symbols)) <==>
            && Conforms(buf[1..1 + |f.head|], f.head)
            && Conforms(buf[1 + |f.head|..|buf| - |f.tail|], Pattern(symbols, f.alphabet))
            && Conforms(buf[|buf| - |f.tail|..], f.tail)
  {
    var h, t, body := |f.head|, |f.tail|, Pattern(symbols, f.alphabet);
    var entries := buf[1..];
    assert f.head + (body + f.tail) == FramePattern(f, symbols);
    ConformsConcat(entries, f.head, body + f.tail);
    ConformsConcat(entries[h..], body, f.tail);
    assert entries[..h] == buf[1..1 + h];
    assert entries[h..][..|body|] == buf[1 + h..|buf| - t];
    assert entries[h..][|body|..] == buf[|buf| - t..];
  }

  lemma DecodePulseSound(f: Format, buf: seq<uint16>, length: nat)
    requires f.alphabet.Valid() && DecodePulse(f, buf, length).Some?
    ensures var symbols := DecodePulse(f, buf, length).value;
            |buf| == length >= 1 && InBase(symbols, |f.alphabet.codes|) && Conforms(buf[1..], FramePattern(f, symbols))
  {
    var symbols := DecodePulse(f, buf, length).value;
    PartsSound(f, buf, symbols);
    PatternConforms(f, buf, symbols);
  }

  lemma PartsSound(f: Format, buf: seq<uint16>, symbols: seq<nat>)
    requires f.alphabet.Valid() && DecodePulse(f, buf, |buf|) == Some(symbols)
    ensures InBase(symbols, |f.alphabet.codes|) && |buf| == 1 + |FramePattern(f, symbols)|
    ensures Conforms(buf[1..1 + |f.head|], f.head) && Conforms(buf[|buf| - |f.tail|..], f.tail)
    ensures Conforms(buf[1 + |f.head|..|buf| - |f.tail|], Pattern(symbols, f.alphabet))
  {
    PartsOf(f, buf, symbols);
    ParseSound(buf[1 + |f.head|..|buf| - |f.tail|], f.alphabet);
  }

  // What a decoder checks: the header, the trailer, and what is between them.
  lemma PartsOf(f: Format, buf: seq<uint16>, symbols: seq<nat>)
    ensures DecodePulse(f, buf, |buf|) == Some(symbols) <==>
            && |buf| >= 1 + |f.head| + |f.tail|
            && Conforms(buf[1..1 + |f.head|], f.head) && Conforms(buf[|buf| - |f.tail|..], f.tail)
            && Parse(buf[1 + |f.head|..|buf| - |f.tail|], f.alphabet) == Some(symbols)
  {
  }

  lemma DecodePulseComplete(f: Format, buf: seq<uint16>, symbols: seq<nat>)
    requires f.alphabet.Valid() && InBase(symbols, |f.alphabet.codes|)
    requires |buf| >= 1 && Conforms(buf[1..], FramePattern(f, symbols))
    ensures DecodePulse(f, buf, |buf|) == Some(symbols)
  {
    PatternConforms(f, buf, symbols);
    ParseComplete(buf[1 + |f.head|..|buf| - |f.tail|], f.alphabet, symbols);
    PartsOf(f, buf, symbols);
  }

  // A decoder accepts a buffer exactly when it lies in the windows of the frame it returns.
  lemma DecodePulseIff(f: Format, buf: seq<uint16>, length: nat, symbols: seq<nat>)
    requires f.alphabet.Valid() && length >= 1
    ensures DecodePulse(f, buf, length) == Some(symbols) <==>
            |buf| == length && InBase(symbols, |f.alphabet.codes|) && Conforms(buf[1..], FramePattern(f, symbols))
  {
    if DecodePulse(f, buf, length).Some? { DecodePulseSound(f, buf, length); }
    if |buf| == length && InBase(symbols, |f.alphabet.codes|) && Conforms(buf[1..], FramePattern(f, symbols)) {
      DecodePulseComplete(f, buf, symbols);
    }
  }
}
