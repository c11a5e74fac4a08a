// Phase (Manchester) coding as RC5 and RC6 use it, and its decoding from run lengths.
module PhaseCode {
  import opened Digits
  import opened Pulse
  import opened Wire

  datatype Kind = RC5Code | RC6Code

  // The length of half a bit in microseconds.
  function T1(k: Kind): uint16 { if k.RC5Code? then 889 else 444 }

  // RC6 sends its fourth bit, the trailer, at double width.
  function HalfWidth(k: Kind, i: nat): nat { if k.RC6Code? && i == 3 then 2 else 1 }

  function Repeat(level: RCLevel, n: nat): (ls: seq<RCLevel>)
    ensures |ls| == n && forall i :: 0 <= i < n ==> ls[i] == level
  {
    seq(n, _ => level)
  }

  // A one is mark-space in RC6 and space-mark in RC5.
  function FirstLevel(k: Kind, bit: nat): RCLevel { if (bit == 1) == k.RC6Code? then MARK else SPACE }

  function Code(k: Kind, i: nat, bit: nat): seq<RCLevel> {
    var w, first := HalfWidth(k, i), FirstLevel(k, bit);
    Repeat(first, w) + Repeat(Opposite(first), w)
  }

  // The half-bit levels of bits, the first of which is bit number i of the frame.
  function Encode(k: Kind, bits: seq<nat>, i: nat): seq<RCLevel>
    decreases |bits|
  {
    if bits == [] then [] else Code(k, i, bits[0]) + Encode(k, bits[1..], i + 1)
  }

  // How many half-bits an interval lasts; 0 if it is no multiple of t1. Two wins over three.
  function Units(width: uint16, t1: uint16): nat {
    if Match(width, t1) then 1 else if Match(width, 2 * t1) then 2 else if Match(width, 3 * t1) then 3 else 0
  }

  function LevelAt(offset: nat): RCLevel { if offset % 2 == 1 then MARK else SPACE }

  // The half-bit levels recorded from buf[offset] on; an unreadable interval ends them with ERROR.
  function Levels(buf: seq<uint16>, offset: nat, t1: uint16): seq<RCLevel>
    decreases |buf| - offset
  {
    if offset >= |buf| then []
    else if Units(buf[offset], t1) == 0 then [ERROR]
    else Repeat(LevelAt(offset), Units(buf[offset], t1)) + Levels(buf, offset + 1, t1)
  }

  // The next w levels: silence follows the end of the recording.
  function Cell(ls: seq<RCLevel>, w: nat): (c: seq<RCLevel>)
    ensures |c| == w
  {
    seq(w, i requires 0 <= i < w => if i < |ls| then ls[i] else SPACE)
  }

  function Beyond(ls: seq<RCLevel>, w: nat): seq<RCLevel> { if |ls| <= w then [] else ls[w..] }

  function ParsePhase(k: Kind, ls: seq<RCLevel>, i: nat): Option<seq<nat>>
    decreases |ls|
  {
    var w := 2 * HalfWidth(k, i);
    if ls == [] then Some([])
    else if Cell(ls, w) == Code(k, i, 1) then Prepend(1, ParsePhase(k, Beyond(ls, w), i + 1))
    else if Cell(ls, w) == Code(k, i, 0) then Prepend(0, ParsePhase(k, Beyond(ls, w), i + 1))
    else None
  }

  // A frame opens with fixed levels.
  function DecodePhase(k: Kind, opening: seq<RCLevel>, ls: seq<RCLevel>): Option<seq<nat>> {
    if Cell(ls, |opening|) != opening then None else ParsePhase(k, Beyond(ls, |opening|), 0)
  }

  // ls is full without some of the silence at its end.
  ghost predicate Cut(ls: seq<RCLevel>, full: seq<RCLevel>) {
    |ls| <= |full| && full == ls + Repeat(SPACE, |full| - |ls|)
  }

  // ls is the phase coding of bits, up to silence at the very end that is shorter than the last bit.
  ghost predicate Spells(k: Kind, ls: seq<RCLevel>, bits: seq<nat>, i: nat) {
    && Cut(ls, Encode(k, bits, i))
    && (bits != [] ==> |ls| > |Encode(k, bits[..|bits| - 1], i)|)
  }

  lemma SpellsUnfold(k: Kind, ls: seq<RCLevel>, bits: seq<nat>, i: nat)
    requires bits != [] && Spells(k, ls, bits, i)
    ensures ls != [] && Cell(ls, 2 * HalfWidth(k, i)) == Code(k, i, bits[0])
    ensures Spells(k, Beyond(ls, 2 * HalfWidth(k, i)), bits[1..], i + 1)
  {
    var w, rest := 2 * HalfWidth(k, i), bits[1..];
    var code, full, tail := Code(k, i, bits[0]), Encode(k, bits, i), Encode(k, rest, i + 1);
    var beyond := Beyond(ls, w);
    assert full == code + tail && |code| == w;
    if |bits| > 1 { assert bits[..|bits| - 1][1..] == rest[..|rest| - 1]; }
    forall j | 0 <= j < w ensures Cell(ls, w)[j] == code[j] { assert code[j] == full[j]; }
    forall j | 0 <= j < |tail| ensures tail[j] == (beyond + Repeat(SPACE, |tail| - |beyond|))[j] {
      assert tail[j] == full[w + j];
    }
  }

  lemma SpellsFold(k: Kind, ls: seq<RCLevel>, bits: seq<nat>, i: nat)
    requires bits != [] && ls != [] && Cell(ls, 2 * HalfWidth(k, i)) == Code(k, i, bits[0])
    requires Spells(k, Beyond(ls, 2 * HalfWidth(k, i)), bits[1..], i + 1)
    ensures Spells(k, ls, bits, i)
  {
    var w, rest := 2 * HalfWidth(k, i), bits[1..];
    var code, full, tail := Code(k, i, bits[0]), Encode(k, bits, i), Encode(k, rest, i + 1);
    assert full == code + tail && |code| == w;
    if |bits| > 1 { assert bits[..|bits| - 1][1..] == rest[..|rest| - 1]; }
    forall j | 0 <= j < |full| ensures full[j] == (ls + Repeat(SPACE, |full| - |ls|))[j] {
      if j < w { assert Cell(ls, w)[j] == code[j]; } else { assert full[j] == tail[j - w]; }
    }
  }

  // The decoder accepts exactly the phase codings.
  lemma {:induction false} ParsePhaseIff(k: Kind, ls: seq<RCLevel>, i: nat, bits: seq<nat>)
    ensures ParsePhase(k, ls, i) == Some(bits) <==> InBase(bits, 2) && Spells(k, ls, bits, i)
    decreases |bits|
  {
    var w := 2 * HalfWidth(k, i);
    if bits != [] {
      ParsePhaseIff(k, Beyond(ls, w), i + 1, bits[1..]);
      assert bits == [bits[0]] + bits[1..];
      CodesDiffer(k, i);
      if Spells(k, ls, bits, i) { SpellsUnfold(k, ls, bits, i); }
      if ParsePhase(k, ls, i) == Some(bits) { SpellsFold(k, ls, bits, i); }
    }
  }

  lemma CodesDiffer(k: Kind, i: nat)
    ensures Code(k, i, 0) != Code(k, i, 1)
  {
    assert Code(k, i, 0)[0] != Code(k, i, 1)[0];
  }
}
