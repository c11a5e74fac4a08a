// The converse results: what an accepted RC5 or RC6 buffer must be, and which messages can be taken for
// those of another protocol.
module RivalBuffers {
  import opened Digits
  import opened Pulse
  import opened Wire
  import opened PhaseCode
  import opened PhaseRuns
  import opened Protocols
  import opened RoundTrip
  import opened Chain
  import opened Delivery
  import opened Scan

  // --- Accepted phase codings ---

  // RC5 decodes exactly the start mark and the phase coding of its result; at most one closing
  // half-bit of silence is missing.
  lemma RC5Bijection(buf: seq<uint16>, bits: seq<nat>)
    requires |buf| >= 13 && bits != [] && InBase(bits, 2)
    ensures var ls, full := Levels(buf, 1, T1(RC5Code)), [MARK] + Encode(RC5Code, bits, 0);
            DecodePhase(RC5Code, [MARK], ls) == Some(bits) <==> ls == full || ls + [SPACE] == full
  {
    var ls, n := Levels(buf, 1, T1(RC5Code)), |bits|;
    var full := [MARK] + Encode(RC5Code, bits, 0);
    EncodeLength(bits);
    EncodeLength(bits[..n - 1]);
    if DecodePhase(RC5Code, [MARK], ls) == Some(bits) {
      PhaseSound(RC5Code, ls, [MARK], bits);
      assert full == ls + Repeat(SPACE, |full| - |ls|);
      if |full| - |ls| == 1 { assert Repeat(SPACE, 1) == [SPACE]; }
    }
    if ls == full || ls + [SPACE] == full {
      assert Cut(ls, full);
      PhaseRoundTrip(RC5Code, ls, [MARK], bits);
    }
  }

  lemma {:induction false} EncodeLength(bits: seq<nat>)
    ensures forall i: nat :: |Encode(RC5Code, bits, i)| == 2 * |bits|
  {
    if bits != [] { EncodeLength(bits[1..]); }
  }

  // Every interval of an accepted RC5 or RC6 buffer lasts one, two or three half-bits.
  lemma PhaseIntervals(k: Kind, buf: seq<uint16>, offset: nat, opening: seq<RCLevel>)
    requires offset <= |buf| && (forall j :: 0 <= j < |opening| ==> opening[j] != ERROR)
    requires |Levels(buf, offset, T1(k))| >= |opening|
    requires DecodePhase(k, opening, Levels(buf, offset, T1(k))).Some?
    ensures forall i :: offset <= i < |buf| ==> Units(buf[i], T1(k)) > 0
  {
    var ls := Levels(buf, offset, T1(k));
    var bits := DecodePhase(k, opening, ls).value;
    PhaseSound(k, ls, opening, bits);
    forall j | 0 <= j < |ls| ensures ls[j] != ERROR {
      if j < |opening| { assert Cell(ls, |opening|)[j] == opening[j]; }
    }
    AllReadable(buf, offset, T1(k));
  }

  // --- Which messages the chain can mistake ---

  predicate IsSonyLength(n: nat) { n == 18 || n == 26 || n == 32 || n == 42 }

  // The messages that some buffer within their own windows does not bring to their own decoder.
  predicate AtRisk(m: Message) {
    match m
    case GICableMessage(d) => d == REPEAT_CODE || d % 0x1_0000 == 0
    case RC5Message(d, n) => IsSonyLength(2 * n) && Low(d, n) == 0
    case RC6Message(d, n) =>
      var bits := RC6Bits(d, n);
      IsSonyLength(PhaseEntries(RC6Code, bits)) && |bits| >= 5 && bits[2] <= bits[3] <= bits[4]
    case _ => false
  }

  // The rival that can take a message at risk.
  function RivalOf(m: Message): uint8 {
    if m == GICableMessage(REPEAT_CODE) then NEC else if m.GICableMessage? then JVC else SONY
  }

  // --- What Sony's decoder takes ---

  // Its spaces are 600us and its marks 600us or 1200us, anywhere in the buffer.
  predicate SonyInterval(j: nat, v: uint16) { Match(v, 600) || (j % 2 == 1 && Match(v, 1200)) }

  predicate SonyLike(buf: seq<uint16>) {
    |buf| >= 2 && Match(buf[1], 2400) && forall j :: 2 <= j < |buf| ==> SonyInterval(j, buf[j])
  }

  lemma {:induction false} ParseSony(b: seq<uint16>, a: Alphabet)
    requires a == SonyFormat().alphabet && |b| % 2 == 0
    ensures Parse(b, a).Some? <==> forall j :: 0 <= j < |b| ==> SonyInterval(j, b[j])
    decreases |b|
  {
    if b != [] {
      assert b[..2] == [b[0], b[1]];
      FirstPulse(b[0], b[1], 600, 600 * 2, 600);
      ParseSony(b[2..], a);
      if forall j :: 0 <= j < |b| ==> SonyInterval(j, b[j]) {
        forall j | 0 <= j < |b[2..]| ensures SonyInterval(j, b[2..][j]) { assert SonyInterval(j + 2, b[j + 2]); }
        assert SonyInterval(0, b[0]) && SonyInterval(1, b[1]);
      }
      if forall j :: 0 <= j < |b[2..]| ==> SonyInterval(j, b[2..][j]) {
        forall j | 2 <= j < |b| ensures SonyInterval(j, b[j]) { assert SonyInterval(j - 2, b[2..][j - 2]); }
      }
    }
  }

  lemma SonyAccepts(buf: seq<uint16>)
    ensures DecodeSony(buf).Some? <==> IsSonyLength(|buf|) && SonyLike(buf)
  {
    if IsSonyLength(|buf|) {
      var body := buf[2..];
      ParseSony(body, SonyFormat().alphabet);
      assert SonyLike(buf) <==> Match(buf[1], 2400) && forall j :: 0 <= j < |body| ==> SonyInterval(j, body[j]) by {
        if SonyLike(buf) {
          forall j | 0 <= j < |body| ensures SonyInterval(j, body[j]) { assert SonyInterval(j + 2, buf[j + 2]); }
        }
        if forall j :: 0 <= j < |body| ==> SonyInterval(j, body[j]) {
          forall j | 2 <= j < |buf| ensures SonyInterval(j, buf[j]) { assert SonyInterval(j - 2, body[j - 2]); }
        }
      }
      SonyParts(buf);
    }
  }

  lemma SonyParts(buf: seq<uint16>)
    requires |buf| >= 2
    ensures DecodePulse(SonyFormat(), buf, |buf|)
            == if Match(buf[1], 2400) then Parse(buf[2..], SonyFormat().alphabet) else None
  {
    ConformsOne(buf[1], Percent(2400));
    assert buf[1..2] == [buf[1]] && buf[2..|buf|] == buf[2..] && buf[|buf|..] == [];
  }

  // --- RC5 and Sony ---

  // Silence at the very end is no longer than a half-bit, or two in the trailer.
  lemma TrimmedSpaces(rs: seq<Event>, limit: nat)
    requires rs != [] && rs[|rs| - 1].time <= limit
    ensures ShortSpaces(Trim(rs), limit) <==> ShortSpaces(rs, limit)
  {
    var t := Trim(rs);
    if ShortSpaces(t, limit) {
      forall j | 0 <= j < |rs| && rs[j].level == SPACE ensures rs[j].time <= limit {
        if j < |t| { assert t[j] == rs[j]; }
      }
    }
  }

  lemma OpenedSpaces(m: seq<Event>, limit: nat)
    requires m != []
    ensures ShortSpaces(Opened(m), limit) <==> ShortSpaces(m, limit)
  {
    var rs, d := Opened(m), if m[0].level == MARK then 0 else 1;
    assert forall j :: 1 - d <= j < |m| ==> rs[j + d] == m[j];
    if ShortSpaces(rs, limit) {
      forall j | 0 <= j < |m| && m[j].level == SPACE ensures m[j].time <= limit { assert rs[j + d] == m[j]; }
    } else {
      var j :| 0 <= j < |rs| && rs[j].level == SPACE && rs[j].time > limit;
      assert m[j - d] == rs[j];
    }
  }

  // The spaces of a recorded RC5 frame are single half-bits exactly when no one follows a zero.
  lemma RC5Spaces(bits: seq<nat>)
    requires bits != [] && InBase(bits, 2)
    ensures var us := [Event(MARK, 1)] + PhaseUnits(RC5Code, bits, 0);
            ShortSpaces(Trim(Merge(us)), 1) <==> BriefJoins(RC5Code, bits, 0, 1)
  {
    var us, m := [Event(MARK, 1)] + PhaseUnits(RC5Code, bits, 0), Merge(PhaseUnits(RC5Code, bits, 0));
    RC5Runs(bits);
    LastRun(RC5Code, bits, 0);
    OpenedEnd(m);
    TrimmedSpaces(Merge(us), 1);
    OpenedSpaces(m, 1);
    SpacesOfRuns(RC5Code, bits, 0, 1);
  }

  predicate Zeros(bits: seq<nat>) { forall j :: 0 <= j < |bits| ==> bits[j] == 0 }

  lemma {:induction false} JoinsOfZeros(bits: seq<nat>, i: nat)
    requires bits != [] && InBase(bits, 2)
    ensures bits[0] == 0 && BriefJoins(RC5Code, bits, i, 1) <==> Zeros(bits)
    decreases |bits|
  {
    if |bits| > 1 {
      JoinsOfZeros(bits[1..], i + 1);
      if Zeros(bits[1..]) && bits[0] == 0 {
        forall j | 0 <= j < |bits| ensures bits[j] == 0 { if j > 0 { assert bits[1..][j - 1] == 0; } }
      }
    }
  }

  lemma {:induction false} TurnsOfZeros(bits: seq<nat>)
    requires Zeros(bits)
    ensures Turns(0, bits) == 0
    decreases |bits|
  {
    if bits != [] { TurnsOfZeros(bits[1..]); }
  }

  lemma EntriesOfZeros(bits: seq<nat>)
    requires bits != [] && Zeros(bits)
    ensures PhaseEntries(RC5Code, bits) == 2 * |bits|
  {
    TurnsOfZeros(bits[1..]);
  }

  lemma {:induction false} ValOfZeros(bits: seq<nat>)
    ensures Val(bits, 2) == 0 <==> Zeros(bits)
    decreases |bits|
  {
    if bits != [] {
      var front := bits[..|bits| - 1];
      ValOfZeros(front);
      if Zeros(front) && bits[|bits| - 1] == 0 {
        forall j | 0 <= j < |bits| ensures bits[j] == 0 { if j < |front| { assert front[j] == 0; } }
      }
    }
  }

  lemma LowIsZero(d: uint32, n: nat)
    ensures Low(d, n) == 0 <==> Zeros(Bits(d, n))
  {
    BitsValue(d, n);
    ValOfZeros(Bits(d, n));
  }

  // An RC5 message is at risk exactly when its frame can have the length, the long first mark and the
  // short spaces of a Sony frame.
  lemma RC5RiskOf(d: uint32, n: uint8)
    requires Supported(RC5Message(d, n))
    ensures var bits := Bits(d, n);
            AtRisk(RC5Message(d, n)) <==>
            IsSonyLength(PhaseEntries(RC5Code, bits)) && bits[0] == 0 && BriefJoins(RC5Code, bits, 0, 1)
  {
    var bits := Bits(d, n);
    LowIsZero(d, n);
    JoinsOfZeros(bits, 0);
    if Zeros(bits) { EntriesOfZeros(bits); }
  }

  lemma RC5FirstMark(bits: seq<nat>)
    requires bits != [] && InBase(bits, 2)
    ensures var rs := Trim(Merge([Event(MARK, 1)] + PhaseUnits(RC5Code, bits, 0)));
            |rs| >= 1 && rs[0] == Event(MARK, if bits[0] == 0 then 2 else 1)
  {
    RunBounds(RC5Code, bits, 0);
    RC5Runs(bits);
    LastRun(RC5Code, bits, 0);
    OpenedEnd(Merge(PhaseUnits(RC5Code, bits, 0)));
  }

  // The levels of recorded runs.
  lemma RecordedLevel(us: seq<Event>, j: nat)
    requires us != [] && us[0].level == MARK && TwoLevel(us) && j < |Trim(Merge(us))|
    ensures Trim(Merge(us))[j].level == LevelAt(j + 1)
  {
    MergeAlternates(us);
    LevelOfRun(Merge(us), j);
  }

  predicate InTurn(rs: seq<Event>) { forall j :: 0 <= j < |rs| ==> rs[j].level == LevelAt(j + 1) }

  lemma RunsInTurn(us: seq<Event>)
    requires us != [] && us[0].level == MARK && TwoLevel(us)
    ensures InTurn(Trim(Merge(us)))
  {
    forall j | 0 <= j < |Trim(Merge(us))| ensures Trim(Merge(us))[j].level == LevelAt(j + 1) { RecordedLevel(us, j); }
  }

  // Sony's spaces are single half-bits of RC5, and its first mark is two.
  lemma SonyOverRC5(buf: seq<uint16>, rs: seq<Event>)
    requires SonyLike(buf) && InTurn(rs) && Recorded(buf, 1, 889, rs)
    ensures ShortSpaces(rs, 1) && rs[0].time != 1
  {
    forall j | 0 <= j < |rs| && rs[j].level == SPACE ensures rs[j].time <= 1 {
      assert SonyInterval(1 + j, buf[1 + j]) && Units(buf[1 + j], 889) == rs[j].time;
    }
    assert Units(buf[1 + 0], 889) == rs[0].time;
  }

  lemma RC5Confused(d: uint32, n: uint8, buf: seq<uint16>)
    requires Supported(RC5Message(d, n)) && InWindows(RC5Message(d, n), buf) && DecodeSony(buf).Some?
    ensures AtRisk(RC5Message(d, n))
  {
    var bits, us := Bits(d, n), RC5Units(d, n);
    SonyAccepts(buf);
    RC5RoundTrip(d, n, buf);
    SpreadUnits(RC5Code, bits, 0);
    RunsInTurn(us);
    SonyOverRC5(buf, Trim(Merge(us)));
    RC5Spaces(bits);
    RC5FirstMark(bits);
    RC5RiskOf(d, n);
  }

  // Intervals that suit both decoders.
  function RC5Suiting(rs: seq<Event>): (buf: seq<uint16>)
    ensures |buf| == 1 + |rs|
    ensures forall j :: 0 <= j < |rs| ==>
              buf[1 + j] == if j == 0 then 2000 else if rs[j].time == 1 then 700 else 1400
  {
    [0] + seq(|rs|, j requires 0 <= j < |rs| => if j == 0 then 2000 else if rs[j].time == 1 then 700 else 1400)
  }

  lemma RC5SuitsSony(rs: seq<Event>)
    requires InTurn(rs) && ShortSpaces(rs, 1) && rs != [] && forall j :: 0 <= j < |rs| ==> 1 <= rs[j].time
    ensures SonyLike(RC5Suiting(rs))
  {
    var buf := RC5Suiting(rs);
    forall j | 2 <= j < |buf| ensures SonyInterval(j, buf[j]) {
      assert buf[1 + (j - 1)] == (if rs[j - 1].time == 1 then 700 else 1400) && rs[j - 1].level == LevelAt(j);
    }
    assert buf[1 + 0] == 2000;
  }

  lemma RC5SuitsItself(rs: seq<Event>)
    requires rs != [] && rs[0].time == 2 && forall j :: 0 <= j < |rs| ==> 1 <= rs[j].time <= 2
    ensures Recorded(RC5Suiting(rs), 1, 889, rs)
  {
  }

  lemma RC5Times(bits: seq<nat>)
    requires bits != [] && InBase(bits, 2)
    ensures var rs := Trim(Merge([Event(MARK, 1)] + PhaseUnits(RC5Code, bits, 0)));
            forall j :: 0 <= j < |rs| ==> 1 <= rs[j].time <= 2
  {
    RunBounds(RC5Code, bits, 0);
    RC5Runs(bits);
    OpenedBounds(Merge(PhaseUnits(RC5Code, bits, 0)), 2);
  }

  lemma RC5Mistaken(d: uint32, n: uint8) returns (buf: seq<uint16>)
    requires Supported(RC5Message(d, n)) && AtRisk(RC5Message(d, n))
    ensures |buf| <= 42 && InWindows(RC5Message(d, n), buf) && DecodeSony(buf).Some?
  {
    var bits, us := Bits(d, n), RC5Units(d, n);
    var rs := Trim(Merge(us));
    RC5RiskOf(d, n);
    RC5Spaces(bits);
    RC5FirstMark(bits);
    RC5Times(bits);
    SpreadUnits(RC5Code, bits, 0);
    RunsInTurn(us);
    buf := RC5Suiting(rs);
    RC5SuitsSony(rs);
    RC5SuitsItself(rs);
    RC5RoundTrip(d, n, buf);
    SonyAccepts(buf);
  }

  // --- RC6 and Sony ---

  lemma RC6Spaces(bits: seq<nat>)
    requires bits != [] && InBase(bits, 2)
    ensures var us := [Event(MARK, 1), Event(SPACE, 1)] + PhaseUnits(RC6Code, bits, 0);
            ShortSpaces(Trim(Merge(us)), 2) <==> BriefJoins(RC6Code, bits, 0, 2)
  {
    var us, m := [Event(MARK, 1), Event(SPACE, 1)] + PhaseUnits(RC6Code, bits, 0),
                 Merge(PhaseUnits(RC6Code, bits, 0));
    RC6Runs(bits);
    RunBounds(RC6Code, bits, 0);
    LastRun(RC6Code, bits, 0);
    JoinedEnd(MARK, 1, m);
    TrimmedSpaces(Merge(us), 2);
    SpacesOfJoined(MARK, 1, m, 2);
    SpacesOfRuns(RC6Code, bits, 0, 2);
  }

  lemma {:induction false} JoinsBehindTrailer(bits: seq<nat>, i: nat)
    requires i >= 4
    ensures BriefJoins(RC6Code, bits, i, 2)
    decreases |bits|
  {
    if |bits| > 1 { JoinsBehindTrailer(bits[1..], i + 1); }
  }

  // Only the double-width trailer makes a space of three half-bits, and only next to a one that a
  // zero follows.
  lemma JoinsAtTrailer(bits: seq<nat>)
    requires |bits| >= 5 && InBase(bits, 2)
    ensures BriefJoins(RC6Code, bits, 0, 2) <==> bits[2] <= bits[3] <= bits[4]
  {
    var from1, from2, from3, from4 := bits[1..], bits[2..], bits[3..], bits[4..];
    assert from1[1..] == from2 && from2[1..] == from3 && from3[1..] == from4;
    JoinsBehindTrailer(from4, 4);
    assert BriefJoins(RC6Code, from3, 3, 2) <==> bits[3] <= bits[4];
    assert BriefJoins(RC6Code, from2, 2, 2) <==> bits[2] <= bits[3] <= bits[4];
    assert BriefJoins(RC6Code, from1, 1, 2) <==> BriefJoins(RC6Code, from2, 2, 2);
  }

  lemma RC6RiskOf(d: uint32, n: uint8)
    requires Supported(RC6Message(d, n))
    ensures var bits := RC6Bits(d, n);
            AtRisk(RC6Message(d, n)) <==>
            IsSonyLength(PhaseEntries(RC6Code, bits)) && BriefJoins(RC6Code, bits, 0, 2)
  {
    JoinsAtTrailer(RC6Bits(d, n));
  }

  // Sony's spaces are never three half-bits of RC6.
  lemma SonySpacesShort(buf: seq<uint16>, rs: seq<Event>)
    requires SonyLike(buf) && InTurn(rs) && |buf| >= 3 && Recorded(buf, 3, 444, rs)
    ensures ShortSpaces(rs, 2)
  {
    forall j | 0 <= j < |rs| && rs[j].level == SPACE ensures rs[j].time <= 2 {
      assert SonyInterval(3 + j, buf[3 + j]) && Units(buf[3 + j], 444) == rs[j].time;
    }
  }

  lemma RC6Confused(d: uint32, n: uint8, buf: seq<uint16>)
    requires Supported(RC6Message(d, n)) && InWindows(RC6Message(d, n), buf) && DecodeSony(buf).Some?
    ensures AtRisk(RC6Message(d, n))
  {
    var bits, us := RC6Bits(d, n), RC6Units(d, n);
    SonyAccepts(buf);
    RC6RoundTrip(d, n, buf);
    RC6Spread(bits, us);
    RunsInTurn(us);
    SonySpacesShort(buf, Trim(Merge(us)));
    RC6Spaces(bits);
    RC6RiskOf(d, n);
  }

  function RC6Suiting(rs: seq<Event>): (buf: seq<uint16>)
    ensures |buf| == 3 + |rs| && buf[1] == 2500 && buf[2] == 700
    ensures forall j :: 0 <= j < |rs| ==>
              buf[3 + j] == if rs[j].time == 1 then 500 else if rs[j].time == 2 then 700 else 1200
  {
    [0, 2500, 700] + seq(|rs|, j requires 0 <= j < |rs| =>
                           if rs[j].time == 1 then 500 else if rs[j].time == 2 then 700 else 1200)
  }

  lemma RC6SuitsSony(rs: seq<Event>)
    requires InTurn(rs) && ShortSpaces(rs, 2) && forall j :: 0 <= j < |rs| ==> 1 <= rs[j].time
    ensures SonyLike(RC6Suiting(rs))
  {
    var buf := RC6Suiting(rs);
    forall j | 3 <= j < |buf| ensures SonyInterval(j, buf[j]) {
      var r := rs[j - 3];
      assert buf[3 + (j - 3)] == if r.time == 1 then 500 else if r.time == 2 then 700 else 1200;
      assert r.level == LevelAt(j - 2);
    }
  }

  lemma RC6SuitsItself(rs: seq<Event>)
    requires ShortRuns(rs)
    ensures Recorded(RC6Suiting(rs), 3, 444, rs)
  {
  }

  lemma RC6SuitsBoth(bits: seq<nat>, us: seq<Event>)
    requires bits != [] && InBase(bits, 2) && BriefJoins(RC6Code, bits, 0, 2)
    requires us == [Event(MARK, 1), Event(SPACE, 1)] + PhaseUnits(RC6Code, bits, 0)
    ensures var rs := Trim(Merge(us)); SonyLike(RC6Suiting(rs)) && Recorded(RC6Suiting(rs), 3, 444, rs)
  {
    var rs := Trim(Merge(us));
    RC6Spaces(bits);
    RC6Spread(bits, us);
    RunsInTurn(us);
    OpenedRuns6(bits, us);
    TrimShort(Merge(us));
    RC6SuitsSony(rs);
    RC6SuitsItself(rs);
  }

  lemma RC6Mistaken(d: uint32, n: uint8) returns (buf: seq<uint16>)
    requires Supported(RC6Message(d, n)) && AtRisk(RC6Message(d, n))
    ensures |buf| <= 42 && InWindows(RC6Message(d, n), buf) && DecodeSony(buf).Some?
  {
    var bits, us := RC6Bits(d, n), RC6Units(d, n);
    var rs := Trim(Merge(us));
    RC6RiskOf(d, n);
    RC6SuitsBoth(bits, us);
    buf := RC6Suiting(rs);
    RC6RoundTrip(d, n, buf);
    SonyAccepts(buf);
  }

  // --- G.I. Cable and JVC ---

  function Fill<T>(x: T, n: nat): (xs: seq<T>)
    ensures |xs| == n && forall j :: 0 <= j < n ==> xs[j] == x
  {
    seq(n, _ => x)
  }

  function Pairs(x: uint16, y: uint16, n: nat): (b: seq<uint16>)
    ensures |b| == 2 * n && forall j :: 0 <= j < 2 * n ==> b[j] == if j % 2 == 0 then x else y
  {
    seq(2 * n, j => if j % 2 == 0 then x else y)
  }

  lemma {:induction false} ParsePairs(x: uint16, y: uint16, n: nat, a: Alphabet, s: nat)
    requires a.Width() == 2 && SymbolOf([x, y], a.codes) == Some(s)
    ensures Parse(Pairs(x, y, n), a) == Some(Fill(s, n))
    decreases n
  {
    if n > 0 {
      var b := Pairs(x, y, n);
      ParsePairs(x, y, n - 1, a, s);
      assert b[..2] == [x, y];
      assert b[2..] == Pairs(x, y, n - 1);
      assert Parse(b, a) == Prepend(s, Some(Fill(s, n - 1)));
      assert Fill(s, n) == [s] + Fill(s, n - 1);
    }
  }

  // A payload of equal symbols within a generic frame.
  lemma SteadyFrame(f: Format, buf: seq<uint16>, head: seq<uint16>, x: uint16, y: uint16, n: nat, last: uint16, s: nat)
    requires f.alphabet.Width() == 2 && SymbolOf([x, y], f.alphabet.codes) == Some(s)
    requires |buf| >= 1 && buf[1..] == head + Pairs(x, y, n) + [last]
    requires Conforms(head, f.head) && Conforms([last], f.tail)
    ensures DecodePulse(f, buf, |buf|) == Some(Fill(s, n))
  {
    ParsePairs(x, y, n, f.alphabet, s);
    FramedPulse(f, buf, head, Pairs(x, y, n), [last]);
  }

  // A JVC frame of ones with long spaces is a G.I. Cable frame of zeros with short ones.
  lemma JVCMeetsGICable() returns (buf: seq<uint16>)
    ensures |buf| == 36 && DecodeJVC(buf).Some? && DecodePulse(GICableFormat(), buf, 36) == Some(Fill<nat>(0, 16))
  {
    var head := [8400, 4410];
    buf := [0] + (head + Pairs(490, 1700, 16) + [490]);
    FirstPulse(490, 1700, 525, 525 * 3, 525);
    SteadyFrame(JVCFormat(), buf, head, 490, 1700, 16, 490, 1);
    FirstPulse(490, 1700, 490, 490 * 9, 2205);
    SteadyFrame(GICableFormat(), buf, head, 490, 1700, 16, 490, 0);
  }

  lemma FramedPulse(f: Format, buf: seq<uint16>, head: seq<uint16>, body: seq<uint16>, tail: seq<uint16>)
    requires |buf| >= 1 && buf[1..] == head + body + tail && Conforms(head, f.head) && Conforms(tail, f.tail)
    ensures DecodePulse(f, buf, |buf|) == Parse(body, f.alphabet)
  {
    var n, entries := |buf|, buf[1..];
    assert buf[1..1 + |f.head|] == entries[..|head|] == head;
    assert buf[n - |f.tail|..] == entries[|head| + |body|..] == tail;
    assert buf[1 + |f.head|..n - |f.tail|] == entries[|head|..|head| + |body|] == body;
  }

  lemma NECMeetsGICable() returns (buf: seq<uint16>)
    ensures |buf| == 4 && DecodeNEC(buf).Some? && IsDitto(buf, 490 * 18, 2205, 490)
  {
    buf := [0, 9000, 2200, 500];
  }

  // The space of bit j in a buffer that holds a generic frame.
  lemma SpaceOfBit(buf: seq<uint16>, headMark: nat, headSpace: nat, mark: nat, one: nat, zero: nat,
                   bits: seq<nat>, j: nat)
    requires Holds(buf, Generic(headMark, headSpace, mark, one, zero), bits) && InBase(bits, 2) && j < |bits|
    ensures |buf| == 4 + 2 * |bits| && Match(buf[4 + 2 * j], if bits[j] == 1 then one else zero)
  {
    var f := Generic(headMark, headSpace, mark, one, zero);
    var ws, i := FramePattern(f, bits), 3 + 2 * j;
    SpaceAt(bits, mark, one, zero, j);
    assert ws[i] == Pattern(bits, f.alphabet)[2 * j + 1];
    assert Within(buf[1..][i], ws[i]);
  }

  // A one of G.I. Cable has a space that JVC does not know.
  lemma GICableConfused(d: uint32, buf: seq<uint16>)
    requires d != REPEAT_CODE && InWindows(GICableMessage(d), buf) && DecodeJVC(buf).Some?
    ensures d % 0x1_0000 == 0
  {
    assert Holds(buf, GICableFormat(), Bits(d, 16));
    forall j | 0 <= j < 16 ensures Bits(d, 16)[j] == 0 { NoOneAt(Bits(d, 16), buf, j); }
    LowIsZero(d, 16);
    Pow16();
  }

  lemma NoOneAt(bits: seq<nat>, buf: seq<uint16>, j: nat)
    requires InBase(bits, 2) && |bits| == 16 && j < 16
    requires Holds(buf, GICableFormat(), bits) && DecodeJVC(buf).Some?
    ensures bits[j] == 0
  {
    SpaceOfBit(buf, 490 * 18, 490 * 9, 490, 490 * 9, 2205, bits, j);
    JVCSpaceAt(buf, j);
  }

  lemma JVCSpaceAt(buf: seq<uint16>, j: nat)
    requires |buf| == 36 && DecodeJVC(buf).Some? && j < 16
    ensures Int16(buf[4 + 2 * j]) <= 1968
  {
    var f := JVCFormat();
    var s := DecodePulse(f, buf, 36).value;
    PulseDistanceValid(525, 525 * 3, 525);
    DecodePulseSound(f, buf, 36);
    SameLength(f, buf, 36, s);
    SpaceOfBit(buf, 525 * 16, 525 * 8, 525, 525 * 3, 525, s, j);
  }

  lemma GICableZeros(d: uint32, buf: seq<uint16>)
    requires d % 0x1_0000 == 0 && DecodePulse(GICableFormat(), buf, 36) == Some(Fill<nat>(0, 16))
    ensures Holds(buf, GICableFormat(), Bits(d, 16))
  {
    PulseDistanceValid(490, 490 * 9, 2205);
    DecodePulseSound(GICableFormat(), buf, 36);
    assert Zeros(Bits(d, 16)) by {
      Pow16();
      LowIsZero(d, 16);
    }
    assert Bits(d, 16) == Fill<nat>(0, 16);
  }

  lemma GICableMistaken(d: uint32) returns (buf: seq<uint16>)
    requires AtRisk(GICableMessage(d))
    ensures |buf| <= 36 && InWindows(GICableMessage(d), buf) && DecodeBy(RivalOf(GICableMessage(d)), buf).Some?
  {
    if d == REPEAT_CODE {
      buf := NECMeetsGICable();
    } else {
      buf := JVCMeetsGICable();
      GICableZeros(d, buf);
    }
  }

  // --- The exact condition ---

  // A message that is not at risk keeps its rivals out, whatever jitter its own windows allow.
  lemma SafeFromRivals(m: Message, buf: seq<uint16>, r: uint8)
    requires Supported(m) && !AtRisk(m) && InWindows(m, buf) && Rivals(r, OwnProtocol(m))
    ensures DecodeBy(r, buf).None?
  {
    if DecodeBy(r, buf).Some? {
      match m {
        case RC5Message(d, n) => RC5Confused(d, n, buf);
        case RC6Message(d, n) => RC6Confused(d, n, buf);
        case GICableMessage(d) =>
          GICableLength(d, buf);
          AcceptedShape(r, buf);
          GICableConfused(d, buf);
      }
    }
  }

  lemma GICableLength(d: uint32, buf: seq<uint16>)
    requires d != REPEAT_CODE && InWindows(GICableMessage(d), buf)
    ensures |buf| == 36
  {
    SpaceOfBit(buf, 490 * 18, 490 * 9, 490, 490 * 9, 2205, Bits(d, 16), 0);
  }

  lemma SafeIsDelivered(m: Message, buf: seq<uint16>)
    requires Supported(m) && !AtRisk(m) && InWindows(m, buf)
    ensures DecodeChain(buf) == Some(OwnResult(m))
  {
    forall r: uint8 | Rivals(r, OwnProtocol(m)) ensures DecodeBy(r, buf).None? { SafeFromRivals(m, buf, r); }
    ChainWithinWindows(m, buf);
  }

  lemma RivalBuffer(m: Message) returns (buf: seq<uint16>)
    requires Supported(m) && AtRisk(m)
    ensures |buf| <= 100 && InWindows(m, buf) && DecodeBy(RivalOf(m), buf).Some? && Rivals(RivalOf(m), OwnProtocol(m))
  {
    match m {
      case RC5Message(d, n) => buf := RC5Mistaken(d, n);
      case RC6Message(d, n) => buf := RC6Mistaken(d, n);
      case GICableMessage(d) => buf := GICableMistaken(d);
    }
  }

  lemma Mistaken(m: Message) returns (buf: seq<uint16>)
    requires Supported(m) && AtRisk(m)
    ensures |buf| <= 100 && InWindows(m, buf) && DecodeBy(RivalOf(m), buf).Some?
    ensures DecodeChain(buf) == DecodeBy(RivalOf(m), buf) != Some(OwnResult(m))
  {
    buf := RivalBuffer(m);
    OwnDecoderDelivers(m, buf);
    ChainExact(buf, OwnProtocol(m));
    ResultNames(RivalOf(m), buf);
    ResultNames(OwnProtocol(m), buf);
  }

  // The chain decodes a message right for every jitter that its own decoder allows if and only if the
  // message is not at risk.
  lemma AlwaysDelivered(m: Message)
    requires Supported(m)
    ensures (forall buf :: InWindows(m, buf) ==> DecodeChain(buf) == Some(OwnResult(m))) <==> !AtRisk(m)
  {
    if AtRisk(m) {
      var buf := Mistaken(m);
      assert InWindows(m, buf) && DecodeChain(buf) != Some(OwnResult(m));
    } else {
      forall buf | InWindows(m, buf) ensures DecodeChain(buf) == Some(OwnResult(m)) { SafeIsDelivered(m, buf); }
    }
  }

  lemma RC5ZeroAtRisk(n: uint8)
    requires 13 <= 2 * n && IsSonyLength(2 * n)
    ensures Supported(RC5Message(0, n)) && AtRisk(RC5Message(0, n))
  {
    LowIsZero(0, n);
    EntriesOfZeros(Bits(0, n));
  }

  lemma RC6ZeroAtRisk(n: uint8)
    requires 23 <= 2 * n + 4 && IsSonyLength(2 * n + 4)
    ensures Supported(RC6Message(0, n)) && AtRisk(RC6Message(0, n))
  {
    var bits := RC6Bits(0, n);
    LowIsZero(0, n);
    TurnsOfZeros(bits[1..]);
    assert PhaseEntries(RC6Code, bits) == 2 * n + 4;
  }

  // Each pair of rivals shares a buffer that holds a message: AtMostOneDecoder cannot be sharpened.
  lemma RivalsMeet(p: uint8, q: uint8) returns (m: Message, buf: seq<uint16>)
    requires Rivals(p, q)
    ensures Supported(m) && OwnProtocol(m) == q && InWindows(m, buf) && |buf| <= 100
    ensures DecodeBy(q, buf) == Some(OwnResult(m)) && DecodeBy(p, buf).Some?
  {
    m := RiskyMessage(p, q);
    buf := Mistaken(m);
    OwnDecoderDelivers(m, buf);
  }

  lemma RiskyMessage(p: uint8, q: uint8) returns (m: Message)
    requires Rivals(p, q)
    ensures Supported(m) && AtRisk(m) && OwnProtocol(m) == q && RivalOf(m) == p
  {
    if q == RC5 {
      m := RC5Message(0, 13);
      RC5ZeroAtRisk(13);
    } else if q == RC6 {
      m := RC6Message(0, 19);
      RC6ZeroAtRisk(19);
    } else {
      m := GICableMessage(if p == NEC then REPEAT_CODE else 0);
    }
  }
}
