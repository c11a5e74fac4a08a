// From half-bits to recorded run lengths and back: what merging does to a phase-coded frame.
module PhaseRuns {
  import opened Digits
  import opened Wire
  import opened PhaseCode

  // The events of phase-coded bits, with times counted in half-bits.
  function PhaseUnits(k: Kind, bits: seq<nat>, i: nat): (us: seq<Event>)
    ensures |us| == 2 * |bits|
    decreases |bits|
  {
    if bits == [] then []
    else
      var w, first := HalfWidth(k, i), FirstLevel(k, bits[0]);
      [Event(first, w), Event(Opposite(first), w)] + PhaseUnits(k, bits[1..], i + 1)
  }

  function Scale(us: seq<Event>, t1: nat): (es: seq<Event>)
    ensures |es| == |us|
    ensures forall j :: 0 <= j < |us| ==> es[j] == Event(us[j].level, us[j].time * t1)
  {
    seq(|us|, j requires 0 <= j < |us| => Event(us[j].level, us[j].time * t1))
  }

  // The levels that events last for, one per half-bit.
  function Spread(us: seq<Event>): seq<RCLevel> {
    if us == [] then [] else Repeat(us[0].level, us[0].time) + Spread(us[1..])
  }

  predicate TwoLevel(us: seq<Event>) { forall j :: 0 <= j < |us| ==> us[j].level != ERROR }

  predicate Alternating(us: seq<Event>) { forall j :: 0 <= j < |us| - 1 ==> us[j + 1].level == Opposite(us[j].level) }

  lemma ScaleSnip(e: Event, us: seq<Event>, t1: nat)
    ensures Scale([e] + us, t1) == [Event(e.level, e.time * t1)] + Scale(us, t1)
  {
  }

  lemma {:induction false} MergeScale(us: seq<Event>, t1: nat)
    ensures Merge(Scale(us, t1)) == Scale(Merge(us), t1)
  {
    if |us| > 1 {
      var e, rest := us[0], us[1..];
      var m := Merge(rest);
      MergeScale(rest, t1);
      assert us == [e] + rest && m == [m[0]] + m[1..];
      ScaleSnip(e, rest, t1);
      ScaleSnip(m[0], m[1..], t1);
      ScaleSnip(e, m, t1);
      SumTimes(e.time, m[0].time, t1);
      ScaleSnip(Event(e.level, e.time + m[0].time), m[1..], t1);
    }
  }

  // Merging neither moves nor loses a half-bit.
  lemma {:induction false} SpreadMerge(us: seq<Event>)
    ensures Spread(Merge(us)) == Spread(us)
  {
    if |us| > 1 {
      SpreadMerge(us[1..]);
      var e, m := us[0], Merge(us[1..]);
      if e.level == m[0].level {
        assert Repeat(e.level, e.time) + Repeat(e.level, m[0].time) == Repeat(e.level, e.time + m[0].time);
        assert ([Event(e.level, e.time + m[0].time)] + m[1..])[1..] == m[1..];
      } else {
        assert ([e] + m)[1..] == m;
      }
    }
  }

  lemma {:induction false} MergeAlternates(us: seq<Event>)
    requires TwoLevel(us)
    ensures TwoLevel(Merge(us)) && Alternating(Merge(us))
  {
    if |us| > 1 { MergeAlternates(us[1..]); }
  }

  lemma {:induction false} LevelOfRun(rs: seq<Event>, j: nat)
    requires Alternating(rs) && j < |rs| && rs[0].level == MARK
    ensures rs[j].level == LevelAt(j + 1)
  {
    if j > 0 {
      LevelOfRun(rs, j - 1);
      assert rs[j - 1 + 1].level == Opposite(rs[j - 1].level);
    }
  }

  lemma {:induction false} SpreadUnits(k: Kind, bits: seq<nat>, i: nat)
    ensures Spread(PhaseUnits(k, bits, i)) == Encode(k, bits, i) && TwoLevel(PhaseUnits(k, bits, i))
    decreases |bits|
  {
    if bits != [] {
      SpreadUnits(k, bits[1..], i + 1);
      var us, w, first := PhaseUnits(k, bits, i), HalfWidth(k, i), FirstLevel(k, bits[0]);
      assert us[1..][1..] == PhaseUnits(k, bits[1..], i + 1);
      assert Spread(us) == Repeat(first, w) + (Repeat(Opposite(first), w) + Spread(us[1..][1..]));
    }
  }

  // The runs rs were recorded as the entries of buf from offset on.
  predicate Recorded(buf: seq<uint16>, offset: nat, t1: uint16, rs: seq<Event>) {
    && |buf| == offset + |rs|
    && forall j :: 0 <= j < |rs| ==> rs[j].time > 0 && Units(buf[offset + j], t1) == rs[j].time
  }

  lemma {:induction false} LevelsOfRuns(buf: seq<uint16>, offset: nat, t1: uint16, rs: seq<Event>)
    requires Recorded(buf, offset, t1, rs) && TwoLevel(rs) && Alternating(rs)
    requires rs != [] ==> rs[0].level == LevelAt(offset)
    ensures Levels(buf, offset, t1) == Spread(rs)
    decreases |rs|
  {
    if rs != [] {
      forall j | 0 <= j < |rs[1..]| ensures Units(buf[offset + 1 + j], t1) == rs[1..][j].time > 0 {
        assert rs[1..][j] == rs[1 + j] && Units(buf[offset + (1 + j)], t1) == rs[1 + j].time;
      }
      LevelsOfRuns(buf, offset + 1, t1, rs[1..]);
      assert Units(buf[offset + 0], t1) == rs[0].time;
    }
  }

  lemma {:induction false} SpreadAppend(rs: seq<Event>, e: Event)
    ensures Spread(rs + [e]) == Spread(rs) + Repeat(e.level, e.time)
  {
    if rs == [] {
      assert rs + [e] == [e];
    } else {
      SpreadAppend(rs[1..], e);
      assert (rs + [e])[1..] == rs[1..] + [e];
    }
  }

  // Dropping the last space drops trailing silence, and no mark.
  lemma SpreadTrim(rs: seq<Event>)
    ensures Cut(Spread(Trim(rs)), Spread(rs))
  {
    var n := |rs|;
    if n > 0 && rs[n - 1].level == SPACE {
      assert rs == rs[..n - 1] + [rs[n - 1]];
      SpreadAppend(rs[..n - 1], rs[n - 1]);
    }
  }

  // The runs of the bits from number i on, made of the first bit and the runs of the others: the
  // second half of the bit and the first half of the next are one run if they are of one level.
  lemma MergeCell(k: Kind, bits: seq<nat>, i: nat)
    requires |bits| > 1
    ensures var m := Merge(PhaseUnits(k, bits[1..], i + 1));
            m != [] && m[0].level == FirstLevel(k, bits[1])
            && Merge(PhaseUnits(k, bits, i)) == Joined(FirstLevel(k, bits[0]), HalfWidth(k, i), m)
  {
    var us, rest := PhaseUnits(k, bits, i), PhaseUnits(k, bits[1..], i + 1);
    assert us[1..][1..] == rest;
    assert rest[0].level == FirstLevel(k, bits[1]);
  }

  // A bit whose halves last w, in front of the runs m.
  function Joined(first: RCLevel, w: nat, m: seq<Event>): seq<Event>
    requires m != []
  {
    [Event(first, w)] +
    if m[0].level == Opposite(first) then [Event(Opposite(first), w + m[0].time)] + m[1..]
    else [Event(Opposite(first), w)] + m
  }

  lemma MergeOneBit(k: Kind, bits: seq<nat>, i: nat)
    requires |bits| == 1
    ensures var first, w := FirstLevel(k, bits[0]), HalfWidth(k, i);
            Merge(PhaseUnits(k, bits, i)) == [Event(first, w), Event(Opposite(first), w)]
  {
    var us := PhaseUnits(k, bits, i);
    assert bits[1..] == [] && us[1..] == [us[1]];
  }

  // In a phase-coded frame every bit has a level change in its middle, so the first run is half
  // a bit, no run is longer than three units, and there are more runs than bits.
  lemma {:induction false} RunBounds(k: Kind, bits: seq<nat>, i: nat)
    requires bits != []
    ensures var rs := Merge(PhaseUnits(k, bits, i));
            && |rs| > |bits| && rs[0] == Event(FirstLevel(k, bits[0]), HalfWidth(k, i))
            && forall j :: 0 <= j < |rs| ==> 1 <= rs[j].time <= 3 && (k.RC5Code? ==> rs[j].time <= 2)
    decreases |bits|
  {
    if |bits| == 1 {
      MergeOneBit(k, bits, i);
    } else {
      MergeCell(k, bits, i);
      RunBounds(k, bits[1..], i + 1);
      JoinedBounds(FirstLevel(k, bits[0]), HalfWidth(k, i), Merge(PhaseUnits(k, bits[1..], i + 1)),
                   if k.RC5Code? then 2 else 3);
    }
  }

  lemma JoinedBounds(first: RCLevel, w: nat, m: seq<Event>, most: nat)
    requires m != [] && 1 <= w && w + m[0].time <= most && forall j :: 0 <= j < |m| ==> 1 <= m[j].time <= most
    ensures var rs := Joined(first, w, m);
            |rs| > |m| && rs[0] == Event(first, w) && forall j :: 0 <= j < |rs| ==> 1 <= rs[j].time <= most
  {
    var rs := Joined(first, w, m);
    forall j | 0 <= j < |rs| ensures 1 <= rs[j].time <= most {
      if j >= 2 { assert rs[j] == if m[0].level == Opposite(first) then m[j - 1] else m[j - 2]; }
    }
  }

  // How many bits differ from the one in front of them; previous is in front of the first.
  function Turns(previous: nat, bits: seq<nat>): (n: nat)
    ensures n <= |bits|
    decreases |bits|
  {
    if bits == [] then 0 else (if bits[0] == previous then 0 else 1) + Turns(bits[0], bits[1..])
  }

  // Two runs a bit, but where it differs from the one in front of it.
  lemma {:induction false} RunCount(k: Kind, bits: seq<nat>, i: nat)
    requires bits != [] && InBase(bits, 2)
    ensures |Merge(PhaseUnits(k, bits, i))| == 2 * |bits| - Turns(bits[0], bits[1..])
    decreases |bits|
  {
    if |bits| == 1 {
      MergeOneBit(k, bits, i);
    } else {
      MergeCell(k, bits, i);
      RunCount(k, bits[1..], i + 1);
      assert FirstLevel(k, bits[1]) == Opposite(FirstLevel(k, bits[0])) <==> bits[1] != bits[0];
    }
  }

  lemma JoinedEnd(first: RCLevel, w: nat, m: seq<Event>)
    requires |m| >= 2
    ensures var rs := Joined(first, w, m);
            && |rs| == |m| + (if m[0].level == Opposite(first) then 1 else 2)
            && rs[|rs| - 1] == m[|m| - 1]
            && |Trim(rs)| == |rs| - if m[|m| - 1].level == SPACE then 1 else 0
  {
  }

  // The last run is the second half of the last bit.
  lemma {:induction false} LastRun(k: Kind, bits: seq<nat>, i: nat)
    requires bits != []
    ensures var rs, n := Merge(PhaseUnits(k, bits, i)), |bits|;
            |rs| >= 2 && rs[|rs| - 1] == Event(Opposite(FirstLevel(k, bits[n - 1])), HalfWidth(k, i + n - 1))
    decreases |bits|
  {
    if |bits| == 1 {
      MergeOneBit(k, bits, i);
    } else {
      MergeCell(k, bits, i);
      LastRun(k, bits[1..], i + 1);
      JoinedEnd(FirstLevel(k, bits[0]), HalfWidth(k, i), Merge(PhaseUnits(k, bits[1..], i + 1)));
      assert bits[1..][|bits| - 2] == bits[|bits| - 1];
    }
  }

  // --- How long the spaces of a frame are ---

  predicate ShortSpaces(rs: seq<Event>, limit: nat) {
    forall j :: 0 <= j < |rs| && rs[j].level == SPACE ==> rs[j].time <= limit
  }

  // Wherever two half-bits of silence meet they last no more than limit together.
  predicate BriefJoins(k: Kind, bits: seq<nat>, i: nat, limit: nat)
    decreases |bits|
  {
    |bits| <= 1 ||
    ((FirstLevel(k, bits[0]) == MARK && FirstLevel(k, bits[1]) == SPACE ==>
        HalfWidth(k, i) + HalfWidth(k, i + 1) <= limit)
     && BriefJoins(k, bits[1..], i + 1, limit))
  }

  lemma {:induction false} SpacesOfRuns(k: Kind, bits: seq<nat>, i: nat, limit: nat)
    requires bits != [] && limit >= if k.RC5Code? then 1 else 2
    ensures ShortSpaces(Merge(PhaseUnits(k, bits, i)), limit) <==> BriefJoins(k, bits, i, limit)
    decreases |bits|
  {
    if |bits| == 1 {
      MergeOneBit(k, bits, i);
    } else {
      MergeCell(k, bits, i);
      SpacesOfRuns(k, bits[1..], i + 1, limit);
      RunBounds(k, bits[1..], i + 1);
      SpacesOfJoined(FirstLevel(k, bits[0]), HalfWidth(k, i), Merge(PhaseUnits(k, bits[1..], i + 1)), limit);
    }
  }

  lemma ShortOne(e: Event, limit: nat)
    ensures ShortSpaces([e], limit) <==> (e.level == SPACE ==> e.time <= limit)
  {
    assert [e][0] == e;
  }

  lemma ShortConcat(xs: seq<Event>, ys: seq<Event>, limit: nat)
    ensures ShortSpaces(xs + ys, limit) <==> ShortSpaces(xs, limit) && ShortSpaces(ys, limit)
  {
    var rs := xs + ys;
    if ShortSpaces(rs, limit) {
      forall j | 0 <= j < |xs| && xs[j].level == SPACE ensures xs[j].time <= limit { assert rs[j] == xs[j]; }
      forall j | 0 <= j < |ys| && ys[j].level == SPACE ensures ys[j].time <= limit { assert rs[|xs| + j] == ys[j]; }
    }
  }

  lemma ShortFront(e: Event, rs: seq<Event>, limit: nat)
    ensures ShortSpaces([e] + rs, limit) <==> (e.level == SPACE ==> e.time <= limit) && ShortSpaces(rs, limit)
  {
    ShortConcat([e], rs, limit);
    ShortOne(e, limit);
  }

  lemma SpacesOfJoined(first: RCLevel, w: nat, m: seq<Event>, limit: nat)
    requires m != [] && first != ERROR && w <= limit && (m[0].level == SPACE ==> m[0].time <= limit)
    ensures ShortSpaces(Joined(first, w, m), limit) <==>
            ShortSpaces(m, limit) && (first == MARK && m[0].level == SPACE ==> w + m[0].time <= limit)
  {
    var second := Opposite(first);
    assert m == [m[0]] + m[1..];
    ShortFront(m[0], m[1..], limit);
    if m[0].level == second {
      ShortFront(Event(second, w + m[0].time), m[1..], limit);
      ShortFront(Event(first, w), [Event(second, w + m[0].time)] + m[1..], limit);
    } else {
      ShortFront(Event(second, w), m, limit);
      ShortFront(Event(first, w), [Event(second, w)] + m, limit);
    }
  }
}
