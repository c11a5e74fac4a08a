// The infrared signal between a sender and a receiver: what is emitted, and what intervals are recorded.
module Wire {
  datatype RCLevel = MARK | SPACE | ERROR

  // mark(time) and space(time) emit one event each.
  datatype Event = Event(level: RCLevel, time: nat)

  function Total(es: seq<Event>): nat { TotalUpTo(es, |es|) }

  function TotalUpTo(es: seq<Event>, n: nat): nat
    requires n <= |es|
    decreases n, es
  {
    if n == 0 then 0 else TotalUpTo(es, n - 1) + es[n - 1].time
  }

  // A receiver sees only level changes: neighbouring events of the same level become one interval.
  function Merge(es: seq<Event>): (rs: seq<Event>)
    ensures (rs == []) == (es == [])
    ensures es != [] ==> rs[0].level == es[0].level
  {
    if |es| <= 1 then es
    else
      var rest := Merge(es[1..]);
      if es[0].level == rest[0].level
      then [Event(es[0].level, es[0].time + rest[0].time)] + rest[1..]
      else [es[0]] + rest
  }

  // The space after the last mark is not recorded.
  function Trim(es: seq<Event>): seq<Event> {
    if es != [] && es[|es| - 1].level == SPACE then es[..|es| - 1] else es
  }

  function Times(es: seq<Event>): (ds: seq<nat>)
    ensures |ds| == |es| && forall i :: 0 <= i < |es| ==> ds[i] == es[i].time
  {
    seq(|es|, i requires 0 <= i < |es| => es[i].time)
  }

  // The intervals of one frame, first mark to last mark.
  function Capture(es: seq<Event>): seq<nat> { Times(Trim(Merge(es))) }

  function Opposite(level: RCLevel): RCLevel { if level == MARK then SPACE else MARK }

  // Intervals ds with alternating levels.
  function Alternate(ds: seq<nat>, first: RCLevel): (es: seq<Event>)
    ensures |es| == |ds|
  {
    if ds == [] then [] else [Event(first, ds[0])] + Alternate(ds[1..], Opposite(first))
  }

  lemma {:induction false} AlternateAt(ds: seq<nat>, first: RCLevel, i: nat)
    requires i < |ds| && first != ERROR
    ensures Alternate(ds, first)[i].level == (if i % 2 == 0 then first else Opposite(first))
    ensures Alternate(ds, first)[i].time == ds[i]
  {
    if i > 0 { AlternateAt(ds[1..], Opposite(first), i - 1); }
  }

  lemma {:induction false} AlternateConcat(xs: seq<nat>, ys: seq<nat>, first: RCLevel)
    requires first != ERROR
    ensures Alternate(xs + ys, first) ==
            Alternate(xs, first) + Alternate(ys, if |xs| % 2 == 0 then first else Opposite(first))
  {
    if xs == [] {
      assert xs + ys == ys;
    } else {
      var front, second := [Event(first, xs[0])], Opposite(first);
      var behind := Alternate(ys, if |xs| % 2 == 0 then first else second);
      AlternateConcat(xs[1..], ys, second);
      assert (xs + ys)[1..] == xs[1..] + ys && Opposite(second) == first;
      assert Alternate(xs[1..] + ys, second) == Alternate(xs[1..], second) + behind;
      assert front + (Alternate(xs[1..], second) + behind) == (front + Alternate(xs[1..], second)) + behind;
    }
  }

  lemma {:induction false} MergeAlternating(ds: seq<nat>, first: RCLevel)
    requires first != ERROR
    ensures Merge(Alternate(ds, first)) == Alternate(ds, first)
  {
    var es := Alternate(ds, first);
    if |ds| > 1 {
      MergeAlternating(ds[1..], Opposite(first));
      assert es[1..] == Alternate(ds[1..], Opposite(first));
    }
  }

  // Merging can also be done as the events arrive.
  function Extend(rs: seq<Event>, e: Event): seq<Event> {
    var n := |rs|;
    if n > 0 && rs[n - 1].level == e.level then rs[..n - 1] + [Event(e.level, rs[n - 1].time + e.time)] else rs + [e]
  }

  // An event in front of runs.
  function Front(x: Event, rs: seq<Event>): seq<Event>
    requires rs != []
  {
    if x.level == rs[0].level then [Event(x.level, x.time + rs[0].time)] + rs[1..] else [x] + rs
  }

  lemma MergeFront(x: Event, es: seq<Event>)
    requires es != []
    ensures Merge([x] + es) == Front(x, Merge(es))
  {
    assert ([x] + es)[1..] == es;
  }

  // An event in front and one behind do not meet, unless there is a single run that takes both.
  lemma FrontExtend(x: Event, m: seq<Event>, e: Event)
    requires m != []
    ensures Extend(m, e) != [] && Extend(Front(x, m), e) == Front(x, Extend(m, e))
  {
    if |m| > 1 {
      assert Extend(m, e)[0] == m[0];
      assert Extend(Front(x, m), e) == Front(x, Extend(m, e));
    }
  }

  lemma {:induction false} MergeExtend(es: seq<Event>, e: Event)
    ensures Merge(es + [e]) == Extend(Merge(es), e)
  {
    if |es| == 1 {
      assert (es + [e])[1..] == [e];
    } else if |es| > 1 {
      var x, rest := es[0], es[1..];
      MergeExtend(rest, e);
      assert es == [x] + rest && es + [e] == [x] + (rest + [e]);
      MergeFront(x, rest);
      MergeFront(x, rest + [e]);
      FrontExtend(x, Merge(rest), e);
    }
  }

  lemma EndsInMark(ds: seq<nat>)
    requires |ds| % 2 == 1
    ensures Alternate(ds, MARK)[|ds| - 1].level == MARK
  {
    var last := |ds| - 1;
    assert last % 2 == 0;
    AlternateAt(ds, MARK, last);
  }

  lemma TotalOne(e: Event)
    ensures Total([e]) == e.time
  {
    assert TotalUpTo([e], 1) == TotalUpTo([e], 0) + e.time;
  }

  lemma {:induction false} TotalConcat(xs: seq<Event>, ys: seq<Event>)
    ensures Total(xs + ys) == Total(xs) + Total(ys)
  {
    TotalBehind(xs, ys, |ys|);
  }

  lemma {:induction false} TotalBehind(xs: seq<Event>, ys: seq<Event>, n: nat)
    requires n <= |ys|
    ensures TotalUpTo(xs + ys, |xs| + n) == Total(xs) + TotalUpTo(ys, n)
    decreases n
  {
    if n > 0 { TotalBehind(xs, ys, n - 1); } else { TotalWithin(xs, ys, |xs|); }
  }

  lemma {:induction false} TotalWithin(xs: seq<Event>, ys: seq<Event>, n: nat)
    requires n <= |xs|
    ensures TotalUpTo(xs + ys, n) == TotalUpTo(xs, n)
    decreases n
  {
    if n > 0 { TotalWithin(xs, ys, n - 1); }
  }
}
