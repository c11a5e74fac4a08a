// Machine integers, and numbers written as digit strings, most significant digit first.
// Base 2 serves every protocol but RC-MM, which sends base-4 digits.
module Digits {
  type uint8 = x: int | 0 <= x < 0x100
  type uint16 = x: int | 0 <= x < 0x1_0000
  type uint32 = x: int | 0 <= x < 0x1_0000_0000
  type uint64 = x: int | 0 <= x < 0x1_0000_0000_0000_0000

  datatype Option<+T> = None | Some(value: T)

  function Pow(b: nat, n: nat): (p: nat)
    ensures b > 0 ==> p > 0
  {
    if n == 0 then 1 else b * Pow(b, n - 1)
  }

  predicate InBase(ds: seq<nat>, b: nat) { forall i :: 0 <= i < |ds| ==> ds[i] < b }

  // The number a digit string denotes.
  function Val(ds: seq<nat>, b: nat): nat {
    if ds == [] then 0 else b * Val(ds[..|ds| - 1], b) + ds[|ds| - 1]
  }

  // All but the last digit of v.
  function Shorten(v: nat, b: nat): (q: nat)
    requires b > 0
    ensures v == q * b + v % b
  {
    v / b
  }

  // The n low digits of v.
  function ToDigits(v: nat, n: nat, b: nat): (ds: seq<nat>)
    requires b > 0
    ensures |ds| == n && InBase(ds, b)
    decreases n, v
  {
    if n == 0 then [] else ToDigits(Shorten(v, b), n - 1, b) + [v % b]
  }

  // What a transmit loop reads off the top of a register of w digits that it keeps shifting left.
  function TopDigits(x: nat, w: nat, n: nat, b: nat): (ds: seq<nat>)
    requires w > 0 && b > 0
    ensures |ds| == n
    decreases n
  {
    if n == 0 then [] else [x / Pow(b, w - 1)] + TopDigits((b * x) % Pow(b, w), w, n - 1, b)
  }

  lemma ModUnique(x: int, m: int, q: int, r: int)
    requires m > 0 && 0 <= r < m && x == q * m + r
    ensures x % m == r && x / m == q
  {
    var d := x / m - q;
    assert x == (x / m) * m + x % m;
    assert d * m == r - x % m;
    assert d >= 1 ==> d * m >= m;
    assert d <= -1 ==> d * m <= -m;
  }

  lemma MulLess(x: nat, y: nat, s: nat)
    requires x < y && s > 0
    ensures x * s < y * s
  {
  }

  lemma Distribute(b: nat, p: nat, v: nat, s: nat)
    ensures (b * p + v) * s == b * (p * s) + v * s
  {
  }

  lemma SumTimes(x: nat, y: nat, s: nat)
    ensures (x + y) * s == x * s + y * s
  {
  }

  lemma {:induction false} PowAdd(b: nat, m: nat, n: nat)
    ensures Pow(b, m + n) == Pow(b, m) * Pow(b, n)
  {
    if m > 0 {
      PowAdd(b, m - 1, n);
      Distribute(0, 0, b * Pow(b, m - 1), Pow(b, n));
      Associate(b, Pow(b, m - 1), Pow(b, n));
    }
  }

  lemma Associate(x: nat, y: nat, z: nat)
    ensures x * (y * z) == (x * y) * z == y * (x * z)
  {
  }

  lemma PowDouble(b: nat, n: nat, p: nat)
    requires Pow(b, n) == p
    ensures Pow(b, n + n) == p * p
  {
    PowAdd(b, n, n);
  }

  lemma PowNext(b: nat, n: nat)
    ensures Pow(b, n + 1) == b * Pow(b, n)
  {
  }

  // The register widths in use.
  lemma Pow8()
    ensures Pow(2, 8) == 0x100
  {
    assert Pow(2, 2) == 4;
    PowDouble(2, 2, 4);
    PowDouble(2, 4, 16);
  }

  lemma Pow12()
    ensures Pow(2, 12) == 0x1000
  {
    Pow8();
    assert Pow(2, 4) == 16 by { assert Pow(2, 2) == 4; }
    PowAdd(2, 8, 4);
  }

  lemma Pow16()
    ensures Pow(2, 16) == 0x1_0000
  {
    Pow8();
    PowDouble(2, 8, 0x100);
  }

  lemma Pow15()
    ensures Pow(2, 15) == 0x8000
  {
    Pow16();
    PowNext(2, 15);
  }

  lemma Pow32()
    ensures Pow(2, 32) == 0x1_0000_0000
  {
    Pow16();
    PowDouble(2, 16, 0x1_0000);
  }

  lemma Pow31()
    ensures Pow(2, 31) == 0x8000_0000
  {
    Pow32();
    PowNext(2, 31);
  }

  lemma Pow36()
    ensures Pow(2, 36) == 0x10_0000_0000
  {
    Pow32();
    assert Pow(2, 4) == 16 by { assert Pow(2, 2) == 4; }
    PowAdd(2, 32, 4);
  }

  lemma Pow64()
    ensures Pow(2, 64) == 0x1_0000_0000_0000_0000
  {
    Pow32();
    PowDouble(2, 32, 0x1_0000_0000);
  }

  lemma Pow63()
    ensures Pow(2, 63) == 0x8000_0000_0000_0000
  {
    Pow64();
    PowNext(2, 63);
  }

  lemma {:induction false} PowFour(n: nat)
    ensures Pow(4, n) == Pow(2, 2 * n)
  {
    if n > 0 {
      PowFour(n - 1);
      PowNext(2, 2 * n - 2);
      PowNext(2, 2 * n - 1);
    }
  }

  lemma FourTo16()
    ensures Pow(4, 16) == 0x1_0000_0000
  {
    PowFour(16);
    Pow32();
  }

  lemma FourTo15()
    ensures Pow(4, 15) == 0x4000_0000
  {
    FourTo16();
    PowNext(4, 15);
  }

  // A digit d < b in front of a remainder r < p stays below b * p.
  lemma DigitBound(d: nat, b: nat, p: nat, r: nat)
    requires d < b && r < p
    ensures d * p + r < b * p
  {
    assert (b - 1 - d) * p >= 0;
    assert b * p - d * p == (b - 1 - d) * p + p;
  }

  lemma {:induction false} ValBound(ds: seq<nat>, b: nat)
    requires b > 0 && InBase(ds, b)
    ensures Val(ds, b) < Pow(b, |ds|)
  {
    if ds != [] {
      var front := ds[..|ds| - 1];
      ValBound(front, b);
      DigitBound(Val(front, b), Pow(b, |front|), b, ds[|ds| - 1]);
    }
  }

  lemma Horner(b: nat, d: nat, p: nat, x: nat)
    ensures b * (d * p + x) == d * (b * p) + b * x
  {
  }

  lemma {:induction false} ValPrepend(d: nat, ds: seq<nat>, b: nat)
    ensures Val([d] + ds, b) == d * Pow(b, |ds|) + Val(ds, b)
    decreases |ds|
  {
    if ds == [] {
      assert [d] + ds == [d] && [d][..0] == [];
    } else {
      var front, last := ds[..|ds| - 1], ds[|ds| - 1];
      ValPrepend(d, front, b);
      assert ([d] + ds)[..|ds|] == [d] + front;
      assert Val([d] + ds, b) == b * Val([d] + front, b) + last;
      Horner(b, d, Pow(b, |front|), Val(front, b));
    }
  }

  // Taking a number modulo b * p digit by digit.
  lemma SplitMod(v: nat, b: nat, p: nat)
    requires b > 0 && p > 0
    ensures b * p > 0 && v % (b * p) == b * (Shorten(v, b) % p) + v % b
  {
    var q, r := Shorten(v, b) / p, Shorten(v, b) % p;
    assert Shorten(v, b) == q * p + r;
    Distribute(q, p, r, b);
    assert v == q * (p * b) + (r * b + v % b);
    DigitBound(r, p, b, v % b);
    ModUnique(v, p * b, q, r * b + v % b);
  }

  // Writing n digits and reading them back keeps the number modulo b^n.
  lemma {:induction false} ValOfToDigits(v: nat, n: nat, b: nat)
    requires b > 0
    ensures Val(ToDigits(v, n, b), b) == v % Pow(b, n)
    decreases n
  {
    var ds := ToDigits(v, n, b);
    if n > 0 {
      var q, p := Shorten(v, b), Pow(b, n - 1);
      ValOfToDigits(q, n - 1, b);
      assert ds[..n - 1] == ToDigits(q, n - 1, b);
      SplitMod(v, b, p);
      assert Val(ds, b) == b * (q % p) + v % b;
      assert Pow(b, n) == b * p;
    }
  }

  lemma {:induction false} ToDigitsOfVal(ds: seq<nat>, b: nat)
    requires b > 0 && InBase(ds, b)
    ensures ToDigits(Val(ds, b), |ds|, b) == ds
  {
    if ds != [] {
      var front, d := ds[..|ds| - 1], ds[|ds| - 1];
      ToDigitsOfVal(front, b);
      ModUnique(Val(ds, b), b, Val(front, b), d);
      assert ds == front + [d];
    }
  }

  lemma {:induction false} ValAppend(xs: seq<nat>, ys: seq<nat>, b: nat)
    ensures Val(xs + ys, b) == Val(xs, b) * Pow(b, |ys|) + Val(ys, b)
  {
    if ys == [] {
      assert xs + ys == xs;
    } else {
      var front := ys[..|ys| - 1];
      ValAppend(xs, front, b);
      assert (xs + ys)[..|xs + ys| - 1] == xs + front;
      Horner(b, Val(xs, b), Pow(b, |front|), Val(front, b));
    }
  }

  // One left shift of a register that holds d * h + r, where h is the weight of its top digit.
  lemma ShiftOnce(d: nat, b: nat, h: nat, r: nat)
    requires d < b && r < h
    ensures (d * h + r) / h == d
    ensures b * h > 0 && (b * (d * h + r)) % (b * h) == b * r
  {
    ModUnique(d * h + r, h, d, r);
    Distribute(d, h, r, b);
    assert b * (d * h + r) == d * (b * h) + b * r;
    MulLess(r, h, b);
    ModUnique(b * (d * h + r), b * h, d, b * r);
  }

  lemma TopDigitOff(d: nat, r: nat, w: nat, n: nat, b: nat)
    requires w > 0 && n > 0 && d < b && r < Pow(b, w - 1)
    ensures TopDigits(d * Pow(b, w - 1) + r, w, n, b) == [d] + TopDigits(b * r, w, n - 1, b)
  {
    ShiftOnce(d, b, Pow(b, w - 1), r);
  }

  // The top digit of a register of w digits with ds at its left end, and what a shift makes of the rest.
  lemma RegisterParts(ds: seq<nat>, w: nat, b: nat, low: nat) returns (r: nat)
    requires 0 < |ds| <= w && b > 0 && InBase(ds, b) && low < Pow(b, w - |ds|)
    ensures Val(ds, b) * Pow(b, w - |ds|) + low == ds[0] * Pow(b, w - 1) + r && r < Pow(b, w - 1)
    ensures b * r == Val(ds[1..], b) * Pow(b, w - |ds[1..]|) + b * low && b * low < Pow(b, w - |ds[1..]|)
  {
    var v, n, d := Val(ds[1..], b), |ds|, ds[0];
    var s, p := Pow(b, w - n), Pow(b, n - 1);
    r := v * s + low;
    assert ds == [d] + ds[1..];
    assert Val(ds, b) == d * p + v by { ValPrepend(d, ds[1..], b); }
    assert p * s == Pow(b, w - 1) by { PowAdd(b, n - 1, w - n); }
    assert r < p * s by { ValBound(ds[1..], b); DigitBound(v, p, s, low); }
    assert Val(ds, b) * s + low == d * (p * s) + r by { Distribute(d, p, v, s); Associate(d, p, s); }
    ShiftedBehind(b, v, s, low);
    MulLess(low, s, b);
  }

  // A register that holds the digits ds at its left end gives them back one by one, whatever is behind them.
  lemma {:induction false} TopDigitsOfShifted(ds: seq<nat>, w: nat, b: nat, low: nat)
    requires w > 0 && |ds| <= w && b > 0 && InBase(ds, b) && low < Pow(b, w - |ds|)
    ensures TopDigits(Val(ds, b) * Pow(b, w - |ds|) + low, w, |ds|, b) == ds
  {
    if ds != [] {
      var r := RegisterParts(ds, w, b, low);
      TopDigitsOfShifted(ds[1..], w, b, b * low);
      TopDigitOff(ds[0], r, w, |ds|, b);
    }
  }

  lemma ShiftedBehind(b: nat, v: nat, s: nat, low: nat)
    ensures b * (v * s + low) == v * (b * s) + b * low
  {
  }

  lemma ScaleMod(v: nat, p: nat, s: nat, low: nat)
    requires p > 0 && low < s
    ensures p * s > 0 && (v * s + low) % (p * s) == (v % p) * s + low
  {
    var rest, high := v % p, v / p;
    assert v == high * p + rest;
    Distribute(high, p, rest, s);
    Associate(high, p, s);
    DigitBound(rest, p, s, low);
    ModUnique(v * s + low, p * s, high, rest * s + low);
  }

  // Loading the register with data << (w - n), as every sender does, lines the n low digits up; low is
  // what may stand behind them.
  lemma TopDigitsOfLoaded(data: nat, w: nat, n: nat, b: nat, low: nat)
    requires w > 0 && n <= w && b > 0 && low < Pow(b, w - n)
    ensures TopDigits((data * Pow(b, w - n) + low) % Pow(b, w), w, n, b) == ToDigits(data, n, b)
  {
    PowAdd(b, n, w - n);
    ScaleMod(data, Pow(b, n), Pow(b, w - n), low);
    ValOfToDigits(data, n, b);
    TopDigitsOfShifted(ToDigits(data, n, b), w, b, low);
  }

  // x | y
  function Or(x: nat, y: nat): nat
    decreases x + y
  {
    if x == 0 then y else 2 * Or(x / 2, y / 2) + if x % 2 == 1 || y % 2 == 1 then 1 else 0
  }

  lemma OrEven(half: nat, y: nat)
    requires half > 0
    ensures Or(2 * half, y) == 2 * Or(half, y / 2) + y % 2
  {
  }

  // Where no bit is set in both, | is +.
  lemma {:induction false} OrDisjoint(x: nat, y: nat, k: nat)
    requires y < Pow(2, k)
    ensures Or(x * Pow(2, k), y) == x * Pow(2, k) + y
    decreases k
  {
    if k == 0 {
      OrZero(x);
    } else if x > 0 {
      var half := x * Pow(2, k - 1);
      assert x * Pow(2, k) == 2 * half by { Associate(x, 2, Pow(2, k - 1)); }
      assert half > 0 by { MulLess(0, x, Pow(2, k - 1)); }
      assert Or(half, y / 2) == half + y / 2 by { OrDisjoint(x, y / 2, k - 1); }
      OrEven(half, y);
    }
  }

  lemma {:induction false} OrZero(x: nat)
    ensures Or(x, 0) == x
  {
    if x > 0 { OrZero(x / 2); }
  }
}
