/** Addition modulo 2^512: the scalar routines over eight 64-bit limbs and the SSE macros over four
    128-bit registers, in their 64-bit-lane (SSE4.2) and 32-bit-lane forms. */
module StreebogAdd {
  import opened Words
  import opened StreebogLps

  // ---------------------------------------------------------------- limbs

  /** BASE to the power `n`. */
  function Limit(n: nat): (p: nat)
    ensures p > 0
  {
    if n == 0 then 1 else BASE * Limit(n - 1)
  }

  function Value(s: seq<Word>): nat {
    if |s| == 0 then 0 else s[0] + BASE * Value(s[1..])
  }

  const M128: nat := 0x1_0000_0000_0000_0000_0000_0000_0000_0000
  const M256: nat := 0x1_0000_0000_0000_0000_0000_0000_0000_0000_0000_0000_0000_0000_0000_0000_0000_0000
  const M384: nat := 0x1_0000_0000_0000_0000_0000_0000_0000_0000_0000_0000_0000_0000_0000_0000_0000_0000_0000_0000_0000_0000_0000_0000_0000_0000
  const M512: nat := 0x1_0000_0000_0000_0000_0000_0000_0000_0000_0000_0000_0000_0000_0000_0000_0000_0000_0000_0000_0000_0000_0000_0000_0000_0000_0000_0000_0000_0000_0000_0000_0000_0000

  lemma LimitValues()
    ensures Limit(0) == 1 && Limit(1) == BASE && Limit(2) == M128 && Limit(4) == M256 && Limit(6) == M384 && Limit(8) == M512
  {}

  lemma {:induction false} ValueBound(s: seq<Word>)
    ensures Value(s) < Limit(|s|)
  {
    if |s| > 0 { ValueBound(s[1..]); }
  }

  /** Schoolbook addition from the lowest limb: the limbs of the sum and the carry out. */
  ghost function Sum(a: seq<Word>, b: seq<Word>, c: nat): (r: (seq<Word>, nat))
    requires |a| == |b| && c <= 1
    ensures |r.0| == |a| && r.1 <= 1
  {
    if |a| == 0 then ([], c)
    else
      var s := a[0] + b[0] + c;
      var rest := Sum(a[1..], b[1..], s / BASE);
      ([s % BASE] + rest.0, rest.1)
  }

  lemma {:induction false} SumValue(a: seq<Word>, b: seq<Word>, c: nat)
    requires |a| == |b| && c <= 1
    ensures Value(Sum(a, b, c).0) + Sum(a, b, c).1 * Limit(|a|) == Value(a) + Value(b) + c
  {
    if |a| > 0 {
      var s := a[0] + b[0] + c;
      SumValue(a[1..], b[1..], s / BASE);
      SumUnfold(a, b, c);
      hide Sum, Value;
      var rest := Sum(a[1..], b[1..], s / BASE);
      ValueCons(s % BASE, rest.0);
      ValueFirst(a);
      ValueFirst(b);
      CarryUp(s, Value(rest.0), rest.1, Limit(|a| - 1), Value(a[1..]) + Value(b[1..]));
    }
  }

  lemma SumUnfold(a: seq<Word>, b: seq<Word>, c: nat)
    requires |a| == |b| > 0 && c <= 1
    ensures var s := a[0] + b[0] + c;
      var rest := Sum(a[1..], b[1..], s / BASE);
      Sum(a, b, c) == ([s % BASE] + rest.0, rest.1)
  {}

  lemma ValueCons(d: Word, s: seq<Word>)
    ensures Value([d] + s) == d + BASE * Value(s)
  {
    assert ([d] + s)[1..] == s;
  }

  lemma ValueFirst(s: seq<Word>)
    requires |s| > 0
    ensures Value(s) == s[0] + BASE * Value(s[1..])
  {}

  /** One limb: what the higher limbs add up to, one place up. */
  lemma CarryUp(s: nat, v: nat, carry: nat, limit: nat, total: nat)
    requires carry <= 1 && v + carry * limit == total + s / BASE
    ensures s % BASE + BASE * v + carry * (BASE * limit) == s + BASE * total
  {
    assert s == s % BASE + BASE * (s / BASE);
    if carry == 0 {} else {}
  }

  lemma SumIsAddition(a: seq<Word>, b: seq<Word>)
    requires |a| == |b| == 8
    ensures Value(Sum(a, b, 0).0) == (Value(a) + Value(b)) % M512
  {
    hide Sum, Value, Limit;
    SumValue(a, b, 0);
    ValueBound(Sum(a, b, 0).0);
    LimitValues();
    DropCarry(Value(Sum(a, b, 0).0), Value(a) + Value(b), Sum(a, b, 0).1);
  }

  lemma DropCarry(x: nat, total: nat, carry: nat)
    requires x < M512 && carry <= 1 && x + carry * M512 == total
    ensures x == total % M512
  {
    if carry == 0 {
      assert total == x;
    } else {
      assert total == x + M512;
    }
  }

  lemma SumStep(done: seq<Word>, a: seq<Word>, b: seq<Word>, c: nat)
    requires |a| == |b| > 0 && c <= 1
    ensures done + Sum(a, b, c).0 == (done + [(a[0] + b[0] + c) % BASE]) + Sum(a[1..], b[1..], (a[0] + b[0] + c) / BASE).0
  {
    var d, rest := [(a[0] + b[0] + c) % BASE], Sum(a[1..], b[1..], (a[0] + b[0] + c) / BASE).0;
    assert done + (d + rest) == (done + d) + rest;
  }

  /** `gost3411_2012_addmod512`; `a` and `b` may be the same array. */
  method AddMod512(a: array<Word>, b: array<Word>)
    requires a.Length == b.Length == 8
    modifies a
    ensures Value(a[..]) == (Value(old(a[..])) + Value(old(b[..]))) % M512
  {
    hide Sum, Value, Limit;
    ghost var x, y := a[..], b[..];
    SumIsAddition(x, y);
    ghost var sum := Sum(x, y, 0).0;
    var crr: nat := 0;
    assert x[0..] == x && y[0..] == y && a[..0] + sum == sum;
    for i := 0 to 8
      invariant crr <= 1
      invariant forall m :: i <= m < 8 ==> a[m] == x[m] && b[m] == y[m]
      invariant a[..i] + Sum(x[i..], y[i..], crr).0 == sum
    {
      SumStep(a[..i], x[i..], y[i..], crr);
      LimbSum(x[i], y[i], crr);
      ghost var r := (x[i] + y[i] + crr) % BASE;
      var tm := b[i];
      var ai := (a[i] + crr) % BASE;
      crr := if ai < crr then 1 else 0;
      if 0 != tm {
        ai := (ai + tm) % BASE;
        if ai < tm { crr := 1; }
      }
      assert ai == r;
      ghost var done := a[..i];
      a[i] := ai;
      assert a[..i + 1] == done + [ai];
    }
    SumEnds(x[8..], y[8..], crr);
    assert a[..8] + [] == a[..];
  }

  lemma LimbSum(x: Word, y: Word, c: nat)
    requires c <= 1
    ensures var a1 := (x + c) % BASE; var a2 := (a1 + y) % BASE;
      && a2 == (x + y + c) % BASE
      && (x + y + c) / BASE == if a1 < c || (y != 0 && a2 < y) then 1 else 0
  {}

  lemma SumEnds(a: seq<Word>, b: seq<Word>, c: nat)
    requires |a| == |b| == 0 && c <= 1
    ensures Sum(a, b, c).0 == []
  {}

  lemma {:induction false} ValueUpdate(s: seq<Word>, i: nat, x: Word)
    requires i < |s|
    ensures Value(s[i := x]) == Value(s) + (x - s[i]) * Limit(i)
  {
    if i == 0 {
      assert s[0 := x][1..] == s[1..];
    } else {
      assert s[i := x][1..] == s[1..][i - 1 := x];
      ValueUpdate(s[1..], i - 1, x);
      var d, p := x - s[i], Limit(i - 1);
      assert d * (BASE * p) == BASE * (d * p);
    }
  }

  /** `gost3411_2012_addmod512_digit`. */
  method AddMod512Digit(a: array<Word>, b: Word)
    requires a.Length == 8
    modifies a
    ensures Value(a[..]) == (Value(old(a[..])) + b) % M512
  {
    hide Value, Limit;
    LimitValues();
    ghost var total := Value(a[..]) + b;
    ValueBound(a[..]);
    AddLow(a[..], b);
    ghost var was := a[..];
    a[0] := (a[0] + b) % BASE;
    assert a[..] == was[0 := (was[0] + b) % BASE];
    ValueBound(a[..]);
    if a[0] >= b { return; }
    for i := 1 to 8
      invariant Value(a[..]) + Limit(i) == total
    {
      AddAt(a[..], i);
      was := a[..];
      a[i] := (a[i] + 1) % BASE;
      assert a[..] == was[i := (was[i] + 1) % BASE];
      ValueBound(a[..]);
      if 0 != a[i] { return; }
    }
    ValueBound(a[..]);
  }

  /** Adding to the lowest limb leaves a carry into the next exactly when the limb ends below what was added. */
  lemma AddLow(s: seq<Word>, b: Word)
    requires |s| == 8
    ensures var x := (s[0] + b) % BASE;
      Value(s[0 := x]) + (if x >= b then 0 else Limit(1)) == Value(s) + b
  {
    ValueUpdate(s, 0, (s[0] + b) % BASE);
    LimitValues();
  }

  lemma CarryProduct(w: Word, l: nat)
    ensures var x := (w + 1) % BASE; (x - w) * l == if x != 0 then l else l - BASE * l
  {
    if w == BASE - 1 {
      assert (0 - (BASE - 1)) * l == l - BASE * l;
    } else {
      assert (w + 1) % BASE == w + 1;
    }
  }

  lemma AddAt(s: seq<Word>, i: nat)
    requires |s| == 8 && i < 8
    ensures var x := (s[i] + 1) % BASE;
      Value(s[i := x]) + (if x != 0 then 0 else Limit(i + 1)) == Value(s) + Limit(i)
  {
    var x := (s[i] + 1) % BASE;
    ValueUpdate(s, i, x);
    var l := Limit(i);
    assert Limit(i + 1) == BASE * l;
    hide Value, Limit;
    CarryProduct(s[i], l);
  }
}
