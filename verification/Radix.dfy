/** Numbers written big-endian in radix 58 or 256, and the change of radix both directions of Safe58 make. */
module Radix {
  predicate IsRadix(b: nat) { b == 58 || b == 256 }

  ghost predicate Digits(s: seq<nat>, b: nat) { forall i :: 0 <= i < |s| ==> s[i] < b }

  function Num(s: seq<nat>, b: nat): nat {
    if |s| == 0 then 0 else b * Num(s[..|s| - 1], b) + s[|s| - 1]
  }

  /** The digits of `n`, without leading zeros. */
  function Rep(n: nat, b: nat): seq<nat>
    requires IsRadix(b)
  {
    if n == 0 then [] else Rep(n / b, b) + [n % b]
  }

  function Zeros(k: nat): (s: seq<nat>)
    ensures |s| == k
  {
    seq(k, _ => 0)
  }

  function LeadingZeros(s: seq<nat>): (z: nat)
    ensures z <= |s|
    ensures forall i :: 0 <= i < z ==> s[i] == 0
    ensures z < |s| ==> s[z] != 0
  {
    if |s| == 0 || s[0] != 0 then 0 else 1 + LeadingZeros(s[1..])
  }

  /** Rewrites radix `b` digits in radix `c`, one leading zero for each leading zero. */
  function Convert(s: seq<nat>, b: nat, c: nat): seq<nat>
    requires IsRadix(b) && IsRadix(c)
  {
    Zeros(LeadingZeros(s)) + Rep(Num(s, b), c)
  }

  lemma DivMod(b: nat, q: nat, d: nat)
    requires IsRadix(b) && d < b
    ensures (b * q + d) / b == q && (b * q + d) % b == d
  {
    if b == 58 {} else {}
  }

  lemma DivModBack(b: nat, n: nat)
    requires IsRadix(b)
    ensures n == b * (n / b) + n % b
  {
    if b == 58 {} else {}
  }

  lemma {:induction false} NumOfRep(n: nat, b: nat)
    requires IsRadix(b)
    ensures Num(Rep(n, b), b) == n && Digits(Rep(n, b), b)
    ensures n > 0 ==> |Rep(n, b)| > 0 && Rep(n, b)[0] != 0
  {
    if n > 0 {
      NumOfRep(n / b, b);
      DivModBack(b, n);
      var r := Rep(n, b);
      assert r[..|r| - 1] == Rep(n / b, b);
    }
  }

  lemma {:induction false} NumPositive(s: seq<nat>, b: nat)
    requires IsRadix(b) && |s| > 0 && s[0] != 0
    ensures Num(s, b) > 0
  {
    if |s| > 1 {
      NumPositive(s[..|s| - 1], b);
      if b == 58 {} else {}
    }
  }

  lemma {:induction false} RepOfNum(s: seq<nat>, b: nat)
    requires IsRadix(b) && Digits(s, b) && (|s| > 0 ==> s[0] != 0)
    ensures Rep(Num(s, b), b) == s
  {
    if |s| > 0 {
      var q, d := s[..|s| - 1], s[|s| - 1];
      NumPositive(s, b);
      RepOfNum(q, b);
      DivMod(b, Num(q, b), d);
      var n := Num(s, b);
      assert n == b * Num(q, b) + d;
      hide Num;
      assert Rep(n, b) == Rep(n / b, b) + [n % b];
      hide Rep;
      assert s == q + [d];
    }
  }

  lemma {:induction false} NumAfterZeros(k: nat, s: seq<nat>, b: nat)
    requires IsRadix(b)
    ensures Num(Zeros(k) + s, b) == Num(s, b)
    decreases |s|, k
  {
    var t := Zeros(k) + s;
    if |s| > 0 {
      assert t[..|t| - 1] == Zeros(k) + s[..|s| - 1];
      NumAfterZeros(k, s[..|s| - 1], b);
    } else if k > 0 {
      assert t[..|t| - 1] == Zeros(k - 1) + s;
      NumAfterZeros(k - 1, s, b);
    }
  }

  lemma {:induction false} LeadingZerosOf(k: nat, s: seq<nat>)
    requires |s| > 0 ==> s[0] != 0
    ensures LeadingZeros(Zeros(k) + s) == k
  {
    var t := Zeros(k) + s;
    assert forall i :: 0 <= i < k ==> t[i] == 0;
    assert |s| > 0 ==> t[k] == s[0];
  }

  /** Converting back gives the original digits, leading zeros included. */
  lemma ConvertRoundTrip(s: seq<nat>, b: nat, c: nat)
    requires IsRadix(b) && IsRadix(c) && Digits(s, b)
    ensures Convert(Convert(s, b, c), c, b) == s
  {
    var z := LeadingZeros(s);
    var r := Rep(Num(s, b), c);
    assert s == Zeros(z) + s[z..];
    NumAfterZeros(z, s[z..], b);
    NumOfRep(Num(s, b), c);
    NumAfterZeros(z, r, c);
    RepOfNum(s[z..], b);
    LeadingZerosOf(z, r);
  }

  /** The new digits stand for the same number, after as many zeros. */
  lemma ConvertKeepsValue(s: seq<nat>, b: nat, c: nat)
    requires IsRadix(b) && IsRadix(c)
    ensures Num(Convert(s, b, c), c) == Num(s, b) && LeadingZeros(Convert(s, b, c)) == LeadingZeros(s)
  {
    NumOfRep(Num(s, b), c);
    NumAfterZeros(LeadingZeros(s), Rep(Num(s, b), c), c);
    LeadingZerosOf(LeadingZeros(s), Rep(Num(s, b), c));
  }

  lemma ConvertDigits(s: seq<nat>, b: nat, c: nat)
    requires IsRadix(b) && IsRadix(c)
    ensures Digits(Convert(s, b, c), c)
  {
    NumOfRep(Num(s, b), c);
  }
}
