/** The transformation SLP of GOST R 34.11-2012: the definition (substitution, byte transposition, linear
    map over single bits), the small-table routine that follows it and the routine on precomputed tables. */
module StreebogLps {
  import opened Words

  type Vec = s: seq<Word> | |s| == 8 witness seq(8, _ => 0)

  /** The constants of the hash: S-box, matrix of the linear map, iteration constants. Nothing below
      depends on their values. */
  datatype AnyTables = Tables(sbox: seq<Byte>, a: seq<Word>, c: seq<Vec>)
  type Tables = t: AnyTables | |t.sbox| == 256 && |t.a| == 64 && |t.c| == 12
    witness AnyTables.Tables(seq(256, _ => 0), seq(64, _ => 0), seq(12, _ => seq(8, _ => 0)))

  /** The linear map: exclusive or of the rows `a[j]`, `a[j-1]`, ... selected by the bits of `v`, lowest first. */
  function Lin(a: seq<Word>, v: nat, j: int): Word
    requires |a| == 64 && j < 64
    decreases v
  {
    if v == 0 || j < 0 then 0 else XorW(if v % 2 == 1 then a[j] else 0, Lin(a, v / 2, j - 1))
  }

  /** The word the byte transposition puts at `i`: byte `i` of every word, substituted. */
  function Substituted(t: Tables, src: Vec, i: nat): (s: seq<Byte>)
    requires i < 8
    ensures |s| == 8
  {
    seq(8, k requires 0 <= k < 8 => t.sbox[ByteAt(src[k], i)])
  }

  function SLP(t: Tables, src: Vec): Vec {
    seq(8, i requires 0 <= i < 8 => Lin(t.a, WordOf(Substituted(t, src, i)), 63))
  }

  // ---------------------------------------------------------------- linearity

  lemma {:induction false} LinSplits(a: seq<Word>, lo: nat, hi: nat, n: nat, j: int)
    requires |a| == 64 && j < 64 && lo < Pow2(n)
    ensures Lin(a, lo + Pow2(n) * hi, j) == XorW(Lin(a, lo, j), Lin(a, hi, j - n))
    decreases n
  {
    hide Xor, Lin;
    if n == 0 {
      LinZero(a, j);
      XorZero(Lin(a, hi, j));
    } else {
      var x := Pow2(n - 1) * hi;
      assert Pow2(n) * hi == 2 * x;
      LinSplits(a, lo / 2, hi, n - 1, j - 1);
      hide Pow2;
      Halves(lo, x);
      if j >= 0 {
        LinUnfold(a, lo, j);
        LinUnfold(a, lo + 2 * x, j);
        XorAssociates(if lo % 2 == 1 then a[j] else 0, Lin(a, lo / 2, j - 1), Lin(a, hi, j - n));
      } else {
        LinBelow(a, lo, j);
        LinBelow(a, hi, j - n);
        LinBelow(a, lo + 2 * x, j);
        XorZero(0);
      }
    }
  }

  lemma Halves(lo: nat, x: nat)
    ensures (lo + 2 * x) % 2 == lo % 2 && (lo + 2 * x) / 2 == lo / 2 + x
  {}

  lemma LinZero(a: seq<Word>, j: int)
    requires |a| == 64 && j < 64
    ensures Lin(a, 0, j) == 0
  {}

  lemma LinBelow(a: seq<Word>, v: nat, j: int)
    requires |a| == 64 && j < 0
    ensures Lin(a, v, j) == 0
  {}

  lemma LinUnfold(a: seq<Word>, v: nat, j: nat)
    requires |a| == 64 && j < 64
    ensures Lin(a, v, j) == XorW(if v % 2 == 1 then a[j] else 0, Lin(a, v / 2, j - 1))
  {
    XorZero(0);
  }

  lemma {:induction false} FromBytesAppend(s: seq<Byte>, b: Byte)
    ensures FromBytes(s + [b]) == FromBytes(s) + Pow2(8 * |s|) * b
  {
    if |s| == 0 {
      assert (s + [b])[1..] == [];
    } else {
      assert (s + [b])[1..] == s[1..] + [b];
      FromBytesAppend(s[1..], b);
      Pow2Byte(8 * |s| - 8);
      assert 256 * Pow2(8 * |s| - 8) * b == 256 * (Pow2(8 * |s| - 8) * b);
    }
  }

  // ---------------------------------------------------------------- precomputed tables

  /** `ax[k][b]` is what the linear map makes of the substituted byte `b` in byte position `k`. */
  ghost predicate TableFor(t: Tables, ax: seq<seq<Word>>) {
    && |ax| == 8
    && (forall k :: 0 <= k < 8 ==> |ax[k]| == 256)
    && (forall k, b :: 0 <= k < 8 && 0 <= b < 256 ==> ax[k][b] == Lin(t.a, Pow2(8 * k) * t.sbox[b], 63))
  }

  /** The first `k` table entries for output word `i`, combined. */
  ghost function Row(t: Tables, ax: seq<seq<Word>>, src: Vec, i: nat, k: nat): Word
    requires TableFor(t, ax) && i < 8 && k <= 8
  {
    if k == 0 then 0 else XorW(Row(t, ax, src, i, k - 1), ax[k - 1][ByteAt(src[k - 1], i)])
  }

  lemma RowZero(a: seq<Word>)
    requires |a| == 64
    ensures FromBytes([]) == 0 && Lin(a, 0, 63) == 0
  {}

  lemma {:induction false} RowIsLinear(t: Tables, ax: seq<seq<Word>>, src: Vec, i: nat, k: nat)
    requires TableFor(t, ax) && i < 8 && k <= 8
    ensures Row(t, ax, src, i, k) == Lin(t.a, FromBytes(Substituted(t, src, i)[..k]), 63)
  {
    hide Lin, FromBytes, Xor;
    RowZero(t.a);
    if k == 0 {
      assert Substituted(t, src, i)[..k] == [];
    } else {
      var s := Substituted(t, src, i);
      var b := s[k - 1];
      assert s[..k] == s[..k - 1] + [b];
      RowIsLinear(t, ax, src, i, k - 1);
      FromBytesAppend(s[..k - 1], b);
      FromBytesBound(s[..k - 1]);
      LinSplits(t.a, FromBytes(s[..k - 1]), b, 8 * k - 8, 63);
      LinSplits(t.a, 0, b, 8 * k - 8, 63);
      XorZero(Lin(t.a, b, 63 - (8 * k - 8)));
    }
  }

  /** For any S-box and matrix, the table form of SLP is SLP. */
  lemma TableFormIsSLP(t: Tables, ax: seq<seq<Word>>, src: Vec, i: nat)
    requires TableFor(t, ax) && i < 8
    ensures Row(t, ax, src, i, 8) == SLP(t, src)[i]
  {
    RowIsLinear(t, ax, src, i, 8);
    assert Substituted(t, src, i)[..8] == Substituted(t, src, i);
  }

  method SlpTable(ghost t: Tables, ax: seq<seq<Word>>, dst: array<Word>, src: array<Word>)
    requires TableFor(t, ax) && dst.Length == src.Length == 8 && dst != src
    modifies dst
    ensures dst[..] == SLP(t, src[..])
  {
    hide Row, TableFor;
    ghost var v := src[..];
    for i := 0 to 8
      invariant src[..] == v
      invariant forall m :: 0 <= m < i ==> dst[m] == SLP(t, v)[m]
    {
      var r := SlpTableWord(t, ax, src, i);
      dst[i] := r;
    }
  }

  /** The loop body of SlpTable, with its eight look-ups. */
  method SlpTableWord(ghost t: Tables, ax: seq<seq<Word>>, src: array<Word>, i: nat) returns (r: Word)
    requires TableFor(t, ax) && src.Length == 8 && i < 8
    ensures r == SLP(t, src[..])[i]
  {
    ghost var v := src[..];
    hide SLP;
    TableFormIsSLP(t, ax, v, i);
    XorZero(ax[0][ByteAt(v[0], i)]);
    r := ax[0][ByteAt(src[0], i)];
    for k := 1 to 8
      invariant r == Row(t, ax, v, i, k)
    {
      r := XorW(r, ax[k][ByteAt(src[k], i)]);
    }
  }

  // ---------------------------------------------------------------- the bit loop of the small-table form

  /** The shifting loop: top bit first, rows in order. */
  ghost function LinHigh(a: seq<Word>, val: Word, j: nat): Word
    requires |a| == 64 && j <= 64
    decreases 64 - j
  {
    if j == 64 then 0 else XorW(if val >= HALF then a[j] else 0, LinHigh(a, 2 * val % BASE, j + 1))
  }

  lemma {:induction false} Pow2Sum(m: nat, n: nat)
    ensures Pow2(m + n) == Pow2(m) * Pow2(n)
  {
    if m > 0 {
      Pow2Sum(m - 1, n);
      assert Pow2(m) * Pow2(n) == 2 * (Pow2(m - 1) * Pow2(n));
    }
  }

  lemma {:induction false} LinHighIsLin(a: seq<Word>, u: nat, j: nat, val: Word)
    requires |a| == 64 && j <= 64 && u < Pow2(64 - j) && val == u * Pow2(j)
    ensures LinHigh(a, val, j) == Lin(a, u, 63)
    decreases 64 - j
  {
    if j < 64 {
      var n := 63 - j;
      var hi := if u >= Pow2(n) then 1 else 0;
      var lo := u - Pow2(n) * hi;
      assert Pow2(64 - j) == 2 * Pow2(n);
      LinSplits(a, lo, hi, n, 63);
      LinOne(a, hi, j);
      XorCommutes(Lin(a, lo, 63), Lin(a, hi, j));
      ShiftOut(u, lo, hi, j, val);
      LinHighIsLin(a, lo, j + 1, 2 * val % BASE);
    }
  }

  lemma LinOne(a: seq<Word>, hi: nat, j: nat)
    requires |a| == 64 && j < 64 && hi <= 1
    ensures Lin(a, hi, j) == if hi == 1 then a[j] else 0
  {
    if hi == 1 {
      LinUnfold(a, 1, j);
      XorZero(a[j]);
    }
  }

  /** Shifting left drops the top bit and doubles the rest. */
  lemma ShiftOut(u: nat, lo: nat, hi: nat, j: nat, val: nat)
    requires j < 64 && lo < Pow2(63 - j) && hi <= 1 && u == lo + Pow2(63 - j) * hi && val == u * Pow2(j)
    ensures val >= HALF <==> hi == 1
    ensures 2 * val % BASE == lo * Pow2(j + 1)
  {
    var p, q := Pow2(j), Pow2(63 - j);
    Pow2Sum(j, 63 - j);
    BaseIsPow2();
    assert p * q == HALF by { assert Pow2(64) == 2 * Pow2(63); }
    DoubleTimes(lo, j);
    hide Pow2;
    LessTimes(lo, q, p);
    Distribute(lo, q, p);
    assert u == if hi == 1 then lo + q else lo;
    DoubleModBase(val, lo * p, hi);
  }

  lemma DoubleTimes(lo: nat, j: nat)
    ensures lo * Pow2(j + 1) == 2 * (lo * Pow2(j))
  {}

  lemma DoubleModBase(val: nat, x: nat, hi: nat)
    requires x < HALF && hi <= 1 && val == (if hi == 1 then x + HALF else x)
    ensures (val >= HALF <==> hi == 1) && 2 * val % BASE == 2 * x
  {}

  lemma LessTimes(lo: nat, q: nat, p: nat)
    requires lo < q && p > 0
    ensures lo * p < p * q
  {}

  lemma Distribute(lo: nat, q: nat, p: nat)
    ensures (lo + q) * p == lo * p + p * q
  {}

  /** TAU: byte `8k + r` goes to `8r + k`. */
  function Tau(n: nat): (m: nat)
    requires n < 64
    ensures m < 64 && m == 8 * (n % 8) + n / 8
  {
    (8 * n + n / 8) % 64
  }

  /** The bytes of `s`, eight by eight, are those the transposition puts together. */
  ghost predicate Permuted(t: Tables, s: seq<Byte>, src: Vec) {
    |s| == 64 && forall r :: 0 <= r < 8 ==> s[8 * r..8 * r + 8] == Substituted(t, src, r)
  }

  method SlpSmall(t: Tables, sbuf: array<Byte>, dst: array<Word>, src: array<Word>)
    requires sbuf.Length == 64 && dst.Length == src.Length == 8
    modifies sbuf, dst
    ensures dst[..] == SLP(t, old(src[..]))
  {
    ghost var v := src[..];
    PermuteBytes(t, sbuf, src);
    for i := 0 to 8
      invariant Permuted(t, sbuf[..], v)
      invariant forall m :: 0 <= m < i ==> dst[m] == SLP(t, v)[m]
    {
      assert sbuf[8 * i..8 * i + 8] == sbuf[..][8 * i..8 * i + 8];
      var c := LinearWord(t, WordOf(sbuf[8 * i..8 * i + 8]));
      dst[i] := c;
    }
  }

  method PermuteBytes(t: Tables, sbuf: array<Byte>, src: array<Word>)
    requires sbuf.Length == 64 && src.Length == 8
    modifies sbuf
    ensures src[..] == old(src[..]) && Permuted(t, sbuf[..], src[..])
  {
    ghost var v := src[..];
    for i := 0 to 64
      invariant src[..] == v
      invariant forall r, k :: 0 <= r < 8 && 0 <= k < 8 && 8 * k + r < i ==> sbuf[8 * r + k] == Substituted(t, v, r)[k]
    {
      sbuf[Tau(i)] := t.sbox[ByteAt(src[i / 8], i % 8)];
    }
    forall r | 0 <= r < 8 ensures sbuf[..][8 * r..8 * r + 8] == Substituted(t, v, r) {
      var b := sbuf[..][8 * r..8 * r + 8];
      forall k | 0 <= k < 8 ensures b[k] == Substituted(t, v, r)[k] { assert b[k] == sbuf[8 * r + k]; }
    }
  }

  lemma LinHighStep(a: seq<Word>, val: Word, j: nat, c: Word)
    requires |a| == 64 && j < 64
    ensures XorW(c, LinHigh(a, val, j)) == XorW(if val >= HALF then XorW(c, a[j]) else c, LinHigh(a, 2 * val % BASE, j + 1))
  {
    XorAssociates(c, if val >= HALF then a[j] else 0, LinHigh(a, 2 * val % BASE, j + 1));
    XorZero(c);
  }

  lemma LinHighEnd(a: seq<Word>, val: Word)
    requires |a| == 64
    ensures LinHigh(a, val, 64) == 0
  {}

  method LinearWord(t: Tables, word: Word) returns (c: Word)
    ensures c == Lin(t.a, word, 63)
  {
    BaseIsPow2();
    LinHighIsLin(t.a, word, 0, word);
    XorZero(LinHigh(t.a, word, 0));
    hide Lin, LinHigh, Xor;
    c := 0;
    var val: Word := word;
    for j := 0 to 64
      invariant XorW(c, LinHigh(t.a, val, j)) == LinHigh(t.a, word, 0)
    {
      LinHighStep(t.a, val, j, c);
      if val >= HALF {
        c := XorW(c, t.a[j]);
      }
      val := 2 * val % BASE;
    }
    LinHighEnd(t.a, val);
    XorZero(c);
  }
}
