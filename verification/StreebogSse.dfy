/** The SSE macros of the Streebog header: 128-bit registers, addition modulo 2^512 with its carry loops,
    and SLP by byte extraction. */
module StreebogSse {
  import opened Words
  import opened StreebogLps
  import opened StreebogAdd

  /** A register; `lo` is the lane at the lower address. */
  datatype Xmm = Xmm(lo: Word, hi: Word)

  const ONES: Word := 0xFFFF_FFFF_FFFF_FFFF
  const QUARTER: nat := 0x1_0000_0000

  function V128(x: Xmm): nat { x.lo + BASE * x.hi }

  // ---------------------------------------------------------------- 64-bit lanes

  function AddEpi64(x: Xmm, y: Xmm): Xmm { Xmm((x.lo + y.lo) % BASE, (x.hi + y.hi) % BASE) }

  function Signed(w: Word): int { if w >= HALF then w - BASE else w }

  /** Exclusive or with the sign bit. */
  function FlipSign(w: Word): Word { if w >= HALF then w - HALF else w + HALF }

  function Mask(b: bool): Word { if b then ONES else 0 }

  /** The signed comparison the hardware offers, made unsigned by flipping sign bits. */
  function CmpGtEpi64u(x: Xmm, y: Xmm): (r: Xmm)
    ensures r == Xmm(Mask(x.lo > y.lo), Mask(x.hi > y.hi))
  {
    Xmm(Mask(Signed(FlipSign(x.lo)) > Signed(FlipSign(y.lo))), Mask(Signed(FlipSign(x.hi)) > Signed(FlipSign(y.hi))))
  }

  function SwapHalves(x: Xmm): Xmm { Xmm(x.hi, x.lo) }

  /** Bitwise or of lane masks. */
  function OrMask(a: Word, b: Word): Word { if a == 0 then b else if b == 0 then a else ONES }

  /** A lane's sum and the mask that says whether it overflowed. */
  lemma WordSum(x: Word, y: Word)
    ensures var s := (x + y) % BASE; x + y == s + BASE * (Mask(y > s) % 2)
  {
    if x + y >= BASE { assert (x + y) % BASE == x + y - BASE; }
  }

  lemma AddHalves(d: Xmm, c: Xmm)
    ensures var s := AddEpi64(d, c); var o := CmpGtEpi64u(c, s);
      && V128(d) + V128(c) == V128(s) + BASE * (o.lo % 2) + M128 * (o.hi % 2)
      && (o.lo == 0 || o.lo == ONES) && (o.hi == 0 || o.hi == ONES)
      && (c.lo == 0 ==> o.lo == 0) && (c.hi == 0 ==> o.hi == 0)
  {
    WordSum(d.lo, c.lo);
    WordSum(d.hi, c.hi);
  }

  predicate IsZero(x: Xmm) { x.lo == 0 && x.hi == 0 }

  /** `rounds` counts the turns after which the loop goes on: one for each lane at most. */
  method AddCarry64(d0: Xmm, c0: Xmm) returns (d: Xmm, c: Xmm, ghost rounds: nat)
    ensures V128(d) + M128 * V128(c) == V128(d0) + V128(c0) && V128(c) <= 1
    ensures rounds <= 2
  {
    hide AddEpi64, CmpGtEpi64u;
    d, c := d0, c0;
    var ret := Xmm(0, 0);
    rounds := 0;
    while true
      invariant rounds <= 2 && (ret.lo == 0 || ret.lo == ONES)
      invariant V128(d) + V128(c) + (if ret.lo == 0 then 0 else M128) == V128(d0) + V128(c0)
      invariant (rounds >= 1 ==> c.lo == 0 && c.hi <= 1) && (rounds >= 2 ==> c.hi == 0)
      decreases 2 - rounds
    {
      AddHalves(d, c);
      d := AddEpi64(d, c);
      c := CmpGtEpi64u(c, d);
      if IsZero(c) { break; }
      c := SwapHalves(c);
      ret := Xmm(OrMask(ret.lo, c.lo), OrMask(ret.hi, c.hi));
      c := Xmm(0, c.hi % 2);
      rounds := rounds + 1;
    }
    c := Xmm(ret.lo % 2, 0);
  }

  method AddCarryLast64(d0: Xmm, c: Xmm) returns (d: Xmm)
    ensures V128(d) == (V128(d0) + V128(c)) % M128
  {
    hide AddEpi64, CmpGtEpi64u, Mask, V128;
    AddHalves(d0, c);
    d := AddEpi64(d0, c);
    var o := CmpGtEpi64u(c, d);
    var carry := Xmm(0, SwapHalves(o).hi % 2);
    AddHalves(d, carry);
    HighCarry(carry.hi);
    ghost var o' := CmpGtEpi64u(carry, AddEpi64(d, carry));
    assert V128(d0) + V128(c) == V128(AddEpi64(d, carry)) + M128 * (o.hi % 2 + o'.hi % 2);
    d := AddEpi64(d, carry);
    V128Bound(d);
    ModM128(V128(d), V128(d0) + V128(c), o.hi % 2 + o'.hi % 2);
  }

  lemma HighCarry(h: Word)
    ensures V128(Xmm(0, h)) == BASE * h
  {}

  lemma V128Bound(x: Xmm)
    ensures V128(x) < M128
  {}

  lemma ModM128(x: nat, total: nat, q: nat)
    requires x < M128 && total == x + M128 * q
    ensures x == total % M128
  {}

  // ---------------------------------------------------------------- 32-bit lanes

  type Lane = n: nat | n < QUARTER

  datatype Lanes = Lanes(a: Lane, b: Lane, c: Lane, d: Lane)

  function Split(x: Xmm): Lanes {
    Lanes(x.lo % QUARTER, x.lo / QUARTER, x.hi % QUARTER, x.hi / QUARTER)
  }

  function Join(l: Lanes): Xmm {
    Xmm(l.a + QUARTER * l.b, l.c + QUARTER * l.d)
  }

  function LanesValue(l: Lanes): nat {
    l.a + QUARTER * (l.b + QUARTER * (l.c + QUARTER * l.d))
  }

  lemma LanesOfXmm(x: Xmm)
    ensures LanesValue(Split(x)) == V128(x) && Join(Split(x)) == x
  {}

  lemma LanesJoin(l: Lanes)
    ensures V128(Join(l)) == LanesValue(l)
  {}

  function AddEpi32(x: Lanes, y: Lanes): Lanes {
    Lanes((x.a + y.a) % QUARTER, (x.b + y.b) % QUARTER, (x.c + y.c) % QUARTER, (x.d + y.d) % QUARTER)
  }

  function Signed32(w: Lane): int { if w >= QUARTER / 2 then w - QUARTER else w }

  function FlipSign32(w: Lane): Lane { if w >= QUARTER / 2 then w - QUARTER / 2 else w + QUARTER / 2 }

  function Mask32(b: bool): Lane { if b then QUARTER - 1 else 0 }

  function CmpGt32u(x: Lane, y: Lane): (r: Lane)
    ensures r == Mask32(x > y)
  {
    Mask32(Signed32(FlipSign32(x)) > Signed32(FlipSign32(y)))
  }

  function CmpGtEpi32u(x: Lanes, y: Lanes): (r: Lanes) {
    Lanes(CmpGt32u(x.a, y.a), CmpGt32u(x.b, y.b), CmpGt32u(x.c, y.c), CmpGt32u(x.d, y.d))
  }

  /** Every lane moves up by one, the top one to the bottom. */
  function RotateUp(x: Lanes): Lanes { Lanes(x.d, x.a, x.b, x.c) }

  function OrMask32(a: Lane, b: Lane): Lane { if a == 0 then b else if b == 0 then a else QUARTER - 1 }

  /** A lane's sum and the mask that says whether it overflowed. */
  lemma LaneSum(x: Lane, y: Lane) returns (bit: nat)
    ensures var s := (x + y) % QUARTER; var o := CmpGt32u(y, s);
      x + y == s + QUARTER * bit && o % 2 == bit && bit <= 1 && IsMask(o) && (o == 0 <==> bit == 0) && (y == 0 ==> bit == 0)
  {
    bit := if x + y >= QUARTER then 1 else 0;
    if x + y >= QUARTER { assert (x + y) % QUARTER == x + y - QUARTER; }
  }

  lemma LanesCombine(x: Lanes, y: Lanes, s: Lanes, p: nat, q: nat, r: nat, t: nat)
    requires p <= 1 && q <= 1 && r <= 1 && t <= 1
    requires x.a + y.a == s.a + QUARTER * p && x.b + y.b == s.b + QUARTER * q
    requires x.c + y.c == s.c + QUARTER * r && x.d + y.d == s.d + QUARTER * t
    ensures LanesValue(x) + LanesValue(y) == LanesValue(s) + LanesValue(Lanes(0, p, q, r)) + M128 * t
  {}

  predicate IsMask(l: Lane) { l == 0 || l == QUARTER - 1 }

  lemma ZeroLanes()
    ensures LanesValue(Lanes(0, 0, 0, 0)) == 0
  {}

  lemma LanesBound(l: Lanes)
    ensures LanesValue(l) < M128
  {}

  /** Lanes below the `k`-th are zero and the others hold at most a carry. */
  predicate CarryFrom(c: Lanes, k: nat) {
    && c.a == 0 && c.b <= 1 && c.c <= 1 && c.d <= 1
    && (k >= 2 ==> c.b == 0) && (k >= 3 ==> c.c == 0) && (k >= 4 ==> c.d == 0)
  }

  /** One turn of a carry loop: the lane sums `s`, the next carries `n`, the bit `out` leaving the register. */
  lemma CarryTurn(d: Lanes, c: Lanes, k: nat) returns (n: Lanes, out: nat)
    requires k >= 1 ==> CarryFrom(c, k)
    ensures var o := CmpGtEpi32u(c, AddEpi32(d, c));
      && n == Lanes(0, o.a % 2, o.b % 2, o.c % 2) && out == o.d % 2 && out <= 1 && IsMask(o.d)
      && LanesValue(d) + LanesValue(c) == LanesValue(AddEpi32(d, c)) + LanesValue(n) + M128 * out
      && CarryFrom(n, k + 1) && (k >= 4 ==> n == Lanes(0, 0, 0, 0) && o == n)
      && (o == Lanes(0, 0, 0, 0) ==> n == o)
  {
    hide CmpGt32u, LanesValue, IsMask;
    var p := LaneSum(d.a, c.a);
    var q := LaneSum(d.b, c.b);
    var r := LaneSum(d.c, c.c);
    out := LaneSum(d.d, c.d);
    LanesCombine(d, c, AddEpi32(d, c), p, q, r, out);
    n := Lanes(0, p, q, r);
  }

  lemma OrMaskBits(a: Lane, b: Lane)
    requires IsMask(a) && IsMask(b) && a % 2 + b % 2 <= 1
    ensures IsMask(OrMask32(a, b)) && OrMask32(a, b) % 2 == a % 2 + b % 2
  {}

  /** `rounds` counts the turns after which the loop goes on: one for each lane at most. */
  method AddCarry32(d0: Xmm, c0: Xmm) returns (d': Xmm, c': Xmm, ghost rounds: nat)
    ensures V128(d') + M128 * V128(c') == V128(d0) + V128(c0) && V128(c') <= 1
    ensures rounds <= 4
  {
    LanesOfXmm(d0);
    LanesOfXmm(c0);
    V128Bound(d0);
    V128Bound(c0);
    ZeroLanes();
    hide AddEpi32, CmpGtEpi32u, LanesValue, OrMask32, Split, Join;
    var d, c := Split(d0), Split(c0);
    var ret := Lanes(0, 0, 0, 0);
    rounds := 0;
    while true
      invariant IsMask(ret.a) && rounds <= 4 && (rounds >= 1 ==> CarryFrom(c, rounds))
      invariant LanesValue(d) + LanesValue(c) + M128 * (ret.a % 2) == V128(d0) + V128(c0)
      decreases 4 - rounds
    {
      ghost var n, out := CarryTurn(d, c, rounds);
      d := AddEpi32(d, c);
      c := CmpGtEpi32u(c, d);
      if c == Lanes(0, 0, 0, 0) { break; }
      OrMaskBits(ret.a, c.d);
      c := RotateUp(c);
      ret := Lanes(OrMask32(ret.a, c.a), OrMask32(ret.b, c.b), OrMask32(ret.c, c.c), OrMask32(ret.d, c.d));
      c := Lanes(0, c.b % 2, c.c % 2, c.d % 2);
      rounds := rounds + 1;
    }
    LanesJoin(d);
    d' := Join(d);
    c' := Xmm(ret.a % 2, 0);
  }

  /** The carry out of the top lane is not waited for: one turn less. */
  method AddCarryLast32(d0: Xmm, c0: Xmm) returns (d': Xmm, ghost rounds: nat)
    ensures V128(d') == (V128(d0) + V128(c0)) % M128
    ensures rounds <= 3
  {
    LanesOfXmm(d0);
    LanesOfXmm(c0);
    ZeroLanes();
    hide AddEpi32, CmpGtEpi32u, LanesValue, V128, Split, Join;
    var d, c := Split(d0), Split(c0);
    rounds := 0;
    ghost var lost: nat := 0;
    while true
      invariant rounds <= 3 && (rounds >= 1 ==> CarryFrom(c, rounds))
      invariant LanesValue(d) + LanesValue(c) + M128 * lost == V128(d0) + V128(c0)
      decreases 3 - rounds
    {
      ghost var n, out := CarryTurn(d, c, rounds);
      d := AddEpi32(d, c);
      c := CmpGtEpi32u(c, d);
      lost := lost + out;
      if c.a % 2 == 0 && c.b % 2 == 0 && c.c % 2 == 0 { break; }
      c := RotateUp(c);
      c := Lanes(0, c.b % 2, c.c % 2, c.d % 2);
      rounds := rounds + 1;
    }
    LanesJoin(d);
    d' := Join(d);
    LanesBound(d);
    ModM128(V128(d'), V128(d0) + V128(c0), lost);
  }

  // ---------------------------------------------------------------- four registers

  datatype Reg512 = Reg512(x0: Xmm, x1: Xmm, x2: Xmm, x3: Xmm)

  function V512(r: Reg512): nat {
    V128(r.x0) + M128 * V128(r.x1) + M256 * V128(r.x2) + M384 * V128(r.x3)
  }

  function Load(v: Vec): Reg512 {
    Reg512(Xmm(v[0], v[1]), Xmm(v[2], v[3]), Xmm(v[4], v[5]), Xmm(v[6], v[7]))
  }

  function Store(r: Reg512): Vec {
    [r.x0.lo, r.x0.hi, r.x1.lo, r.x1.hi, r.x2.lo, r.x2.hi, r.x3.lo, r.x3.hi]
  }

  lemma LoadStore(v: Vec, r: Reg512)
    ensures Store(Load(v)) == v && Load(Store(r)) == r
  {}

  lemma LoadValue(v: Vec)
    ensures V512(Load(v)) == Value(v)
  {
    ValueFrom(v, 0);
    ValueFrom(v, 1);
    ValueFrom(v, 2);
    ValueFrom(v, 3);
    ValueFrom(v, 4);
    ValueFrom(v, 5);
    ValueFrom(v, 6);
    ValueFrom(v, 7);
    assert v[0..] == v && Value(v[8..]) == 0;
    hide Value;
  }

  lemma ValueFrom(v: Vec, i: nat)
    requires i < 8
    ensures Value(v[i..]) == v[i] + BASE * Value(v[i + 1..])
  {
    assert v[i..][1..] == v[i + 1..];
  }

  /** Which of the two forms of the carry macros the build selects. */
  method AddCarry(sse42: bool, d0: Xmm, c0: Xmm) returns (d: Xmm, c: Xmm)
    ensures V128(d) + M128 * V128(c) == V128(d0) + V128(c0) && V128(c) <= 1
  {
    ghost var rounds;
    if sse42 { d, c, rounds := AddCarry64(d0, c0); } else { d, c, rounds := AddCarry32(d0, c0); }
  }

  method AddCarryLast(sse42: bool, d0: Xmm, c: Xmm) returns (d: Xmm)
    ensures V128(d) == (V128(d0) + V128(c)) % M128
  {
    ghost var rounds;
    if sse42 { d := AddCarryLast64(d0, c); } else { d, rounds := AddCarryLast32(d0, c); }
  }

  /** `sum` is `total`, less a multiple of 2^512. */
  ghost predicate SameMod512(sum: nat, total: nat) {
    exists q: nat :: sum + M512 * q == total
  }

  lemma SameMod512Trans(a: nat, b: nat, x: nat, c: nat)
    requires SameMod512(a, b + x) && SameMod512(b, c)
    ensures SameMod512(a, c + x)
  {
    var p: nat :| a + M512 * p == b + x;
    var q: nat :| b + M512 * q == c;
    assert a + M512 * (p + q) == c + x;
  }

  lemma SameMod512IsMod(r: Reg512, total: nat)
    requires SameMod512(V512(r), total)
    ensures V512(r) == total % M512
  {
    V128Bound(r.x0);
    V128Bound(r.x1);
    V128Bound(r.x2);
    V128Bound(r.x3);
  }

  lemma IsZeroValue(x: Xmm)
    ensures IsZero(x) <==> V128(x) == 0
  {}

  /** The register that takes the last carry drops what does not fit. */
  lemma LastCarry(d: nat, d': nat, c: nat, low: nat)
    requires d' == (d + c) % M128 && d < M128 && c < M128
    ensures SameMod512(low + M384 * d', low + M384 * (d + c))
  {
    var q := if d + c < M128 then 0 else 1;
    assert d + c == d' + M128 * q;
    assert low + M384 * d' + M512 * q == low + M384 * (d + c);
  }

  // The blocks of GOST3411_2012_SSE_ADDMOD512, one for each register of the second operand.

  method AddAt3(sse42: bool, r: Reg512, x: Xmm) returns (s: Reg512)
    ensures SameMod512(V512(s), V512(r) + M384 * V128(x))
  {
    var d3 := AddCarryLast(sse42, r.x3, x);
    s := r.(x3 := d3);
    V128Bound(r.x3);
    V128Bound(x);
    hide V128;
    LastCarry(V128(r.x3), V128(d3), V128(x), V128(r.x0) + M128 * V128(r.x1) + M256 * V128(r.x2));
  }

  method AddAt2(sse42: bool, r: Reg512, x: Xmm) returns (s: Reg512)
    ensures SameMod512(V512(s), V512(r) + M256 * V128(x))
  {
    hide V128, SameMod512;
    var d2, carry := AddCarry(sse42, r.x2, x);
    s := AddAt3(sse42, r.(x2 := d2), carry);
  }

  method AddAt1(sse42: bool, r: Reg512, x: Xmm) returns (s: Reg512)
    ensures SameMod512(V512(s), V512(r) + M128 * V128(x))
  {
    var d1, carry := AddCarry(sse42, r.x1, x);
    s := r.(x1 := d1);
    IsZeroValue(carry);
    hide V128;
    if IsZero(carry) {
      assert V512(s) + M512 * 0 == V512(r) + M128 * V128(x);
      return;
    }
    s := AddAt2(sse42, s, carry);
  }

  method AddAt0(sse42: bool, r: Reg512, x: Xmm) returns (s: Reg512)
    ensures SameMod512(V512(s), V512(r) + V128(x))
  {
    var d0, carry := AddCarry(sse42, r.x0, x);
    s := r.(x0 := d0);
    IsZeroValue(carry);
    hide V128;
    if IsZero(carry) {
      assert V512(s) + M512 * 0 == V512(r) + V128(x);
      return;
    }
    s := AddAt1(sse42, s, carry);
  }

  /** GOST3411_2012_SSE_ADDMOD512. */
  method AddMod512Sse(sse42: bool, d: Reg512, x: Reg512) returns (r: Reg512)
    ensures V512(r) == (V512(d) + V512(x)) % M512
  {
    hide SameMod512, V128;
    var r0 := AddAt0(sse42, d, x.x0);
    var r1 := AddAt1(sse42, r0, x.x1);
    SameMod512Trans(V512(r1), V512(r0), M128 * V128(x.x1), V512(d) + V128(x.x0));
    var r2 := AddAt2(sse42, r1, x.x2);
    SameMod512Trans(V512(r2), V512(r1), M256 * V128(x.x2), V512(d) + V128(x.x0) + M128 * V128(x.x1));
    r := AddAt3(sse42, r2, x.x3);
    SameMod512Trans(V512(r), V512(r2), M384 * V128(x.x3), V512(d) + V128(x.x0) + M128 * V128(x.x1) + M256 * V128(x.x2));
    SameMod512IsMod(r, V512(d) + V512(x));
  }

  /** GOST3411_2012_SSE_ADDMOD512_DIGIT; after the first register it does not stop early. */
  method AddMod512DigitSse(sse42: bool, d: Reg512, digit: Word) returns (r: Reg512)
    ensures V512(r) == (V512(d) + digit) % M512
  {
    var carry := Xmm(digit, 0);
    assert V128(carry) == digit;
    var d0, c0 := AddCarry(sse42, d.x0, carry);
    r := d.(x0 := d0);
    IsZeroValue(c0);
    hide V128, SameMod512;
    if IsZero(c0) {
      NoWrap(r);
      return;
    }
    var d1, c1 := AddCarry(sse42, d.x1, c0);
    r := AddAt2(sse42, r.(x1 := d1), c1);
    SameMod512IsMod(r, V512(d) + digit);
  }

  lemma NoWrap(r: Reg512)
    ensures V512(r) % M512 == V512(r)
  {
    assert V512(r) + M512 * 0 == V512(r);
    SameMod512IsMod(r, V512(r));
  }

  // ---------------------------------------------------------------- SLP

  /** `_mm_extract_epi8`. */
  function Extract(x: Xmm, i: nat): Byte
    requires i < 16
  {
    if i < 8 then ByteAt(x.lo, i) else ByteAt(x.hi, i - 8)
  }

  /** One output word of GOST3411_2012_SSE_SLP: eight look-ups, two in each register. */
  method SlpWordSse(ghost t: Tables, ax: seq<seq<Word>>, x: Reg512, i: nat) returns (r: Word)
    requires TableFor(t, ax) && i < 8
    ensures r == SLP(t, Store(x))[i]
  {
    ghost var v := Store(x);
    RowUnrolled(t, ax, v, i);
    TableFormIsSLP(t, ax, v, i);
    hide SLP, Row, XorW, ByteAt;
    r := ax[0][Extract(x.x0, i)];
    r := XorW(r, ax[1][Extract(x.x0, i + 8)]);
    r := XorW(r, ax[2][Extract(x.x1, i)]);
    r := XorW(r, ax[3][Extract(x.x1, i + 8)]);
    r := XorW(r, ax[4][Extract(x.x2, i)]);
    r := XorW(r, ax[5][Extract(x.x2, i + 8)]);
    r := XorW(r, ax[6][Extract(x.x3, i)]);
    r := XorW(r, ax[7][Extract(x.x3, i + 8)]);
  }

  lemma RowUnrolled(t: Tables, ax: seq<seq<Word>>, v: Vec, i: nat)
    requires TableFor(t, ax) && i < 8
    ensures Row(t, ax, v, i, 1) == ax[0][ByteAt(v[0], i)]
    ensures forall k :: 1 <= k < 8 ==> Row(t, ax, v, i, k + 1) == XorW(Row(t, ax, v, i, k), ax[k][ByteAt(v[k], i)])
  {
    XorZero(ax[0][ByteAt(v[0], i)]);
  }

  method SlpSse(ghost t: Tables, ax: seq<seq<Word>>, x: Reg512) returns (d: Reg512)
    requires TableFor(t, ax)
    ensures Store(d) == SLP(t, Store(x))
  {
    hide SLP, TableFor;
    var r0 := SlpWordSse(t, ax, x, 0);
    var r1 := SlpWordSse(t, ax, x, 1);
    var t0 := SlpWordSse(t, ax, x, 2);
    var t1 := SlpWordSse(t, ax, x, 3);
    var y0 := SlpWordSse(t, ax, x, 4);
    var y1 := SlpWordSse(t, ax, x, 5);
    var v0 := SlpWordSse(t, ax, x, 6);
    var v1 := SlpWordSse(t, ax, x, 7);
    d := Reg512(Xmm(r0, r1), Xmm(t0, t1), Xmm(y0, y1), Xmm(v0, v1));
  }
}
