/** GOST R 34.11-2012 as section 9 of RFC 6986 defines it, over any tables, with vectors stored least
    significant word first. */
module StreebogHash {
  import opened Words
  import opened StreebogLps
  import opened StreebogAdd

  const ZERO: Vec := [0, 0, 0, 0, 0, 0, 0, 0]

  function XorV(a: Vec, b: Vec): Vec {
    seq(8, i requires 0 <= i < 8 => XorW(a[i], b[i]))
  }

  lemma XorVCommutes(a: Vec, b: Vec)
    ensures XorV(a, b) == XorV(b, a)
  {
    forall i | 0 <= i < 8 ensures XorV(a, b)[i] == XorV(b, a)[i] { XorCommutes(a[i], b[i]); }
  }

  lemma XorVAssociates(a: Vec, b: Vec, c: Vec)
    ensures XorV(XorV(a, b), c) == XorV(a, XorV(b, c))
  {
    forall i | 0 <= i < 8 ensures XorV(XorV(a, b), c)[i] == XorV(a, XorV(b, c))[i] { XorAssociates(a[i], b[i], c[i]); }
  }

  lemma XorVZero(a: Vec)
    ensures XorV(a, ZERO) == a
  {
    forall i | 0 <= i < 8 ensures XorV(a, ZERO)[i] == a[i] { XorZero(a[i]); }
  }

  /** Twelve rounds from round `i`: the last key and the encrypted block. */
  function Rounds(t: Tables, k: Vec, m: Vec, i: nat): (Vec, Vec)
    requires i <= 12
    decreases 12 - i
  {
    if i == 12 then (k, m) else Rounds(t, SLP(t, XorV(k, t.c[i])), SLP(t, XorV(m, k)), i + 1)
  }

  function E(t: Tables, k: Vec, m: Vec): Vec {
    var (key, block) := Rounds(t, k, m, 0);
    XorV(key, block)
  }

  /** The compression function g_N(h, m). */
  function G(t: Tables, n: Vec, h: Vec, m: Vec): Vec {
    XorV(XorV(E(t, SLP(t, XorV(h, n)), m), h), m)
  }

  // ---------------------------------------------------------------- numbers and vectors

  function Limbs(n: nat, k: nat): (s: seq<Word>)
    ensures |s| == k
  {
    if k == 0 then [] else [n % BASE] + Limbs(n / BASE, k - 1)
  }

  lemma LowLimb(d: Word, r: nat)
    ensures (d + BASE * r) % BASE == d && (d + BASE * r) / BASE == r
  {}

  lemma {:induction false} LimbsOfValue(s: seq<Word>)
    ensures Limbs(Value(s), |s|) == s
  {
    if |s| > 0 {
      LimbsOfValue(s[1..]);
      LowLimb(s[0], Value(s[1..]));
      var n := Value(s);
      assert n == s[0] + BASE * Value(s[1..]);
      hide Value;
      assert Limbs(n, |s|) == [s[0]] + s[1..];
    }
  }

  function VecOf(n: nat): Vec { Limbs(n, 8) }

  /** A block of the message. */
  function BlockOf(s: seq<Byte>): Vec
    requires |s| == 64
  {
    seq(8, i requires 0 <= i < 8 => WordOf(s[8 * i..8 * i + 8]))
  }

  // ---------------------------------------------------------------- stages

  /** The chaining value, the number of message bits so far and the sum of the blocks. */
  datatype State = State(h: Vec, n: nat, sigma: nat)

  function Step(t: Tables, s: State, m: Vec, bits: nat): State {
    State(G(t, VecOf(s.n), s.h, m), (s.n + bits) % M512, (s.sigma + Value(m)) % M512)
  }

  /** Stage 2: whole blocks, as long as there are any, counted as `bits` each. */
  function Absorb(t: Tables, s: State, data: seq<Byte>, bits: nat): State
    decreases |data|
  {
    if |data| < 64 then s else Absorb(t, Step(t, s, BlockOf(data[..64]), bits), data[64..], bits)
  }

  function Tail(data: seq<Byte>): seq<Byte> {
    data[|data| - |data| % 64..]
  }

  function Padded(tail: seq<Byte>): (s: seq<Byte>)
    requires |tail| < 64
    ensures |s| == 64
  {
    tail + [1] + seq(63 - |tail|, _ => 0)
  }

  datatype Size = Bits256 | Bits512

  function Initial(size: Size): State {
    var ones: Word := 0x0101_0101_0101_0101;
    State(if size == Bits256 then [ones, ones, ones, ones, ones, ones, ones, ones] else ZERO, 0, 0)
  }

  /** The state after the padded last block. */
  function Final(t: Tables, size: Size, msg: seq<Byte>): State {
    var tail := Tail(msg);
    Step(t, Absorb(t, Initial(size), msg, 512), BlockOf(Padded(tail)), 8 * |tail|)
  }

  function VecBytes(v: Vec): (s: seq<Byte>)
    ensures |s| == 64
  {
    seq(64, i requires 0 <= i < 64 => ByteAt(v[i / 8], i % 8))
  }

  function Truncated(size: Size, s: seq<Byte>): seq<Byte>
    requires |s| == 64
  {
    if size == Bits256 then s[32..] else s
  }

  /** Stage 3. */
  function Digest(t: Tables, size: Size, msg: seq<Byte>): (d: seq<Byte>)
    ensures |d| == if size == Bits256 then 32 else 64
  {
    var s := Final(t, size, msg);
    var h := G(t, ZERO, s.h, VecOf(s.n));
    Truncated(size, VecBytes(G(t, ZERO, h, VecOf(s.sigma))))
  }

  // ---------------------------------------------------------------- what the counters end at

  lemma AbsorbOne(t: Tables, s: State, block: seq<Byte>, bits: nat)
    requires |block| == 64
    ensures Absorb(t, s, block, bits) == Step(t, s, BlockOf(block), bits)
  {
    assert block[..64] == block;
    assert Absorb(t, Step(t, s, BlockOf(block), bits), block[64..], bits) == Step(t, s, BlockOf(block), bits);
  }

  /** Absorbing whole blocks first and the rest after is absorbing everything. */
  lemma {:induction false} AbsorbConcat(t: Tables, s: State, a: seq<Byte>, b: seq<Byte>, bits: nat)
    requires |a| % 64 == 0
    ensures Absorb(t, s, a + b, bits) == Absorb(t, Absorb(t, s, a, bits), b, bits)
    decreases |a|
  {
    if |a| == 0 {
      assert a + b == b;
    } else {
      assert (a + b)[..64] == a[..64] && (a + b)[64..] == a[64..] + b;
      AbsorbConcat(t, Step(t, s, BlockOf(a[..64]), bits), a[64..], b, bits);
    }
  }

  lemma ModAdd(a: nat, b: nat)
    ensures (a % M512 + b) % M512 == (a + b) % M512
  {}

  lemma {:induction false} AbsorbCounts(t: Tables, s: State, data: seq<Byte>)
    requires s.n < M512
    ensures Absorb(t, s, data, 512).n == (s.n + 512 * (|data| / 64)) % M512
    decreases |data|
  {
    hide G, BlockOf, Limbs;
    if |data| >= 64 {
      var rest := 512 * (|data[64..]| / 64);
      assert 512 * (|data| / 64) == 512 + rest;
      AbsorbCounts(t, Step(t, s, BlockOf(data[..64]), 512), data[64..]);
      ModAdd(s.n + 512, rest);
    }
  }

  /** The counter ends at the length of the message in bits. */
  lemma CounterIsLength(t: Tables, size: Size, msg: seq<Byte>)
    ensures Final(t, size, msg).n == (8 * |msg|) % M512
  {
    hide G, BlockOf, Absorb, Padded;
    AbsorbCounts(t, Initial(size), msg);
    ModAdd(512 * (|msg| / 64), 8 * |Tail(msg)|);
  }

  /** The sum of the blocks of the padded message, without reduction. */
  function BlockSum(data: seq<Byte>): nat
    decreases |data|
  {
    if |data| < 64 then Value(BlockOf(Padded(data))) else Value(BlockOf(data[..64])) + BlockSum(data[64..])
  }

  lemma {:induction false} SigmaFrom(t: Tables, s: State, data: seq<Byte>)
    requires s.sigma < M512
    ensures (Absorb(t, s, data, 512).sigma + Value(BlockOf(Padded(Tail(data))))) % M512 == (s.sigma + BlockSum(data)) % M512
    decreases |data|
  {
    hide G, Padded, BlockOf, Tail, Value;
    if |data| < 64 {
      ModAdd(s.sigma, BlockSum(data));
      TailShort(data);
    } else {
      TailDrop(data);
      var m := BlockOf(data[..64]);
      SigmaFrom(t, Step(t, s, m, 512), data[64..]);
      ModAdd(s.sigma + Value(m), BlockSum(data[64..]));
    }
  }

  lemma TailShort(data: seq<Byte>)
    requires |data| < 64
    ensures Tail(data) == data
  {}

  lemma TailDrop(data: seq<Byte>)
    requires |data| >= 64
    ensures Tail(data) == Tail(data[64..])
  {
    assert (|data| - 64) % 64 == |data| % 64;
  }

  /** Sigma ends at the sum of all blocks of the padded message. */
  lemma SigmaIsBlockSum(t: Tables, size: Size, msg: seq<Byte>)
    ensures Final(t, size, msg).sigma == BlockSum(msg) % M512
  {
    hide G, Padded, BlockOf, Absorb, BlockSum;
    SigmaFrom(t, Initial(size), msg);
  }

  // ---------------------------------------------------------------- HMAC

  function RepeatXor(key: seq<Byte>, pad: Byte): seq<Byte> {
    seq(|key|, i requires 0 <= i < |key| => ByteXor(key[i], pad))
  }

  /** The key brought to block length, as RFC 2104 prescribes. */
  function BlockKey(t: Tables, size: Size, key: seq<Byte>): (k: seq<Byte>)
    ensures |k| == 64
  {
    var k := if |key| > 64 then Digest(t, size, key) else key;
    k + seq(64 - |k|, _ => 0)
  }

  function Hmac(t: Tables, size: Size, key: seq<Byte>, data: seq<Byte>): seq<Byte> {
    var k := BlockKey(t, size, key);
    Digest(t, size, RepeatXor(k, 0x5c) + Digest(t, size, RepeatXor(k, 0x36) + data))
  }
}
