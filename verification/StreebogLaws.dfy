/** What the definition of the hash amounts to, said without it: bytes and words, the byte permutation, the rows of
    the linear map, the cascade of rounds, the stages over a whole message, and HMAC byte by byte. */
module StreebogLaws {
  import opened Words
  import opened StreebogLps
  import opened StreebogAdd
  import opened StreebogHash
  import opened StreebogContext

  // ---------------------------------------------------------------- bytes and vectors

  /** Reading a block and writing it out again is no change. */
  lemma BytesOfBlock(s: seq<Byte>)
    requires |s| == 64
    ensures VecBytes(BlockOf(s)) == s
  {
    forall i | 0 <= i < 64 ensures VecBytes(BlockOf(s))[i] == s[i] {
      var word := s[8 * (i / 8)..8 * (i / 8) + 8];
      ByteOfBytes(word, i % 8);
    }
  }

  lemma WordOfItsBytes(w: Word, s: seq<Byte>)
    requires |s| == 8 && forall i :: 0 <= i < 8 ==> s[i] == ByteAt(w, i)
    ensures WordOf(s) == w
  {
    BaseIsPow2();
    BytesOfNumber(w, s);
  }

  lemma BlockOfBytes(v: Vec)
    ensures BlockOf(VecBytes(v)) == v
  {
    var s := VecBytes(v);
    forall k | 0 <= k < 8 ensures BlockOf(s)[k] == v[k] {
      var word := s[8 * k..8 * k + 8];
      forall i | 0 <= i < 8 ensures word[i] == ByteAt(v[k], i) {
        assert word[i] == s[8 * k + i];
        assert (8 * k + i) / 8 == k && (8 * k + i) % 8 == i;
      }
      WordOfItsBytes(v[k], word);
    }
  }

  lemma {:induction false} ValueOfWords(s: seq<Byte>, v: seq<Word>)
    requires |s| == 8 * |v| && forall k :: 0 <= k < |v| ==> v[k] == FromBytes(s[8 * k..8 * k + 8])
    ensures Value(v) == FromBytes(s)
    decreases |v|
  {
    if |v| > 0 {
      var rest := s[8..];
      assert s == s[..8] + rest && s[..8] == s[0..8];
      FromBytesConcat(s[..8], rest);
      BaseIsPow2();
      assert v[0] == FromBytes(s[8 * 0..8 * 0 + 8]);
      forall k | 0 <= k < |v| - 1 ensures v[1..][k] == FromBytes(rest[8 * k..8 * k + 8]) {
        assert rest[8 * k..8 * k + 8] == s[8 * (k + 1)..8 * (k + 1) + 8];
      }
      ValueOfWords(rest, v[1..]);
    }
  }

  /** A block stands for the number its bytes write, least significant first. */
  lemma ValueOfBlock(s: seq<Byte>)
    requires |s| == 64
    ensures Value(BlockOf(s)) == FromBytes(s)
  {
    ValueOfWords(s, BlockOf(s));
  }

  // ---------------------------------------------------------------- SLP

  /** Substitution and permutation on bytes: byte `n` is the substituted byte that TAU names. */
  lemma SubstitutedByTau(t: Tables, src: Vec, n: nat)
    requires n < 64
    ensures Substituted(t, src, n / 8)[n % 8] == t.sbox[VecBytes(src)[Tau(n)]]
  {
    var m := Tau(n);
    assert m / 8 == n % 8 && m % 8 == n / 8;
  }

  /** The linear map takes the bit of weight 2^k to row 63 - k; with LinSplits this is the whole map. */
  lemma LinOfBit(a: seq<Word>, k: nat)
    requires |a| == 64 && k < 64
    ensures Lin(a, Pow2(k), 63) == a[63 - k]
  {
    LinSplits(a, 0, 1, k, 63);
    LinOne(a, 1, 63 - k);
    LinZero(a, 63);
    XorZero(a[63 - k]);
  }

  /** The table that belongs to an S-box and a matrix. */
  function TableOf(t: Tables): seq<seq<Word>> {
    seq(8, k requires 0 <= k < 8 => seq(256, b requires 0 <= b < 256 => Lin(t.a, Pow2(8 * k) * t.sbox[b], 63)))
  }

  /** There is exactly one table for each S-box and matrix. */
  lemma OneTable(t: Tables, ax: seq<seq<Word>>)
    ensures TableFor(t, ax) <==> ax == TableOf(t)
  {
    hide Lin, Pow2;
    if TableFor(t, ax) {
      forall k | 0 <= k < 8 ensures ax[k] == TableOf(t)[k] {
        forall b | 0 <= b < 256 ensures ax[k][b] == TableOf(t)[k][b] {}
      }
    }
  }

  // ---------------------------------------------------------------- the cascade

  /** K_(i+1) of the key schedule. */
  function KeyAt(t: Tables, k: Vec, i: nat): Vec
    requires i <= 12
  {
    if i == 0 then k else SLP(t, XorV(KeyAt(t, k, i - 1), t.c[i - 1]))
  }

  /** The message after `i` rounds. */
  function RoundAt(t: Tables, k: Vec, m: Vec, i: nat): Vec
    requires i <= 12
  {
    if i == 0 then m else SLP(t, XorV(RoundAt(t, k, m, i - 1), KeyAt(t, k, i - 1)))
  }

  lemma {:induction false} RoundsFrom(t: Tables, k: Vec, m: Vec, i: nat)
    requires i <= 12
    ensures Rounds(t, KeyAt(t, k, i), RoundAt(t, k, m, i), i) == (KeyAt(t, k, 12), RoundAt(t, k, m, 12))
    decreases 12 - i
  {
    hide SLP, XorV;
    if i < 12 { RoundsFrom(t, k, m, i + 1); }
  }

  /** E(K, m) is twelve rounds under K_1 to K_12 and the addition of K_13. */
  lemma EIsCascade(t: Tables, k: Vec, m: Vec)
    ensures E(t, k, m) == XorV(KeyAt(t, k, 12), RoundAt(t, k, m, 12))
  {
    hide SLP, XorV;
    RoundsFrom(t, k, m, 0);
  }

  lemma XorVSelf(a: Vec)
    ensures XorV(a, a) == ZERO
  {
    forall i | 0 <= i < 8 ensures XorV(a, a)[i] == 0 { XorSelf(a[i]); }
  }

  /** Adding h and m to g_N(h, m) leaves the encryption of m under the key made of h and N. */
  lemma GIsEncryption(t: Tables, n: Vec, h: Vec, m: Vec)
    ensures XorV(XorV(G(t, n, h, m), m), h) == E(t, SLP(t, XorV(h, n)), m)
  {
    hide SLP, XorV, E;
    var e := E(t, SLP(t, XorV(h, n)), m);
    XorVAssociates(XorV(e, h), m, m);
    XorVSelf(m);
    XorVZero(XorV(e, h));
    XorVAssociates(e, h, h);
    XorVSelf(h);
    XorVZero(e);
  }

  // ---------------------------------------------------------------- the stages

  /** The hash after `i` blocks: each is compressed with the number of bits before it. */
  function HashAfter(t: Tables, iv: Vec, msg: seq<Byte>, i: nat): Vec
    requires 64 * i <= |msg|
  {
    if i == 0 then iv
    else G(t, VecOf(512 * (i - 1) % M512), HashAfter(t, iv, msg, i - 1), BlockOf(msg[64 * (i - 1)..64 * i]))
  }

  lemma {:induction false} AbsorbedHash(t: Tables, size: Size, msg: seq<Byte>, i: nat)
    requires 64 * i <= |msg|
    ensures Absorb(t, Initial(size), msg[..64 * i], 512).h == HashAfter(t, Initial(size).h, msg, i)
  {
    hide G, BlockOf, Absorb, VecOf, Step, Initial, HashAfter;
    if i == 0 {
      HashBefore(t, Initial(size).h, msg);
      AbsorbNothing(t, Initial(size), msg[..64 * i], 512);
    } else {
      AbsorbedHash(t, size, msg, i - 1);
      AbsorbedNext(t, size, msg, i - 1, 64 * (i - 1));
    }
  }

  lemma HashBefore(t: Tables, iv: Vec, msg: seq<Byte>)
    ensures HashAfter(t, iv, msg, 0) == iv
  {}

  lemma HashNext(t: Tables, iv: Vec, msg: seq<Byte>, i: nat, pos: nat)
    requires pos == 64 * i && pos + 64 <= |msg|
    ensures HashAfter(t, iv, msg, i + 1) == G(t, VecOf(512 * i % M512), HashAfter(t, iv, msg, i), BlockOf(msg[pos..pos + 64]))
  {
    hide G, BlockOf, VecOf;
  }

  lemma AbsorbedNext(t: Tables, size: Size, msg: seq<Byte>, i: nat, pos: nat)
    requires pos == 64 * i && pos + 64 <= |msg|
    requires Absorb(t, Initial(size), msg[..pos], 512).h == HashAfter(t, Initial(size).h, msg, i)
    ensures Absorb(t, Initial(size), msg[..pos + 64], 512).h == HashAfter(t, Initial(size).h, msg, i + 1)
  {
    hide G, BlockOf, Absorb, VecOf, Step, Initial, HashAfter;
    HashNext(t, Initial(size).h, msg, i, pos);
    AbsorbedCount(t, size, msg, i);
    AbsorbNext(t, Initial(size), msg, pos, 512);
    StepHash(t, Absorb(t, Initial(size), msg[..pos], 512), BlockOf(msg[pos..pos + 64]));
  }

  lemma AbsorbedCount(t: Tables, size: Size, msg: seq<Byte>, i: nat)
    requires 64 * i <= |msg|
    ensures Absorb(t, Initial(size), msg[..64 * i], 512).n == 512 * i % M512
  {
    hide G, BlockOf, Absorb, VecOf;
    AbsorbCounts(t, Initial(size), msg[..64 * i]);
    assert |msg[..64 * i]| / 64 == i;
  }

  lemma StepHash(t: Tables, s: State, m: Vec)
    ensures Step(t, s, m, 512).h == G(t, VecOf(s.n), s.h, m)
  {}

  /** The padding: the bits of the tail, a one bit, and zeros; it determines the tail. */
  lemma PaddedBytes(tail: seq<Byte>)
    requires |tail| < 64
    ensures var p := Padded(tail);
      p[..|tail|] == tail && p[|tail|] == 1 && forall i :: |tail| < i < 64 ==> p[i] == 0
  {}

  lemma PaddedInjective(a: seq<Byte>, b: seq<Byte>)
    requires |a| < 64 && |b| < 64 && Padded(a) == Padded(b)
    ensures a == b
  {
    PaddedBytes(a);
    PaddedBytes(b);
    hide Padded;
    var p := Padded(a);
    assert p[|a|] == 1 && p[|b|] == 1;
  }

  /** The sum of the blocks is the sum of the numbers their bytes write, the padded tail last. */
  lemma BlockSumOfNumbers(data: seq<Byte>)
    ensures |data| < 64 ==> BlockSum(data) == FromBytes(data + [1] + seq(63 - |data|, _ => 0))
    ensures |data| >= 64 ==> BlockSum(data) == FromBytes(data[..64]) + BlockSum(data[64..])
  {
    hide BlockOf, FromBytes, Value;
    if |data| < 64 { ValueOfBlock(Padded(data)); } else { ValueOfBlock(data[..64]); }
  }

  /** The digest of every message, stage by stage: the whole blocks, the padded tail, the length in bits, the sum
      of the blocks; the last 32 bytes for the short size. */
  lemma DigestStages(t: Tables, size: Size, msg: seq<Byte>)
    ensures var q := |msg| / 64;
      var tail := msg[64 * q..];
      var iv := VecBytes(Initial(size).h);
      (forall i :: 0 <= i < 64 ==> iv[i] == if size == Bits256 then 1 else 0)
      && |tail| < 64
      && var h := G(t, VecOf(512 * q % M512), HashAfter(t, Initial(size).h, msg, q),
                    BlockOf(tail + [1] + seq(63 - |tail|, _ => 0)));
         var full := VecBytes(G(t, ZERO, G(t, ZERO, h, VecOf(8 * |msg| % M512)), VecOf(BlockSum(msg) % M512)));
         Digest(t, size, msg) == if size == Bits256 then full[32..] else full
  {
    InitialBytes(size);
    hide G, BlockOf, Absorb, VecOf, HashAfter, VecBytes, Initial, BlockSum;
    var q := |msg| / 64;
    AbsorbEnds(t, Initial(size), msg, 64 * q);
    AbsorbedHash(t, size, msg, q);
    AbsorbedCount(t, size, msg, q);
    CounterIsLength(t, size, msg);
    SigmaIsBlockSum(t, size, msg);
  }

  lemma InitialBytes(size: Size)
    ensures forall i :: 0 <= i < 64 ==> VecBytes(Initial(size).h)[i] == if size == Bits256 then 1 else 0
  {
    OnesValue();
    forall i | 0 <= i < 64 ensures VecBytes(Initial(size).h)[i] == if size == Bits256 then 1 else 0 {
      BytesOfOnes(8, i % 8);
      BytesOfZero(i % 8);
    }
  }

  /** `k` bytes of one. */
  function Ones(k: nat): nat { if k == 0 then 0 else 1 + 256 * Ones(k - 1) }

  lemma {:induction false} BytesOfOnes(k: nat, i: nat)
    requires i < k
    ensures ByteAt(Ones(k), i) == 1
  {
    FirstByteOf(1, Ones(k - 1));
    if i > 0 { BytesOfOnes(k - 1, i - 1); }
  }

  lemma {:induction false} BytesOfZero(i: nat)
    ensures ByteAt(0, i) == 0
  {
    if i > 0 { BytesOfZero(i - 1); }
  }

  lemma OnesValue()
    ensures Ones(8) == 0x0101_0101_0101_0101
  {
    assert Ones(2) == 0x0101;
    assert Ones(4) == 0x0101_0101;
    assert Ones(6) == 0x0101_0101_0101;
  }

  // ---------------------------------------------------------------- HMAC

  /** The pad and the padded key determine each other. */
  lemma PadTwice(key: seq<Byte>, pad: Byte)
    ensures RepeatXor(RepeatXor(key, pad), pad) == key
    ensures forall i :: 0 <= i < |key| ==> ByteXor(RepeatXor(key, pad)[i], key[i]) == pad
  {
    forall i | 0 <= i < |key| ensures RepeatXor(RepeatXor(key, pad), pad)[i] == key[i]
                                   && ByteXor(RepeatXor(key, pad)[i], key[i]) == pad {
      ByteXorTwice(key[i], pad);
      ByteXorTwice(pad, key[i]);
    }
  }

  /** Keys of at most a block are filled with zeros, longer ones are hashed first. */
  lemma BlockKeyBytes(t: Tables, size: Size, key: seq<Byte>)
    ensures |key| <= 64 ==> BlockKey(t, size, key)[..|key|] == key
    ensures |key| <= 64 ==> forall i :: |key| <= i < 64 ==> BlockKey(t, size, key)[i] == 0
    ensures |key| > 64 ==> BlockKey(t, size, key) == BlockKey(t, size, Digest(t, size, key))
  {
    hide Digest;
  }

  /** HMAC of a key of at most a block, from its two pads byte by byte. */
  lemma HmacByBytes(t: Tables, size: Size, key: seq<Byte>, data: seq<Byte>, ipad: seq<Byte>, opad: seq<Byte>)
    requires |key| <= 64 && |ipad| == |opad| == 64
    requires forall i :: 0 <= i < 64 ==> ipad[i] == ByteXor(if i < |key| then key[i] else 0, 0x36)
    requires forall i :: 0 <= i < 64 ==> opad[i] == ByteXor(if i < |key| then key[i] else 0, 0x5c)
    ensures Hmac(t, size, key, data) == Digest(t, size, opad + Digest(t, size, ipad + data))
  {
    hide Digest, ByteXor;
    BlockKeyBytes(t, size, key);
    var k := BlockKey(t, size, key);
    assert forall i :: 0 <= i < |key| ==> k[i] == k[..|key|][i];
    hide BlockKey;
    assert RepeatXor(k, 0x36) == ipad && RepeatXor(k, 0x5c) == opad;
  }

  /** A longer key counts as its digest. */
  lemma HmacOfLongKey(t: Tables, size: Size, key: seq<Byte>, data: seq<Byte>)
    requires |key| > 64
    ensures Hmac(t, size, key, data) == Hmac(t, size, Digest(t, size, key), data)
  {
    hide Digest, RepeatXor;
    BlockKeyBytes(t, size, key);
  }
}
