/** Key derivation from a password: section 5.2 of RFC 8018 over any pseudorandom function. */
module Pbkdf2s {
  import opened Words

  /** HMAC, from a key and a message. */
  type Prf = (seq<Byte>, seq<Byte>) -> seq<Byte>

  ghost predicate Sized(prf: Prf, hLen: nat) {
    hLen > 0 && forall key: seq<Byte>, s: seq<Byte> :: |prf(key, s)| == hLen
  }

  // ---------------------------------------------------------------- the specification

  /** U_j for the block whose first message is `s`. */
  ghost function U(prf: Prf, password: seq<Byte>, s: seq<Byte>, j: nat): seq<Byte>
    requires j >= 1
  {
    if j == 1 then prf(password, s) else prf(password, U(prf, password, s, j - 1))
  }

  function XorBytes(a: seq<Byte>, b: seq<Byte>): (r: seq<Byte>)
    requires |a| == |b|
    ensures |r| == |a|
  {
    seq(|a|, i requires 0 <= i < |a| => ByteXor(a[i], b[i]))
  }

  /** U_1 xor ... xor U_c; a count below one gives U_1. */
  ghost function Chain(prf: Prf, hLen: nat, password: seq<Byte>, s: seq<Byte>, c: int): (t: seq<Byte>)
    requires Sized(prf, hLen)
    ensures |t| == hLen
    decreases c
  {
    if c <= 1 then U(prf, password, s, 1)
    else USized(prf, hLen, password, s, c); XorBytes(Chain(prf, hLen, password, s, c - 1), U(prf, password, s, c))
  }

  /** U_1 is the function of the first message, and every U_j the function of the one before it. */
  lemma USteps(prf: Prf, password: seq<Byte>, s: seq<Byte>, j: nat)
    requires j >= 1
    ensures U(prf, password, s, 1) == prf(password, s)
    ensures U(prf, password, s, j + 1) == prf(password, U(prf, password, s, j))
  {}

  /** Byte `m` of U_1 to U_c, combined one after the other. */
  ghost function Folded(prf: Prf, hLen: nat, password: seq<Byte>, s: seq<Byte>, c: nat, m: nat): Byte
    requires Sized(prf, hLen) && c >= 1 && m < hLen
  {
    USized(prf, hLen, password, s, c);
    if c == 1 then U(prf, password, s, 1)[m]
    else ByteXor(Folded(prf, hLen, password, s, c - 1, m), U(prf, password, s, c)[m])
  }

  /** One more turn combines every byte of the block with the byte of the next U. */
  lemma ChainByte(prf: Prf, hLen: nat, password: seq<Byte>, s: seq<Byte>, c: nat, m: nat)
    requires Sized(prf, hLen) && c >= 2 && m < hLen
    ensures |U(prf, password, s, c)| == hLen
    ensures Chain(prf, hLen, password, s, c)[m] ==
      ByteXor(Chain(prf, hLen, password, s, c - 1)[m], U(prf, password, s, c)[m])
  {
    hide ByteXor;
    USized(prf, hLen, password, s, c);
  }

  lemma {:induction false} ChainIsFold(prf: Prf, hLen: nat, password: seq<Byte>, s: seq<Byte>, c: int, m: nat)
    requires Sized(prf, hLen) && m < hLen
    ensures Chain(prf, hLen, password, s, c)[m] == Folded(prf, hLen, password, s, if c < 1 then 1 else c, m)
    decreases c
  {
    hide ByteXor;
    if c > 1 {
      ChainIsFold(prf, hLen, password, s, c - 1, m);
      ChainByte(prf, hLen, password, s, c, m);
    }
  }

  lemma USized(prf: Prf, hLen: nat, password: seq<Byte>, s: seq<Byte>, j: nat)
    requires Sized(prf, hLen) && j >= 1
    ensures |U(prf, password, s, j)| == hLen
  {}

  /** T_1 || ... || T_n. */
  ghost function Blocks(prf: Prf, hLen: nat, password: seq<Byte>, salt: seq<Byte>, c: int, n: nat): (t: seq<Byte>)
    requires Sized(prf, hLen)
    ensures |t| == n * hLen
  {
    if n == 0 then []
    else Blocks(prf, hLen, password, salt, c, n - 1) + Chain(prf, hLen, password, salt + BigEndian32(n), c)
  }

  /** How many blocks a length takes: the length over `hLen`, rounded up. */
  function BlockCount(dkLen: nat, hLen: nat): (n: nat)
    requires hLen > 0
    ensures dkLen <= n * hLen < dkLen + hLen
  {
    RoundedUp(dkLen + hLen - 1, hLen);
    (dkLen + hLen - 1) / hLen
  }

  lemma RoundedUp(m: nat, h: nat)
    requires h > 0
    ensures m - h < m / h * h <= m
  {
    assert m == m / h * h + m % h;
  }

  ghost function Derived(prf: Prf, hLen: nat, password: seq<Byte>, salt: seq<Byte>, c: int, dkLen: nat): (dk: seq<Byte>)
    requires Sized(prf, hLen)
    ensures |dk| == dkLen
  {
    Blocks(prf, hLen, password, salt, c, BlockCount(dkLen, hLen))[..dkLen]
  }

  lemma {:induction false} BlocksPrefix(prf: Prf, hLen: nat, password: seq<Byte>, salt: seq<Byte>, c: int, n: nat, m: nat)
    requires Sized(prf, hLen) && n <= m
    ensures Blocks(prf, hLen, password, salt, c, n) <= Blocks(prf, hLen, password, salt, c, m)
    decreases m - n
  {
    if n < m { BlocksPrefix(prf, hLen, password, salt, c, n, m - 1); }
  }

  /** A shorter derivation is a prefix of a longer one from the same inputs. */
  lemma DerivedPrefix(prf: Prf, hLen: nat, password: seq<Byte>, salt: seq<Byte>, c: int, short: nat, long: nat)
    requires Sized(prf, hLen) && short <= long
    ensures Derived(prf, hLen, password, salt, c, short) <= Derived(prf, hLen, password, salt, c, long)
  {
    var n, m := BlockCount(short, hLen), BlockCount(long, hLen);
    if n > m { TimesMonotone(m + 1, n, hLen); TimesNext(m, hLen); }
    BlocksPrefix(prf, hLen, password, salt, c, n, m);
    hide Blocks;
  }

  lemma TimesMonotone(a: nat, b: nat, h: nat)
    requires a <= b
    ensures a * h <= b * h
  {}

  lemma TimesNext(a: nat, h: nat)
    ensures (a + 1) * h == a * h + h
  {}

  /** Byte `m` of block `i`, counted from zero, combines bytes `m` of U_1 to U_c for the message that ends in
      i + 1. */
  lemma DerivedByte(prf: Prf, hLen: nat, password: seq<Byte>, salt: seq<Byte>, c: int, dkLen: nat, i: nat, m: nat)
    requires Sized(prf, hLen) && m < hLen && i * hLen + m < dkLen
    ensures Derived(prf, hLen, password, salt, c, dkLen)[i * hLen + m] ==
      Folded(prf, hLen, password, salt + BigEndian32(i + 1), if c < 1 then 1 else c, m)
  {
    ChainIsFold(prf, hLen, password, salt + BigEndian32(i + 1), c, m);
    var n := BlockCount(dkLen, hLen);
    if n < i + 1 { TimesMonotone(n, i, hLen); }
    BlocksPrefix(prf, hLen, password, salt, c, i + 1, n);
    TimesNext(i, hLen);
    hide Chain, BigEndian32, Folded;
    assert Blocks(prf, hLen, password, salt, c, i + 1)[i * hLen + m] == Chain(prf, hLen, password, salt + BigEndian32(i + 1), c)[m];
    hide Blocks;
  }

  // ---------------------------------------------------------------- the computation

  class Pbkdf2 {
    const prf: Prf
    const hLen: nat
    const passwordBytes: seq<Byte>
    const salt: seq<Byte>
    const c: int
    const dkLen: nat
    var isComputed: bool
    var computed: seq<Byte>

    ghost predicate Valid()
      reads this
    {
      Sized(prf, hLen) && (isComputed ==> computed == Derived(prf, hLen, passwordBytes, salt, c, dkLen))
    }

    constructor (prf: Prf, hLen: nat, password: seq<Byte>, salt: seq<Byte>, c: int, dkLen: nat)
      requires Sized(prf, hLen)
      ensures Valid() && !isComputed
      ensures this.prf == prf && this.hLen == hLen && passwordBytes == password && this.salt == salt
      ensures this.c == c && this.dkLen == dkLen
    {
      this.prf, this.hLen, passwordBytes, this.salt, this.c, this.dkLen := prf, hLen, password, salt, c, dkLen;
      isComputed := false;
      computed := [];
    }

    /** Block `i`. */
    method F(i: nat) returns (block: array<Byte>)
      requires Sized(prf, hLen)
      ensures fresh(block) && block[..] == Chain(prf, hLen, passwordBytes, salt + BigEndian32(i), c)
    {
      hide ByteXor;
      var hs := salt;
      hs := hs + [(i / 0x100_0000) % 256];
      hs := hs + [(i / 0x1_0000) % 256];
      hs := hs + [(i / 0x100) % 256];
      hs := hs + [i % 256];
      assert hs == salt + BigEndian32(i);
      hide BigEndian32;
      var u1 := prf(passwordBytes, hs);
      block := new Byte[hLen](m requires 0 <= m < |u1| => u1[m]);
      assert block[..] == u1;
      var k := 1;
      while k < c
        invariant 1 <= k && (k <= c || k == 1)
        invariant u1 == U(prf, passwordBytes, hs, k) && block[..] == Chain(prf, hLen, passwordBytes, hs, k)
      {
        var u2 := prf(passwordBytes, u1);
        XorInto(block, u2);
        u1 := u2;
        k := k + 1;
      }
      ChainOfFew(prf, hLen, passwordBytes, hs, c);
    }

    /** The inner loop of `F`. */
    static method XorInto(block: array<Byte>, u2: seq<Byte>)
      requires block.Length == |u2|
      modifies block
      ensures block[..] == XorBytes(old(block[..]), u2)
      ensures forall m :: 0 <= m < block.Length ==> block[m] == ByteXor(old(block[m]), u2[m])
    {
      hide ByteXor;
      for j := 0 to block.Length
        invariant forall m :: 0 <= m < j ==> block[m] == ByteXor(old(block[m]), u2[m])
        invariant forall m :: j <= m < block.Length ==> block[m] == old(block[m])
      {
        block[j] := ByteXor(block[j], u2[j]);
      }
    }

    /** `compute`: derived once, then kept. */
    method Compute() returns (dk: seq<Byte>)
      requires Valid()
      modifies this
      ensures Valid() && isComputed && dk == computed == Derived(prf, hLen, passwordBytes, salt, c, dkLen)
    {
      hide Chain, U;
      if !isComputed {
        var nBlocks := BlockCount(dkLen, hLen);
        var result := new Byte[nBlocks * hLen](_ => 0);
        for i := 0 to nBlocks
          invariant i * hLen <= result.Length == nBlocks * hLen && fresh(result)
          invariant result[..i * hLen] == Blocks(prf, hLen, passwordBytes, salt, c, i)
          modifies result
        {
          TimesMonotone(i + 1, nBlocks, hLen);
          TimesNext(i, hLen);
          var f := F(i + 1);
          CopyBlock(result, i * hLen, f);
        }
        computed := result[..dkLen];
        isComputed := true;
      }
      dk := computed;
    }

    /** The `memcpy` of one block. */
    static method CopyBlock(result: array<Byte>, at: nat, f: array<Byte>)
      requires at + f.Length <= result.Length && result != f
      modifies result
      ensures result[..at + f.Length] == old(result[..at]) + f[..]
    {
      for j := 0 to f.Length
        invariant forall m :: 0 <= m < at ==> result[m] == old(result[m])
        invariant forall m :: 0 <= m < j ==> result[at + m] == f[m]
      {
        result[at + j] := f[j];
      }
      assert result[at..at + f.Length] == f[..];
    }
  }

  lemma ChainOfFew(prf: Prf, hLen: nat, password: seq<Byte>, s: seq<Byte>, c: int)
    requires Sized(prf, hLen)
    ensures c <= 1 ==> Chain(prf, hLen, password, s, c) == Chain(prf, hLen, password, s, 1)
  {}
}
