/** Counter mode (section 6.5 of NIST SP 800-38A), one byte at a time over any block function. */
module CtrTransformers {
  import opened Words

  const BLOCK_SIZE: nat := 16

  /** The block function, from a key and a block to a block. */
  type BlockFunction = (seq<Byte>, seq<Byte>) -> seq<Byte>

  ghost predicate KeepsBlocks(cipher: BlockFunction) {
    forall key: seq<Byte>, block: seq<Byte> :: |block| == BLOCK_SIZE ==> |cipher(key, block)| == BLOCK_SIZE
  }

  // ---------------------------------------------------------------- the specification

  function XoredAt(source: seq<Byte>, offset: nat, mask: seq<Byte>): (s: seq<Byte>)
    requires offset + |mask| <= |source|
    ensures |s| == |source|
  {
    seq(|source|, i requires 0 <= i < |source| =>
      if offset <= i < offset + |mask| then ByteXor(source[i], mask[i - offset]) else source[i])
  }

  /** The input of the cipher for a counter. */
  function CounterBlock(nonce: seq<Byte>, counter: nat): (b: seq<Byte>)
    requires |nonce| >= BLOCK_SIZE
    ensures |b| == BLOCK_SIZE
  {
    XoredAt(nonce[..BLOCK_SIZE], BLOCK_SIZE - 4, BigEndian32(counter))
  }

  /** Byte `i` of the keystream. */
  ghost function StreamByte(cipher: BlockFunction, key: seq<Byte>, nonce: seq<Byte>, i: nat): Byte
    requires KeepsBlocks(cipher) && |nonce| >= BLOCK_SIZE
  {
    cipher(key, CounterBlock(nonce, i / BLOCK_SIZE))[i % BLOCK_SIZE]
  }

  ghost function Transformed(cipher: BlockFunction, key: seq<Byte>, nonce: seq<Byte>, data: seq<Byte>): (r: seq<Byte>)
    requires KeepsBlocks(cipher) && |nonce| >= BLOCK_SIZE
    ensures |r| == |data|
  {
    seq(|data|, i requires 0 <= i < |data| => ByteXor(data[i], StreamByte(cipher, key, nonce, i)))
  }

  lemma TransformedTwice(cipher: BlockFunction, key: seq<Byte>, nonce: seq<Byte>, data: seq<Byte>)
    requires KeepsBlocks(cipher) && |nonce| >= BLOCK_SIZE
    ensures Transformed(cipher, key, nonce, Transformed(cipher, key, nonce, data)) == data
  {
    var once := Transformed(cipher, key, nonce, data);
    var twice := Transformed(cipher, key, nonce, once);
    forall i | 0 <= i < |data| ensures twice[i] == data[i] {
      ByteXorTwice(data[i], StreamByte(cipher, key, nonce, i));
    }
  }

  /** The input of the cipher, byte by byte: the nonce, its last four bytes combined with the counter, high byte
      first. */
  lemma CounterBlockBytes(nonce: seq<Byte>, counter: nat)
    requires |nonce| >= BLOCK_SIZE
    ensures var b := CounterBlock(nonce, counter);
      && b[..12] == nonce[..12]
      && b[12] == ByteXor(nonce[12], (counter / 0x100_0000) % 256)
      && b[13] == ByteXor(nonce[13], (counter / 0x1_0000) % 256)
      && b[14] == ByteXor(nonce[14], (counter / 0x100) % 256)
      && b[15] == ByteXor(nonce[15], counter % 256)
  {
    hide ByteXor;
  }

  /** Byte `i` of the keystream is byte i mod 16 of the enciphered block that combines the nonce with i / 16. */
  lemma StreamByteOf(cipher: BlockFunction, key: seq<Byte>, nonce: seq<Byte>, i: nat, block: seq<Byte>)
    requires KeepsBlocks(cipher) && |nonce| >= 16 && |block| == 16 && block[..12] == nonce[..12]
    requires block[12] == ByteXor(nonce[12], (i / 16 / 0x100_0000) % 256)
    requires block[13] == ByteXor(nonce[13], (i / 16 / 0x1_0000) % 256)
    requires block[14] == ByteXor(nonce[14], (i / 16 / 0x100) % 256)
    requires block[15] == ByteXor(nonce[15], i / 16 % 256)
    ensures StreamByte(cipher, key, nonce, i) == cipher(key, block)[i % 16]
  {
    CounterBlockBytes(nonce, i / 16);
    var b := CounterBlock(nonce, i / 16);
    hide ByteXor, CounterBlock, BigEndian32;
    assert b == b[..12] + [b[12], b[13], b[14], b[15]];
    assert block == block[..12] + [block[12], block[13], block[14], block[15]];
  }

  lemma CounterBytesInjective(a: nat, b: nat)
    ensures BigEndian32(a) == BigEndian32(b) <==> a % 0x1_0000_0000 == b % 0x1_0000_0000
  {
    FromBigEndian32(a);
    FromBigEndian32(b);
    if BigEndian32(a) == BigEndian32(b) {
      assert forall i :: 0 <= i < 4 ==> BigEndian32(a)[i] == BigEndian32(b)[i];
    }
    if a % 0x1_0000_0000 == b % 0x1_0000_0000 {
      CounterBytesOfLow(a / 0x1_0000_0000, a % 0x1_0000_0000);
      CounterBytesOfLow(b / 0x1_0000_0000, b % 0x1_0000_0000);
      hide BigEndian32;
    }
  }

  lemma FromBigEndian32(n: nat)
    ensures var b: seq<nat> := BigEndian32(n);
      n % 0x1_0000_0000 == b[0] * 0x100_0000 + b[1] * 0x1_0000 + b[2] * 0x100 + b[3]
  {
    CounterBytesOfLow(n / 0x1_0000_0000, n % 0x1_0000_0000);
    var r := n % 0x1_0000_0000;
    Split(r);
  }

  lemma Split(r: nat)
    requires r < 0x1_0000_0000
    ensures r == (r / 0x100_0000) % 256 * 0x100_0000 + (r / 0x1_0000) % 256 * 0x1_0000 + (r / 0x100) % 256 * 0x100 + r % 256
  {
    var a, b, c := r / 0x100, r / 0x1_0000, r / 0x100_0000;
    assert r == 256 * a + r % 256;
    assert a == 256 * b + a % 256 by { assert a / 256 == b; }
    assert b == 256 * c + b % 256 by { assert b / 256 == c; }
  }

  lemma CounterBytesOfLow(q: nat, r: nat)
    ensures BigEndian32(0x1_0000_0000 * q + r) == BigEndian32(r)
  {
    var n := 0x1_0000_0000 * q + r;
    Shifted(q, r);
    Low8(q, r / 0x100_0000);
    Low8(0x100 * q, r / 0x1_0000);
    Low8(0x1_0000 * q, r / 0x100);
    Low8(0x100_0000 * q, r);
  }

  lemma Shifted(q: nat, r: nat)
    ensures var n := 0x1_0000_0000 * q + r;
      && n / 0x100_0000 == 0x100 * q + r / 0x100_0000
      && n / 0x1_0000 == 0x1_0000 * q + r / 0x1_0000
      && n / 0x100 == 0x100_0000 * q + r / 0x100
  {}

  lemma Low8(q: nat, r: nat)
    ensures (0x100 * q + r) % 256 == r % 256
  {}

  /** Distinct counters below 2^32 give distinct inputs to the cipher; from there on they repeat. */
  lemma CounterBlocksDistinct(nonce: seq<Byte>, a: nat, b: nat)
    requires |nonce| >= BLOCK_SIZE
    ensures CounterBlock(nonce, a) == CounterBlock(nonce, b) <==> a % 0x1_0000_0000 == b % 0x1_0000_0000
  {
    CounterBytesInjective(a, b);
    var ca, cb, ba, bb := BigEndian32(a), BigEndian32(b), CounterBlock(nonce, a), CounterBlock(nonce, b);
    hide BigEndian32;
    if ba == bb {
      forall i | 0 <= i < 4 ensures ca[i] == cb[i] {
        assert ba[12 + i] == ByteXor(nonce[12 + i], ca[i]) && bb[12 + i] == ByteXor(nonce[12 + i], cb[i]);
        ByteXorTwice(ca[i], nonce[12 + i]);
        ByteXorTwice(cb[i], nonce[12 + i]);
      }
    }
  }

  // ---------------------------------------------------------------- the transformer

  /** `applyXor`; false stands for its exception. */
  method ApplyXor(source: array<Byte>, offset: nat, mask: array<Byte>) returns (ok: bool)
    requires mask.Length > 0 && mask != source
    modifies source
    ensures ok <==> offset + mask.Length <= source.Length
    ensures source[..] == if ok then XoredAt(old(source[..]), offset, mask[..]) else old(source[..])
  {
    hide ByteXor;
    var end := offset + mask.Length;
    if end > source.Length { return false; }
    var sourceIndex, maskIndex := offset, 0;
    ghost var was, goal := source[..], XoredAt(source[..], offset, mask[..]);
    XorOne(source, sourceIndex, mask, maskIndex);
    sourceIndex, maskIndex := sourceIndex + 1, maskIndex + 1;
    while sourceIndex < end
      invariant sourceIndex == offset + maskIndex <= end
      invariant source[..] == goal[..sourceIndex] + was[sourceIndex..]
    {
      XorOne(source, sourceIndex, mask, maskIndex);
      assert source[sourceIndex] == goal[sourceIndex];
      sourceIndex, maskIndex := sourceIndex + 1, maskIndex + 1;
    }
    ok := true;
  }

  /** The body of the loop. */
  method XorOne(source: array<Byte>, sourceIndex: nat, mask: array<Byte>, maskIndex: nat)
    requires sourceIndex < source.Length && maskIndex < mask.Length
    modifies source
    ensures source[..] == old(source[..])[sourceIndex := ByteXor(old(source[sourceIndex]), old(mask[maskIndex]))]
  {
    source[sourceIndex] := ByteXor(source[sourceIndex], mask[maskIndex]);
  }

  class CtrTransformer {
    const encrypt: BlockFunction
    const key: seq<Byte>
    var counter: nat
    var index: nat
    const source: array<Byte>
    const nonce: seq<Byte>
    const counterBytes: array<Byte>
    /** How many bytes of the keystream have been handed out. */
    ghost var used: nat

    ghost predicate Valid()
      reads this, source
    {
      && Sized() && counter > 0 && index <= BLOCK_SIZE && used == BLOCK_SIZE * (counter - 1) + index
      && source[..] == encrypt(key, CounterBlock(nonce, counter - 1))
    }

    /** An empty `iv` asks for a random nonce. */
    constructor (encrypt: BlockFunction, key: seq<Byte>, iv: seq<Byte>, random: seq<Byte>)
      requires KeepsBlocks(encrypt) && |random| == BLOCK_SIZE && (|iv| == 0 || |iv| >= BLOCK_SIZE)
      ensures Valid() && used == 0 && fresh(source) && fresh(counterBytes)
      ensures this.encrypt == encrypt && this.key == key && nonce == if |iv| == 0 then random else iv
    {
      this.encrypt := encrypt;
      this.key := key;
      nonce := if |iv| == 0 then random else iv;
      counter := 0;
      index := 0;
      used := 0;
      source := new Byte[BLOCK_SIZE](_ => 0);
      counterBytes := new Byte[4](_ => 0);
      new;
      PrepareBlock();
    }

    ghost predicate Sized()
      reads {}
    {
      && KeepsBlocks(encrypt) && |nonce| >= BLOCK_SIZE && source.Length == BLOCK_SIZE && counterBytes.Length == 4
      && source != counterBytes
    }

    /** The first half of `prepareBlock`: the nonce combined with the counter. */
    method LoadCounter()
      requires Sized()
      modifies source, counterBytes
      ensures source[..] == CounterBlock(nonce, counter)
    {
      hide ByteXor, KeepsBlocks;
      for i := 0 to BLOCK_SIZE
        modifies source
        invariant forall m :: 0 <= m < i ==> source[m] == nonce[m]
      {
        source[i] := nonce[i];
      }
      counterBytes[0] := (counter / 0x100_0000) % 256;
      counterBytes[1] := (counter / 0x1_0000) % 256;
      counterBytes[2] := (counter / 0x100) % 256;
      counterBytes[3] := counter % 256;
      assert source[..] == nonce[..BLOCK_SIZE];
      assert counterBytes[..] == BigEndian32(counter);
      var ok := ApplyXor(source, BLOCK_SIZE - 4, counterBytes);
    }

    method PrepareBlock()
      requires Sized() && used == BLOCK_SIZE * counter
      modifies `counter, `index, source, counterBytes
      ensures Valid() && counter == old(counter) + 1 && index == 0
    {
      hide CounterBlock;
      LoadCounter();
      var block := encrypt(key, source[..]);
      assert block == encrypt(key, CounterBlock(nonce, counter));
      for i := 0 to BLOCK_SIZE
        modifies source
        invariant forall m :: 0 <= m < i ==> source[m] == block[m]
      {
        source[i] := block[i];
      }
      assert source[..] == block;
      counter := counter + 1;
      index := 0;
    }

    method NextByte() returns (b: Byte)
      requires Valid()
      modifies this, source, counterBytes
      ensures Valid() && used == old(used) + 1 && b == StreamByte(encrypt, key, nonce, old(used))
    {
      if index >= BLOCK_SIZE { PrepareBlock(); }
      StreamPosition(counter - 1, index);
      b := source[index];
      index := index + 1;
      used := used + 1;
    }

    /** Every call combines its byte with the next byte of the keystream. */
    method TransformByte(byte: Byte) returns (b: Byte)
      requires Valid()
      modifies this, source, counterBytes
      ensures Valid() && used == old(used) + 1
      ensures b == ByteXor(byte, StreamByte(encrypt, key, nonce, old(used)))
    {
      var k := NextByte();
      b := ByteXor(byte, k);
    }

    method GetIV() returns (iv: seq<Byte>)
      ensures iv == nonce
    {
      iv := nonce;
    }
  }

  lemma StreamPosition(block: nat, index: nat)
    requires index < BLOCK_SIZE
    ensures (BLOCK_SIZE * block + index) / BLOCK_SIZE == block && (BLOCK_SIZE * block + index) % BLOCK_SIZE == index
  {}
}
