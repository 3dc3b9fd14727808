/** The streaming context: `init`, `update`, `final` and the block transformations of both builds, each
    proved to hold the state that StreebogHash defines for the bytes seen so far. */
module StreebogContext {
  import opened Words
  import opened StreebogLps
  import opened StreebogAdd
  import opened StreebogSse
  import opened StreebogHash

  /** Which preprocessor branch is compiled. */
  datatype Build = SmallTables | BigTables | Sse(sse42: bool)

  class Context {
    const build: Build
    const t: Tables
    const ax: seq<seq<Word>>
    var hashSize: Size
    var bufferUsage: nat
    const hash: array<Word>
    const counter: array<Word>
    const sigma: array<Word>
    const buffer: array<Byte>
    const kbuf: array<Word>
    const tbuf: array<Word>
    const sbuf: array<Word>
    const sbytes: array<Byte>

    ghost predicate Shaped()
    {
      && TableFor(t, ax)
      && hash.Length == counter.Length == sigma.Length == kbuf.Length == tbuf.Length == sbuf.Length == 8
      && buffer.Length == sbytes.Length == 64 && buffer != sbytes
      && hash != counter && hash != sigma && hash != kbuf && hash != tbuf && hash != sbuf
      && counter != sigma && counter != kbuf && counter != tbuf && counter != sbuf
      && sigma != kbuf && sigma != tbuf && sigma != sbuf
      && kbuf != tbuf && kbuf != sbuf && tbuf != sbuf
    }

    constructor (build: Build, t: Tables, ax: seq<seq<Word>>)
      requires TableFor(t, ax)
      ensures Shaped() && this.build == build && this.t == t
      ensures fresh(hash) && fresh(counter) && fresh(sigma) && fresh(buffer)
      ensures fresh(kbuf) && fresh(tbuf) && fresh(sbuf) && fresh(sbytes)
    {
      this.build, this.t, this.ax := build, t, ax;
      hashSize, bufferUsage := Bits512, 0;
      hash, counter, sigma := new Word[8], new Word[8], new Word[8];
      kbuf, tbuf, sbuf := new Word[8], new Word[8], new Word[8];
      buffer, sbytes := new Byte[64], new Byte[64];
    }

    ghost function Current(): State
      reads hash, counter, sigma
      requires Shaped()
    {
      State(hash[..], Value(counter[..]), Value(sigma[..]))
    }

    // -------------------------------------------------------------- scalar block transformation

    /** XSLP; `dst` may be `a`. */
    method Xslp(dst: array<Word>, a: array<Word>, b: Vec)
      requires Shaped() && dst.Length == a.Length == 8 && dst != sbuf && a != sbuf
      modifies dst, sbuf, sbytes
      ensures dst[..] == SLP(t, XorV(old(a[..]), b))
    {
      hide SLP, TableFor;
      ghost var x := XorV(a[..], b);
      if build == SmallTables {
        XorInto(dst, a, b);
        SlpSmall(t, sbytes, dst, dst);
      } else {
        XorInto(sbuf, a, b);
        SlpTable(t, ax, dst, sbuf);
      }
    }

    static method XorInto(dst: array<Word>, a: array<Word>, b: Vec)
      requires dst.Length == a.Length == 8
      modifies dst
      ensures dst[..] == XorV(old(a[..]), b)
    {
      for i := 0 to 8
        invariant forall m :: i <= m < 8 ==> a[m] == old(a[m])
        invariant forall m :: 0 <= m < i ==> dst[m] == XorW(old(a[m]), b[m])
      {
        dst[i] := XorW(a[i], b[i]);
      }
    }

    /** E() and the final exclusive or, from the first key in `kbuf`; `prev` is the hash as it was. */
    method Encrypt(block: Vec)
      requires Shaped()
      modifies hash, kbuf, tbuf, sbuf, sbytes
      ensures hash[..] == XorV(XorV(E(t, old(kbuf[..]), block), old(hash[..])), block)
    {
      hide SLP, XorV, TableFor;
      ghost var k0, h0 := kbuf[..], hash[..];
      XorVCommutes(k0, block);
      Xslp(tbuf, kbuf, block);
      Xslp(kbuf, kbuf, t.c[0]);
      for i := 1 to 12
        invariant hash[..] == h0
        invariant Rounds(t, kbuf[..], tbuf[..], i) == Rounds(t, k0, block, 0)
      {
        Xslp(tbuf, tbuf, kbuf[..]);
        Xslp(kbuf, kbuf, t.c[i]);
      }
      FinalXor(h0, block, tbuf[..], kbuf[..]);
      XorInto(hash, hash, XorV(XorV(block, tbuf[..]), kbuf[..]));
    }

    method TransformScalar(blocks: seq<Byte>, bits: Word, aligned: bool)
      requires Shaped() && |blocks| % 64 == 0
      modifies hash, counter, sigma, buffer, kbuf, tbuf, sbuf, sbytes
      ensures Current() == Absorb(t, old(Current()), blocks, bits)
    {
      hide SLP, XorV, TableFor, Absorb, Step, Value, BlockOf;
      ghost var s0 := Current();
      AbsorbNothing(t, s0, blocks[..0], bits);
      var pos := 0;
      while pos < |blocks|
        invariant 0 <= pos <= |blocks| && pos % 64 == 0
        invariant Current() == Absorb(t, s0, blocks[..pos], bits)
      {
        AbsorbNext(t, s0, blocks, pos, bits);
        if !aligned {
          forall i | 0 <= i < 64 { buffer[i] := blocks[pos + i]; }
        }
        BlockScalar(BlockOf(blocks[pos..pos + 64]), bits);
        pos := pos + 64;
      }
      assert blocks[..pos] == blocks;
    }

    /** One turn of the loop of the scalar `gost3411_2012_transform_n`. */
    method BlockScalar(block: Vec, bits: Word)
      requires Shaped()
      modifies hash, counter, sigma, kbuf, tbuf, sbuf, sbytes
      ensures Current() == Step(t, old(Current()), block, bits)
    {
      hide SLP, XorV, TableFor, Value, E;
      LimbsOfValue(counter[..]);
      var block64 := new Word[8](i requires 0 <= i < 8 => block[i]);
      assert block64[..] == block;
      Xslp(kbuf, hash, counter[..]);
      AddMod512Digit(counter, bits);
      AddMod512(sigma, block64);
      Encrypt(block);
    }

    method Transform1Scalar(block: Vec)
      requires Shaped()
      modifies hash, kbuf, tbuf, sbuf, sbytes
      ensures hash[..] == G(t, ZERO, old(hash[..]), block)
    {
      hide SLP, XorV, TableFor, E;
      XorVZero(hash[..]);
      if build == SmallTables {
        SlpSmall(t, sbytes, kbuf, hash);
      } else {
        SlpTable(t, ax, kbuf, hash);
      }
      Encrypt(block);
    }

    // -------------------------------------------------------------- SSE block transformation

    method BlockSse(sse42: bool, h0: Reg512, cnt0: Reg512, sig0: Reg512, block: Vec, bits: Word)
        returns (h: Reg512, cnt: Reg512, sig: Reg512)
      requires Shaped()
      ensures RegState(h, cnt, sig) == Step(t, RegState(h0, cnt0, sig0), block, bits)
    {
      hide SLP, XorV, TableFor, V512, E;
      RegNumber(cnt0);
      RegNumber(Load(block));
      LoadStore(block, h0);
      XorRegs(h0, cnt0);
      var k := SlpSse(t, ax, XorReg(h0, cnt0));
      cnt := AddMod512DigitSse(sse42, cnt0, bits);
      var x := Load(block);
      sig := AddMod512Sse(sse42, sig0, x);
      XorRegs(h0, x);
      h := EncryptSse(XorReg(h0, x), k, x, Store(h0));
    }

    /** E() with the message already in `h`. */
    method EncryptSse(h1: Reg512, k1: Reg512, x1: Reg512, ghost h0: Vec) returns (h: Reg512)
      requires Shaped() && Store(h1) == XorV(h0, Store(x1))
      ensures Store(h) == XorV(XorV(E(t, Store(k1), Store(x1)), h0), Store(x1))
    {
      hide SLP, XorV, TableFor;
      var k, x := k1, x1;
      for i := 0 to 12
        invariant Rounds(t, Store(k), Store(x), i) == Rounds(t, Store(k1), Store(x1), 0)
      {
        XorRegs(x, k);
        LoadStore(t.c[i], k);
        XorRegs(Load(t.c[i]), k);
        XorVCommutes(t.c[i], Store(k));
        x := SlpSse(t, ax, XorReg(x, k));
        k := SlpSse(t, ax, XorReg(Load(t.c[i]), k));
      }
      XorRegs(h1, x);
      XorRegs(XorReg(h1, x), k);
      FinalXorSse(h0, Store(x1), Store(x), Store(k));
      h := XorReg(XorReg(h1, x), k);
    }

    method TransformSse(sse42: bool, blocks: seq<Byte>, bits: Word)
      requires Shaped() && |blocks| % 64 == 0
      modifies hash, counter, sigma
      ensures Current() == Absorb(t, old(Current()), blocks, bits)
    {
      hide SLP, XorV, TableFor, Absorb, Step, BlockOf, RegState;
      ghost var s0 := Current();
      AbsorbNothing(t, s0, blocks[..0], bits);
      LoadState(hash[..], counter[..], sigma[..]);
      var sig, cnt, h := Load(sigma[..]), Load(counter[..]), Load(hash[..]);
      var pos := 0;
      while pos < |blocks|
        invariant 0 <= pos <= |blocks| && pos % 64 == 0
        invariant RegState(h, cnt, sig) == Absorb(t, s0, blocks[..pos], bits)
      {
        AbsorbNext(t, s0, blocks, pos, bits);
        h, cnt, sig := BlockSse(sse42, h, cnt, sig, BlockOf(blocks[pos..pos + 64]), bits);
        pos := pos + 64;
      }
      assert blocks[..pos] == blocks;
      StoreInto(hash, Store(h));
      StoreInto(sigma, Store(sig));
      StoreInto(counter, Store(cnt));
      LoadStore(hash[..], h);
      LoadStore(counter[..], cnt);
      LoadStore(sigma[..], sig);
      LoadState(hash[..], counter[..], sigma[..]);
    }

    static method StoreInto(a: array<Word>, v: Vec)
      requires a.Length == 8
      modifies a
      ensures a[..] == v
    {
      forall i | 0 <= i < 8 { a[i] := v[i]; }
    }

    method Transform1Sse(block: Vec)
      requires Shaped()
      modifies hash
      ensures hash[..] == G(t, ZERO, old(hash[..]), block)
    {
      hide SLP, XorV, TableFor, E;
      ghost var h0 := hash[..];
      XorVZero(h0);
      var h, x := Load(hash[..]), Load(block);
      LoadStore(hash[..], h);
      LoadStore(block, x);
      var k := SlpSse(t, ax, h);
      XorRegs(h, x);
      h := EncryptSse(XorReg(h, x), k, x, h0);
      StoreInto(hash, Store(h));
    }

    // -------------------------------------------------------------- either build

    /** `gost3411_2012_transform_n`; on unaligned data the scalar build uses `buffer` as scratch. */
    method TransformN(blocks: seq<Byte>, bits: Word, aligned: bool)
      requires Shaped() && |blocks| % 64 == 0
      modifies hash, counter, sigma, buffer, kbuf, tbuf, sbuf, sbytes
      ensures Current() == Absorb(t, old(Current()), blocks, bits)
    {
      if build.Sse? {
        TransformSse(build.sse42, blocks, bits);
      } else {
        TransformScalar(blocks, bits, aligned);
      }
    }

    method Transform1(block: Vec)
      requires Shaped()
      modifies hash, kbuf, tbuf, sbuf, sbytes
      ensures hash[..] == G(t, ZERO, old(hash[..]), block)
    {
      if build.Sse? { Transform1Sse(block); } else { Transform1Scalar(block); }
    }

    // -------------------------------------------------------------- the stream

    /** The context holds message `msg`: its whole blocks absorbed, the rest buffered. */
    ghost predicate Holds(size: Size, msg: seq<Byte>)
      reads this, hash, counter, sigma, buffer
      ensures Holds(size, msg) ==> Shaped() && hashSize == size && bufferUsage < 64
    {
      && Shaped()
      && hashSize == size
      && bufferUsage == |msg| % 64
      && buffer[..bufferUsage] == Tail(msg)
      && Current() == Absorb(t, Initial(size), msg, 512)
    }

    /** `gost3411_2012_init`. */
    method Init(bits: nat)
      requires Shaped()
      modifies this, hash, counter, sigma, buffer, kbuf, tbuf, sbuf, sbytes
      ensures Holds(SizeOf(bits), []) && (hashSize == Bits256 <==> bits == 256 || bits == 32)
    {
      hide TableFor, Absorb, Value, Initial, Tail;
      ghost var size := SizeOf(bits);
      Wipe();
      ZeroValue();
      InitialHash(size);
      AbsorbEnds(t, Initial(size), [], 0);
      AbsorbNothing(t, Initial(size), [], 512);
      if bits == 256 || bits == 32 {
        hashSize := Bits256;
        forall i | 0 <= i < 8 { hash[i] := 0x0101_0101_0101_0101; }
      } else {
        hashSize := Bits512;
      }
      assert hash[..] == Initial(size).h;
      assert counter[..] == ZERO && sigma[..] == ZERO;
      assert buffer[..bufferUsage] == [];
    }

    method Wipe()
      requires Shaped()
      modifies this, hash, counter, sigma, buffer, kbuf, tbuf, sbuf, sbytes
      ensures hash[..] == counter[..] == sigma[..] == kbuf[..] == tbuf[..] == sbuf[..] == ZERO
      ensures (forall i :: 0 <= i < 64 ==> buffer[i] == 0 && sbytes[i] == 0) && bufferUsage == 0
    {
      StoreInto(hash, ZERO);
      StoreInto(counter, ZERO);
      StoreInto(sigma, ZERO);
      StoreInto(kbuf, ZERO);
      StoreInto(tbuf, ZERO);
      StoreInto(sbuf, ZERO);
      forall i | 0 <= i < 64 { buffer[i] := 0; }
      forall i | 0 <= i < 64 { sbytes[i] := 0; }
      bufferUsage := 0;
    }

    /** `gost3411_2012_update`, for data at any alignment. */
    method Update(data: seq<Byte>, aligned: bool, ghost size: Size, ghost msg: seq<Byte>)
      requires Holds(size, msg)
      modifies this`bufferUsage, hash, counter, sigma, buffer, kbuf, tbuf, sbuf, sbytes
      ensures Holds(size, msg + data)
    {
      hide TableFor, Absorb, Value, Tail, Initial;
      ghost var total, s0, d := msg + data, Initial(size), |msg| - |msg| % 64;
      if 0 == |data| {
        assert total == msg;
        return;
      }
      assert total[..d] == msg[..d] && total[d..] == msg[d..] + data;
      AbsorbEnds(t, s0, msg, d);
      var rest;
      rest, d := TransformAvailable(data, aligned, s0, total, d);
      FillBuffer(rest);
      bufferUsage := bufferUsage + |rest|;
      AbsorbEnds(t, s0, total, d);
    }

    /** "Transform as many times as possible": what is left of the data fits the buffer. */
    method TransformAvailable(data: seq<Byte>, aligned: bool, ghost s0: State, ghost total: seq<Byte>, ghost d0: nat)
        returns (rest: seq<Byte>, ghost d: nat)
      requires Shaped() && bufferUsage < 64
      requires d0 % 64 == 0 && d0 <= |total| && Current() == Absorb(t, s0, total[..d0], 512)
      requires buffer[..bufferUsage] + data == total[d0..]
      modifies this`bufferUsage, hash, counter, sigma, buffer, kbuf, tbuf, sbuf, sbytes
      ensures d % 64 == 0 && d <= |total| && Current() == Absorb(t, s0, total[..d], 512)
      ensures bufferUsage + |rest| < 64 && buffer[..bufferUsage] + rest == total[d..]
    {
      hide TableFor, Absorb, Value;
      rest, d := data, d0;
      var part := 64 - bufferUsage;
      if part <= |data| {
        if 0 != bufferUsage {
          assert buffer[..bufferUsage] + data[..part] == total[d..d + 64];
          CompleteBuffer(data[..part], s0, total, d);
          rest := data[part..];
          d := d + 64;
        }
        assert rest == total[d..];
        rest, d := TransformWhole(rest, aligned, s0, total, d);
      }
    }

    /** With nothing buffered: the whole blocks of the data, if there are any. */
    method TransformWhole(data: seq<Byte>, aligned: bool, ghost s0: State, ghost total: seq<Byte>, ghost d0: nat)
        returns (rest: seq<Byte>, ghost d: nat)
      requires Shaped() && bufferUsage == 0
      requires d0 % 64 == 0 && d0 <= |total| && Current() == Absorb(t, s0, total[..d0], 512) && data == total[d0..]
      modifies hash, counter, sigma, buffer, kbuf, tbuf, sbuf, sbytes
      ensures d % 64 == 0 && d <= |total| && Current() == Absorb(t, s0, total[..d], 512)
      ensures |rest| < 64 && rest == total[d..]
    {
      hide TableFor, Absorb, Value;
      rest, d := data, d0;
      if 64 <= |rest| {
        var n := |rest| - |rest| % 64;
        assert rest[..n] == total[d..d + n];
        ProcessBlocks(rest[..n], aligned, s0, total, d);
        rest := rest[n..];
        d := d + n;
      }
    }

    /** Tops up the buffer to a whole block and processes it. */
    method CompleteBuffer(data: seq<Byte>, ghost s0: State, ghost total: seq<Byte>, ghost d: nat)
      requires Shaped() && 0 < bufferUsage < 64 && bufferUsage + |data| == 64
      requires d % 64 == 0 && d + 64 <= |total| && Current() == Absorb(t, s0, total[..d], 512)
      requires buffer[..bufferUsage] + data == total[d..d + 64]
      modifies this`bufferUsage, hash, counter, sigma, buffer, kbuf, tbuf, sbuf, sbytes
      ensures bufferUsage == 0 && Current() == Absorb(t, s0, total[..d + 64], 512)
    {
      hide TableFor, Absorb, Value;
      FillBuffer(data);
      assert buffer[..] == total[d..d + 64];
      bufferUsage := 0;
      AbsorbSpan(t, s0, total, d, d + 64);
      TransformN(buffer[..], 512, true);
    }

    /** Processes whole blocks straight from the caller's data. */
    method ProcessBlocks(blocks: seq<Byte>, aligned: bool, ghost s0: State, ghost total: seq<Byte>, ghost d: nat)
      requires Shaped() && d % 64 == 0 && |blocks| % 64 == 0 && d + |blocks| <= |total|
      requires Current() == Absorb(t, s0, total[..d], 512) && blocks == total[d..d + |blocks|]
      modifies hash, counter, sigma, buffer, kbuf, tbuf, sbuf, sbytes
      ensures Current() == Absorb(t, s0, total[..d + |blocks|], 512)
    {
      hide TableFor, Absorb, Value;
      AbsorbSpan(t, s0, total, d, d + |blocks|);
      TransformN(blocks, 512, aligned);
    }

    /** `memcpy` behind the bytes already buffered. */
    method FillBuffer(data: seq<Byte>)
      requires buffer.Length == 64 && bufferUsage + |data| <= 64
      modifies buffer
      ensures buffer[..bufferUsage + |data|] == old(buffer[..bufferUsage]) + data
    {
      forall i | 0 <= i < |data| { buffer[bufferUsage + i] := data[i]; }
    }

    /** `gost3411_2012_final`: the digest of the message held, and a wiped context. */
    method Finish(ghost size: Size, ghost msg: seq<Byte>) returns (digest: seq<Byte>)
      requires Holds(size, msg)
      modifies this, hash, counter, sigma, buffer, kbuf, tbuf, sbuf, sbytes
      ensures Shaped() && digest == Digest(t, size, msg)
      ensures hash[..] == counter[..] == sigma[..] == ZERO && bufferUsage == 0
    {
      hide TableFor, G, Step, Absorb, Value, Tail, Initial, Limbs, VecBytes, Truncated;
      ghost var tail := Tail(msg);
      forall i | bufferUsage <= i < 64 { buffer[i] := 0; }
      buffer[bufferUsage] := 0x01;
      assert buffer[..] == Padded(tail);
      AbsorbOne(t, Current(), buffer[..], 8 * bufferUsage);
      TransformN(buffer[..], 8 * bufferUsage, true);
      LimbsOfValue(counter[..]);
      LimbsOfValue(sigma[..]);
      Transform1(counter[..]);
      Transform1(sigma[..]);
      digest := Truncated(hashSize, VecBytes(hash[..]));
      Wipe();
    }
  }

  // ---------------------------------------------------------------- registers and vectors

  function XorXmm(a: Xmm, b: Xmm): Xmm { Xmm(XorW(a.lo, b.lo), XorW(a.hi, b.hi)) }

  function XorReg(a: Reg512, b: Reg512): Reg512 {
    Reg512(XorXmm(a.x0, b.x0), XorXmm(a.x1, b.x1), XorXmm(a.x2, b.x2), XorXmm(a.x3, b.x3))
  }

  lemma XorRegs(a: Reg512, b: Reg512)
    ensures Store(XorReg(a, b)) == XorV(Store(a), Store(b))
  {
    hide XorW;
  }

  ghost function RegState(h: Reg512, cnt: Reg512, sig: Reg512): State {
    State(Store(h), V512(cnt), V512(sig))
  }

  lemma RegNumber(r: Reg512)
    ensures V512(r) == Value(Store(r)) && VecOf(V512(r)) == Store(r)
  {
    LoadValue(Store(r));
    LoadStore(Store(r), r);
    LimbsOfValue(Store(r));
  }

  lemma LoadState(h: Vec, cnt: Vec, sig: Vec)
    ensures RegState(Load(h), Load(cnt), Load(sig)) == State(h, Value(cnt), Value(sig))
  {
    LoadStore(h, Load(h));
    LoadValue(cnt);
    LoadValue(sig);
  }

  // ---------------------------------------------------------------- helper facts

  function SizeOf(bits: nat): Size { if bits == 256 || bits == 32 then Bits256 else Bits512 }

  lemma InitialHash(size: Size)
    ensures Initial(size).n == Initial(size).sigma == 0
    ensures size == Bits512 ==> Initial(size).h == ZERO
    ensures size == Bits256 ==> forall i :: 0 <= i < 8 ==> Initial(size).h[i] == 0x0101_0101_0101_0101
  {}

  lemma ZeroValue()
    ensures Value(ZERO) == 0
  {
    LoadValue(ZERO);
  }

  lemma AbsorbNothing(t: Tables, s: State, short: seq<Byte>, bits: nat)
    requires |short| < 64
    ensures Absorb(t, s, short, bits) == s
  {}

  lemma Remainder(n: nat, d: nat)
    requires d % 64 == 0 && d <= n < d + 64
    ensures n % 64 == n - d
  {
    assert d == 64 * (d / 64);
  }

  lemma AbsorbNext(t: Tables, s: State, blocks: seq<Byte>, pos: nat, bits: nat)
    requires pos % 64 == 0 && pos + 64 <= |blocks|
    ensures Absorb(t, s, blocks[..pos + 64], bits) ==
            Step(t, Absorb(t, s, blocks[..pos], bits), BlockOf(blocks[pos..pos + 64]), bits)
  {
    hide Absorb, Step, BlockOf;
    assert blocks[..pos + 64] == blocks[..pos] + blocks[pos..pos + 64];
    AbsorbConcat(t, s, blocks[..pos], blocks[pos..pos + 64], bits);
    AbsorbOne(t, Absorb(t, s, blocks[..pos], bits), blocks[pos..pos + 64], bits);
  }

  /** Absorbing the bytes between two block boundaries. */
  lemma AbsorbSpan(t: Tables, s: State, total: seq<Byte>, d: nat, e: nat)
    requires d % 64 == 0 && d <= e <= |total|
    ensures Absorb(t, s, total[..e], 512) == Absorb(t, Absorb(t, s, total[..d], 512), total[d..e], 512)
  {
    hide Absorb;
    assert total[..e] == total[..d] + total[d..e];
    AbsorbConcat(t, s, total[..d], total[d..e], 512);
  }

  /** What is left after the last block boundary is the tail, and absorbs to nothing. */
  lemma AbsorbEnds(t: Tables, s: State, total: seq<Byte>, d: nat)
    requires d % 64 == 0 && d <= |total| < d + 64
    ensures Absorb(t, s, total, 512) == Absorb(t, s, total[..d], 512)
    ensures Tail(total) == total[d..] && |total| % 64 == |total| - d
  {
    hide Absorb;
    Remainder(|total|, d);
    AbsorbSpan(t, s, total, d, |total|);
    assert total[..|total|] == total;
    AbsorbNothing(t, Absorb(t, s, total[..d], 512), total[d..|total|], 512);
  }

  /** The SSE order: the message went into the hash first. */
  lemma FinalXorSse(h: Vec, m: Vec, x: Vec, k: Vec)
    ensures XorV(XorV(XorV(h, m), x), k) == XorV(XorV(XorV(k, x), h), m)
  {
    hide XorV;
    XorVAssociates(XorV(h, m), x, k);
    XorVCommutes(x, k);
    XorVCommutes(XorV(h, m), XorV(k, x));
    XorVAssociates(XorV(k, x), h, m);
  }

  /** `hash ^= block ^ temp ^ key` in the order of the definition. */
  lemma FinalXor(h: Vec, m: Vec, x: Vec, k: Vec)
    ensures XorV(h, XorV(XorV(m, x), k)) == XorV(XorV(XorV(k, x), h), m)
  {
    hide XorV;
    XorVAssociates(m, x, k);
    XorVCommutes(x, k);
    XorVCommutes(m, XorV(k, x));
    XorVCommutes(h, XorV(XorV(k, x), m));
    XorVAssociates(XorV(k, x), m, h);
    XorVCommutes(m, h);
    XorVAssociates(XorV(k, x), h, m);
  }
}
