/** Whole uses of the context: a digest of data that arrives in pieces, and HMAC (RFC 2104). */
module StreebogDigests {
  import opened Words
  import opened StreebogLps
  import opened StreebogHash
  import opened StreebogContext

  function Flatten(chunks: seq<seq<Byte>>): seq<Byte> {
    if |chunks| == 0 then [] else chunks[0] + Flatten(chunks[1..])
  }

  lemma {:induction false} FlattenNext(chunks: seq<seq<Byte>>, i: nat)
    requires i < |chunks|
    ensures Flatten(chunks[..i + 1]) == Flatten(chunks[..i]) + chunks[i]
  {
    if i == 0 {
      assert Flatten(chunks[..1][1..]) == [];
    } else {
      assert chunks[..i + 1][1..] == chunks[1..][..i] && chunks[..i][1..] == chunks[1..][..i - 1];
      FlattenNext(chunks[1..], i - 1);
    }
  }

  /** However the message is cut, aligned and whichever build is used, the digest is that of the message. */
  method DigestChunks(ctx: Context, bits: nat, chunks: seq<seq<Byte>>, aligned: nat -> bool) returns (digest: seq<Byte>)
    requires ctx.Shaped()
    modifies ctx, ctx.hash, ctx.counter, ctx.sigma, ctx.buffer, ctx.kbuf, ctx.tbuf, ctx.sbuf, ctx.sbytes
    ensures digest == Digest(ctx.t, SizeOf(bits), Flatten(chunks))
  {
    hide Digest, Absorb, Initial, TableFor, Flatten, Context.Holds;
    ctx.Init(bits);
    FlattenNone(chunks[..0]);
    for i := 0 to |chunks|
      invariant ctx.Holds(SizeOf(bits), Flatten(chunks[..i]))
    {
      FlattenNext(chunks, i);
      ctx.Update(chunks[i], aligned(i), SizeOf(bits), Flatten(chunks[..i]));
    }
    assert chunks[..|chunks|] == chunks;
    digest := ctx.Finish(SizeOf(bits), Flatten(chunks));
  }

  lemma FlattenNone(none: seq<seq<Byte>>)
    requires |none| == 0
    ensures Flatten(none) == []
  {}

  /** `hmac_gost3411_2012_init`: the context holds the inner pad. */
  method HmacInit(ctx: Context, bits: nat, key: seq<Byte>, aligned: bool) returns (opad: seq<Byte>)
    requires ctx.Shaped()
    modifies ctx, ctx.hash, ctx.counter, ctx.sigma, ctx.buffer, ctx.kbuf, ctx.tbuf, ctx.sbuf, ctx.sbytes
    ensures var k := BlockKey(ctx.t, SizeOf(bits), key);
      ctx.Holds(SizeOf(bits), RepeatXor(k, 0x36)) && opad == RepeatXor(k, 0x5c)
  {
    hide Digest, Absorb, Initial, TableFor, RepeatXor, Context.Holds;
    ghost var size := SizeOf(bits);
    var k := key;
    ctx.Init(bits);
    if 64 < |key| {
      ctx.Update(key, aligned, size, []);
      assert [] + key == key;
      k := ctx.Finish(size, key);
      ctx.Init(bits);
    }
    k := k + seq(64 - |k|, _ => 0);
    assert k == BlockKey(ctx.t, size, key);
    var ipad := RepeatXor(k, 0x36);
    opad := RepeatXor(k, 0x5c);
    ctx.Update(ipad, true, size, []);
    assert [] + ipad == ipad;
  }

  /** `hmac_gost3411_2012_final`. */
  method HmacFinish(ctx: Context, opad: seq<Byte>, ghost size: Size, ghost inner: seq<Byte>) returns (digest: seq<Byte>)
    requires ctx.Holds(size, inner)
    modifies ctx, ctx.hash, ctx.counter, ctx.sigma, ctx.buffer, ctx.kbuf, ctx.tbuf, ctx.sbuf, ctx.sbytes
    ensures digest == Digest(ctx.t, size, opad + Digest(ctx.t, size, inner))
  {
    hide Digest, Absorb, Initial, TableFor, Context.Holds;
    var again := if ctx.hashSize == Bits256 then 32 else 64;
    digest := ctx.Finish(size, inner);
    ctx.Init(again);
    ctx.Update(opad, true, size, []);
    assert [] + opad == opad;
    ctx.Update(digest, true, size, opad);
    digest := ctx.Finish(size, opad + digest);
  }

  /** `hmac_gost3411_2012`, and its three parts with the data arriving in any pieces. */
  method HmacDigest(ctx: Context, bits: nat, key: seq<Byte>, chunks: seq<seq<Byte>>, aligned: nat -> bool)
      returns (digest: seq<Byte>)
    requires ctx.Shaped()
    modifies ctx, ctx.hash, ctx.counter, ctx.sigma, ctx.buffer, ctx.kbuf, ctx.tbuf, ctx.sbuf, ctx.sbytes
    ensures digest == Hmac(ctx.t, SizeOf(bits), key, Flatten(chunks))
  {
    hide Digest, Absorb, Initial, TableFor, RepeatXor, Flatten, Context.Holds;
    ghost var size := SizeOf(bits);
    ghost var ipad := RepeatXor(BlockKey(ctx.t, size, key), 0x36);
    var opad := HmacInit(ctx, bits, key, aligned(0));
    FlattenNone(chunks[..0]);
    assert ipad + [] == ipad;
    for i := 0 to |chunks|
      invariant ctx.Holds(size, ipad + Flatten(chunks[..i]))
    {
      FlattenNext(chunks, i);
      ghost var sofar := Flatten(chunks[..i]);
      assert ipad + sofar + chunks[i] == ipad + (sofar + chunks[i]);
      ctx.Update(chunks[i], aligned(i + 1), size, ipad + sofar);
    }
    assert chunks[..|chunks|] == chunks;
    digest := HmacFinish(ctx, opad, size, ipad + Flatten(chunks));
  }
}
