/** Encrypt-then-authenticate over the counter-mode transformer, with any block function and any MAC. */
module SymmetricKeys {
  import opened Words
  import opened CtrTransformers

  const HASH_SIZE: nat := 32

  /** The MAC, from a key and a message. */
  type MacFunction = (seq<Byte>, seq<Byte>) -> seq<Byte>

  ghost predicate Sized(mac: MacFunction) { forall key: seq<Byte>, s: seq<Byte> :: |mac(key, s)| == HASH_SIZE }

  /** The exceptions `etaDecrypt` and `decrypt` throw. */
  datatype Result = Ok(bytes: seq<Byte>) | DataTooSmall | BadHmacSize | HmacFailed

  // ---------------------------------------------------------------- the specification

  ghost function EtaEncrypted(cipher: BlockFunction, mac: MacFunction, key: seq<Byte>, nonce: seq<Byte>, plain: seq<Byte>):
    seq<Byte>
    requires KeepsBlocks(cipher) && |nonce| == BLOCK_SIZE
  {
    var encrypted := Transformed(cipher, key, nonce, plain);
    nonce + encrypted + mac(key, encrypted)
  }

  ghost function EtaDecrypted(cipher: BlockFunction, mac: MacFunction, key: seq<Byte>, data: seq<Byte>): Result
    requires KeepsBlocks(cipher)
  {
    if |data| < BLOCK_SIZE + HASH_SIZE then DataTooSmall
    else
      var encrypted := data[BLOCK_SIZE..|data| - HASH_SIZE];
      if mac(key, encrypted) != data[|data| - HASH_SIZE..] then HmacFailed
      else Ok(Transformed(cipher, key, data[..BLOCK_SIZE], encrypted))
  }

  /** What the encryption says byte by byte: the nonce, each byte combined with its byte of the keystream, and the
      MAC of those. */
  lemma EtaEncryptedBytes(cipher: BlockFunction, mac: MacFunction, key: seq<Byte>, nonce: seq<Byte>, plain: seq<Byte>)
    requires KeepsBlocks(cipher) && |nonce| == BLOCK_SIZE
    ensures var e := EtaEncrypted(cipher, mac, key, nonce, plain);
      && |e| >= 16 + |plain| && e[..16] == nonce
      && e[16 + |plain|..] == mac(key, e[16..16 + |plain|])
      && forall i :: 0 <= i < |plain| ==> e[16 + i] == ByteXor(plain[i], StreamByte(cipher, key, nonce, i))
  {
    hide ByteXor, StreamByte;
    var e := EtaEncrypted(cipher, mac, key, nonce, plain);
    var encrypted := Transformed(cipher, key, nonce, plain);
    assert e[16..16 + |plain|] == encrypted;
    assert forall i :: 0 <= i < |plain| ==> e[16 + i] == encrypted[i];
  }

  /** What is accepted and what comes out, byte by byte. */
  lemma EtaDecryptedBytes(cipher: BlockFunction, mac: MacFunction, key: seq<Byte>, data: seq<Byte>)
    requires KeepsBlocks(cipher)
    ensures var r := EtaDecrypted(cipher, mac, key, data);
      && (r == DataTooSmall <==> |data| < 48) && r != BadHmacSize
      && (r.Ok? <==> |data| >= 48 && mac(key, data[16..|data| - 32]) == data[|data| - 32..])
      && (r.Ok? ==> |r.bytes| == |data| - 48 && forall i :: 0 <= i < |r.bytes| ==>
            r.bytes[i] == ByteXor(data[16 + i], StreamByte(cipher, key, data[..16], i)))
  {
    hide ByteXor, StreamByte;
  }

  /** The inputs accepted are exactly the encryptions under the nonce they begin with, and each decrypts to
      what was encrypted. */
  lemma EtaDecryptsEncryptions(cipher: BlockFunction, mac: MacFunction, key: seq<Byte>, data: seq<Byte>, plain: seq<Byte>)
    requires KeepsBlocks(cipher) && Sized(mac)
    ensures EtaDecrypted(cipher, mac, key, data) == Ok(plain) <==>
      |data| >= BLOCK_SIZE && data == EtaEncrypted(cipher, mac, key, data[..BLOCK_SIZE], plain)
  {
    var n := |data|;
    if n >= BLOCK_SIZE {
      var nonce := data[..BLOCK_SIZE];
      var again := Transformed(cipher, key, nonce, plain);
      TransformedTwice(cipher, key, nonce, plain);
      if n >= BLOCK_SIZE + HASH_SIZE {
        var encrypted := data[BLOCK_SIZE..n - HASH_SIZE];
        TransformedTwice(cipher, key, nonce, encrypted);
        hide Transformed;
        assert data == nonce + encrypted + data[n - HASH_SIZE..];
        var e := nonce + again + mac(key, again);
        if data == e {
          assert n == BLOCK_SIZE + |again| + HASH_SIZE;
          assert e[BLOCK_SIZE..n - HASH_SIZE] == again && e[n - HASH_SIZE..] == mac(key, again);
        }
      }
    }
  }

  /** What was encrypted comes back, under any nonce. */
  lemma EtaRoundTrip(cipher: BlockFunction, mac: MacFunction, key: seq<Byte>, nonce: seq<Byte>, plain: seq<Byte>)
    requires KeepsBlocks(cipher) && Sized(mac) && |nonce| == BLOCK_SIZE
    ensures EtaDecrypted(cipher, mac, key, EtaEncrypted(cipher, mac, key, nonce, plain)) == Ok(plain)
  {
    var data := EtaEncrypted(cipher, mac, key, nonce, plain);
    assert data[..BLOCK_SIZE] == nonce;
    EtaDecryptsEncryptions(cipher, mac, key, data, plain);
  }

  ghost function Encrypted(cipher: BlockFunction, key: seq<Byte>, nonce: seq<Byte>, plain: seq<Byte>): seq<Byte>
    requires KeepsBlocks(cipher) && |nonce| == BLOCK_SIZE
  {
    nonce + Transformed(cipher, key, nonce, plain)
  }

  ghost function Decrypted(cipher: BlockFunction, key: seq<Byte>, data: seq<Byte>): Result
    requires KeepsBlocks(cipher)
  {
    if |data| < BLOCK_SIZE then DataTooSmall
    else Ok(Transformed(cipher, key, data[..BLOCK_SIZE], data[BLOCK_SIZE..]))
  }

  lemma EncryptedBytes(cipher: BlockFunction, key: seq<Byte>, nonce: seq<Byte>, plain: seq<Byte>)
    requires KeepsBlocks(cipher) && |nonce| == BLOCK_SIZE
    ensures var e := Encrypted(cipher, key, nonce, plain);
      && |e| == 16 + |plain| && e[..16] == nonce
      && forall i :: 0 <= i < |plain| ==> e[16 + i] == ByteXor(plain[i], StreamByte(cipher, key, nonce, i))
  {
    hide ByteXor, StreamByte;
    var encrypted := Transformed(cipher, key, nonce, plain);
    assert forall i :: 0 <= i < |plain| ==> Encrypted(cipher, key, nonce, plain)[16 + i] == encrypted[i];
  }

  lemma DecryptedBytes(cipher: BlockFunction, key: seq<Byte>, data: seq<Byte>)
    requires KeepsBlocks(cipher)
    ensures var r := Decrypted(cipher, key, data);
      if |data| < 16 then r == DataTooSmall
      else r.Ok? && |r.bytes| == |data| - 16 && forall i :: 0 <= i < |r.bytes| ==>
        r.bytes[i] == ByteXor(data[16 + i], StreamByte(cipher, key, data[..16], i))
  {
    hide ByteXor, StreamByte;
  }

  /** Without authentication every input of a block or more is the encryption of what it decrypts to. */
  lemma DecryptsEncryptions(cipher: BlockFunction, key: seq<Byte>, data: seq<Byte>, plain: seq<Byte>)
    requires KeepsBlocks(cipher)
    ensures Decrypted(cipher, key, data) == Ok(plain) <==>
      |data| >= BLOCK_SIZE && data == Encrypted(cipher, key, data[..BLOCK_SIZE], plain)
  {
    if |data| >= BLOCK_SIZE {
      var nonce, encrypted := data[..BLOCK_SIZE], data[BLOCK_SIZE..];
      var again := Transformed(cipher, key, nonce, plain);
      TransformedTwice(cipher, key, nonce, plain);
      TransformedTwice(cipher, key, nonce, encrypted);
      hide Transformed;
      assert data == nonce + encrypted;
      assert (nonce + again)[BLOCK_SIZE..] == again;
    }
  }

  lemma RoundTrip(cipher: BlockFunction, key: seq<Byte>, nonce: seq<Byte>, plain: seq<Byte>)
    requires KeepsBlocks(cipher) && |nonce| == BLOCK_SIZE
    ensures Decrypted(cipher, key, Encrypted(cipher, key, nonce, plain)) == Ok(plain)
  {
    var data := Encrypted(cipher, key, nonce, plain);
    assert data[..BLOCK_SIZE] == nonce;
    DecryptsEncryptions(cipher, key, data, plain);
  }

  /** One more byte through the transformer. */
  lemma TransformedSnoc(cipher: BlockFunction, key: seq<Byte>, nonce: seq<Byte>, data: seq<Byte>, byte: Byte)
    requires KeepsBlocks(cipher) && |nonce| >= BLOCK_SIZE
    ensures Transformed(cipher, key, nonce, data + [byte]) ==
      Transformed(cipher, key, nonce, data) + [ByteXor(byte, StreamByte(cipher, key, nonce, |data|))]
  {
    hide ByteXor, StreamByte;
    var longer := Transformed(cipher, key, nonce, data + [byte]);
    assert forall i :: 0 <= i < |data| ==> (data + [byte])[i] == data[i];
    assert longer[..|data|] == Transformed(cipher, key, nonce, data);
    assert longer == longer[..|data|] + [longer[|data|]];
  }

  // ---------------------------------------------------------------- the delay ring

  /** The ring holds the last 32 bytes read, `out` those before them that follow the nonce. */
  ghost predicate Delayed(data: seq<Byte>, readIndex: nat, ring: seq<Byte>, out: seq<Byte>) {
    && BLOCK_SIZE + HASH_SIZE <= readIndex <= |data|
    && ring == data[readIndex - HASH_SIZE..readIndex] && out == data[BLOCK_SIZE..readIndex - HASH_SIZE]
  }

  lemma DelayedNext(data: seq<Byte>, readIndex: nat, ring: seq<Byte>, out: seq<Byte>)
    requires Delayed(data, readIndex, ring, out) && readIndex < |data|
    ensures var pushed := ring + [data[readIndex]]; Delayed(data, readIndex + 1, pushed[1..], out + [pushed[0]])
  {}

  lemma DelayedEnd(data: seq<Byte>, ring: seq<Byte>, out: seq<Byte>)
    requires Delayed(data, |data|, ring, out)
    ensures |ring| == HASH_SIZE && ring == data[|data| - HASH_SIZE..] && out == data[BLOCK_SIZE..|data| - HASH_SIZE]
  {}

  // ---------------------------------------------------------------- the key

  class SymmetricKey {
    const key: seq<Byte>
    const cipher: BlockFunction
    const mac: MacFunction

    constructor (key: seq<Byte>, cipher: BlockFunction, mac: MacFunction)
      ensures this.key == key && this.cipher == cipher && this.mac == mac
    {
      this.key := key;
      this.cipher := cipher;
      this.mac := mac;
    }

    /** `nonce` is what the random generator yields; `hs` the bytes the MAC has been fed. */
    method EtaEncrypt(data: seq<Byte>, nonce: seq<Byte>) returns (output: seq<Byte>)
      requires KeepsBlocks(cipher) && |nonce| == BLOCK_SIZE
      ensures output == EtaEncrypted(cipher, mac, key, nonce, data)
      ensures |output| >= 16 + |data| && output[..16] == nonce
      ensures output[16 + |data|..] == mac(key, output[16..16 + |data|])
      ensures forall i :: 0 <= i < |data| ==> output[16 + i] == ByteXor(data[i], StreamByte(cipher, key, nonce, i))
    {
      hide ByteXor, StreamByte, Transformed;
      var hs: seq<Byte> := [];
      var transformer := new CtrTransformer(cipher, key, [], nonce);
      var iv := transformer.GetIV();
      output := iv;
      assert data[..0] == [];
      for i := 0 to |data|
        invariant transformer.Valid() && transformer.used == i
        invariant fresh(transformer) && fresh(transformer.source) && fresh(transformer.counterBytes)
        invariant hs == Transformed(cipher, key, nonce, data[..i]) && output == iv + hs
      {
        TransformedSnoc(cipher, key, nonce, data[..i], data[i]);
        assert data[..i + 1] == data[..i] + [data[i]];
        var encrypted := transformer.TransformByte(data[i]);
        hs := hs + [encrypted];
        output := output + [encrypted];
      }
      assert data[..|data|] == data;
      output := output + mac(key, hs);
      EtaEncryptedBytes(cipher, mac, key, nonce, data);
    }

    /** The last 32 bytes read wait in `ring` until it is known that they are not the MAC. */
    method EtaDecrypt(data: seq<Byte>) returns (r: Result)
      requires KeepsBlocks(cipher) && Sized(mac)
      ensures r == EtaDecrypted(cipher, mac, key, data) && !r.BadHmacSize?
      ensures r == DataTooSmall <==> |data| < 48
      ensures r.Ok? <==> |data| >= 48 && mac(key, data[16..|data| - 32]) == data[|data| - 32..]
      ensures r.Ok? ==> |r.bytes| == |data| - 48 && forall i :: 0 <= i < |r.bytes| ==>
        r.bytes[i] == ByteXor(data[16 + i], StreamByte(cipher, key, data[..16], i))
    {
      EtaDecryptedBytes(cipher, mac, key, data);
      hide ByteXor, StreamByte, Transformed, Delayed;
      if |data| < BLOCK_SIZE + HASH_SIZE { return DataTooSmall; }
      var iv := data[..BLOCK_SIZE];
      var transformer := new CtrTransformer(cipher, key, iv, iv);
      var hs, output: seq<Byte> := [], [];
      var ring := FillRing(data);
      var readIndex := BLOCK_SIZE + HASH_SIZE;
      var bytesLeft := |data| - readIndex;
      assert Transformed(cipher, key, iv, hs) == [];
      while bytesLeft > 0
        invariant transformer.Valid() && transformer.used == |hs|
        invariant fresh(transformer) && fresh(transformer.source) && fresh(transformer.counterBytes)
        invariant 0 <= bytesLeft && readIndex + bytesLeft == |data|
        invariant Delayed(data, readIndex, ring, hs) && output == Transformed(cipher, key, iv, hs)
      {
        var nextByte := data[readIndex];
        DelayedNext(data, readIndex, ring, hs);
        readIndex, bytesLeft := readIndex + 1, bytesLeft - 1;
        ring := ring + [nextByte];
        var encrypted := ring[0];
        ring := ring[1..];
        TransformedSnoc(cipher, key, iv, hs, encrypted);
        hs := hs + [encrypted];
        var decrypted := transformer.TransformByte(encrypted);
        output := output + [decrypted];
      }
      DelayedEnd(data, ring, hs);
      if |ring| != HASH_SIZE { return BadHmacSize; }
      if mac(key, hs) != ring { return HmacFailed; }
      r := Ok(output);
    }

    static method FillRing(data: seq<Byte>) returns (ring: seq<Byte>)
      requires |data| >= BLOCK_SIZE + HASH_SIZE
      ensures Delayed(data, BLOCK_SIZE + HASH_SIZE, ring, [])
    {
      ring := [];
      for i := BLOCK_SIZE to BLOCK_SIZE + HASH_SIZE
        invariant ring == data[BLOCK_SIZE..i]
      {
        ring := ring + [data[i]];
      }
    }

    method Encrypt(data: seq<Byte>, nonce: seq<Byte>) returns (result: seq<Byte>)
      requires KeepsBlocks(cipher) && |nonce| == BLOCK_SIZE
      ensures result == Encrypted(cipher, key, nonce, data)
      ensures |result| == 16 + |data| && result[..16] == nonce
      ensures forall i :: 0 <= i < |data| ==> result[16 + i] == ByteXor(data[i], StreamByte(cipher, key, nonce, i))
    {
      hide ByteXor, StreamByte, Transformed;
      var transformer := new CtrTransformer(cipher, key, [], nonce);
      var iv := transformer.GetIV();
      result := iv;
      assert data[..0] == [];
      for i := 0 to |data|
        invariant transformer.Valid() && transformer.used == i
        invariant fresh(transformer) && fresh(transformer.source) && fresh(transformer.counterBytes)
        invariant result == iv + Transformed(cipher, key, nonce, data[..i])
      {
        TransformedSnoc(cipher, key, nonce, data[..i], data[i]);
        assert data[..i + 1] == data[..i] + [data[i]];
        var encrypted := transformer.TransformByte(data[i]);
        result := result + [encrypted];
      }
      assert data[..|data|] == data;
      EncryptedBytes(cipher, key, nonce, data);
    }

    method Decrypt(data: seq<Byte>) returns (r: Result)
      requires KeepsBlocks(cipher)
      ensures r == Decrypted(cipher, key, data)
      ensures if |data| < 16 then r == DataTooSmall
              else r.Ok? && |r.bytes| == |data| - 16 && forall i :: 0 <= i < |r.bytes| ==>
                r.bytes[i] == ByteXor(data[16 + i], StreamByte(cipher, key, data[..16], i))
    {
      DecryptedBytes(cipher, key, data);
      hide ByteXor, StreamByte, Transformed;
      if |data| < BLOCK_SIZE { return DataTooSmall; }
      var iv := data[..BLOCK_SIZE];
      var transformer := new CtrTransformer(cipher, key, iv, iv);
      var result: seq<Byte> := [];
      ghost var rest := data[BLOCK_SIZE..];
      assert rest[..0] == [];
      for i := 0 to |data| - BLOCK_SIZE
        invariant transformer.Valid() && transformer.used == i
        invariant fresh(transformer) && fresh(transformer.source) && fresh(transformer.counterBytes)
        invariant result == Transformed(cipher, key, iv, rest[..i])
      {
        TransformedSnoc(cipher, key, iv, rest[..i], rest[i]);
        assert rest[..i + 1] == rest[..i] + [rest[i]];
        var decrypted := transformer.TransformByte(data[BLOCK_SIZE + i]);
        result := result + [decrypted];
      }
      assert rest[..|rest|] == rest;
      r := Ok(result);
    }
  }
}
