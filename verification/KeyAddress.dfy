/** Key addresses: a mask and type byte, a digest of the key and a checksum, written in base 58. */
module KeyAddresses {
  import opened Words
  import Radix
  import Safe58

  /** The digests and the checksum an address is made with. */
  datatype Hashes = Hashes(
    sha3x256: seq<Byte> -> seq<Byte>,
    sha3x384: seq<Byte> -> seq<Byte>,
    crc32: seq<Byte> -> seq<Byte>)
  {
    ghost predicate Sized() {
      forall s: seq<Byte> :: |sha3x256(s)| == 32 && |sha3x384(s)| == 48 && |crc32(s)| == 4
    }

    function Digest(isLong: bool, s: seq<Byte>): seq<Byte> { if isLong then sha3x384(s) else sha3x256(s) }
  }

  datatype PublicKey = PublicKey(exponent: int, bitStrength: nat, components: seq<Byte>)

  function HashSize(isLong: bool): nat { if isLong then 48 else 32 }

  /** `KeyAddress::mask`; 0 stands for the exception. The bit strength may exceed the nominal one by up to 7. */
  function Mask(key: PublicKey): (m: Byte)
    ensures m <= 3 && (m > 0 ==> key.exponent == 65537)
    ensures key.exponent == 65537 ==>
      && (m == 1 <==> 2048 <= key.bitStrength < 2056)
      && (m == 2 <==> 4096 <= key.bitStrength < 4104)
      && (m == 3 <==> 8192 <= key.bitStrength < 8200)
  {
    if key.exponent != 0x10001 then 0
    else match key.bitStrength / 8
      case 256 => 1
      case 512 => 2
      case 1024 => 3
      case _ => 0
  }

  /** Bits 4 to 7 of the type mark, the only ones the constructor looks at. */
  predicate TypeMarkRefused(typeMark: int) { (typeMark / 16) % 16 != 0 }

  /** The layout of an address: mask and type in one byte, the digest, the checksum of both. */
  function Layout(h: Hashes, keyMask: nat, typeMark: nat, digest: seq<Byte>): seq<Byte>
    requires keyMask < 16 && typeMark < 16
  {
    var head: seq<Byte> := [16 * keyMask + typeMark] + digest;
    head + h.crc32(head)
  }

  /** The packed address of a key. */
  function AddressOf(h: Hashes, key: PublicKey, typeMark: int, isLong: bool): seq<Byte> {
    Layout(h, Mask(key), typeMark % 16, h.Digest(isLong, key.components))
  }

  /** What the parsing constructor accepts of at least one whole address. */
  predicate Accepted(h: Hashes, packed: seq<Byte>)
    requires |packed| >= (if |packed| == 53 then 53 else 37)
  {
    var n := 1 + HashSize(|packed| == 53);
    packed[0] / 16 != 0 && h.crc32(packed[..n]) == packed[n..n + 4]
  }

  class KeyAddress {
    var typeMark: int
    var keyMask: nat
    var keyDigest: seq<Byte>
    var isLong: bool
    var packed: seq<Byte>

    constructor ()
      ensures packed == []
    {
      packed := [];
    }

    /** The fields of an address read from, or packed into, `packed`. */
    ghost predicate Describes()
      reads this
    {
      && |packed| >= 1 + |keyDigest| && |keyDigest| == HashSize(isLong) && isLong == (|packed| == 53)
      && packed[0] == 16 * keyMask + typeMark % 16 && packed[1..1 + |keyDigest|] == keyDigest
    }

    /** `KeyAddress(key, typeMark, useSha3_384)`; false stands for its exceptions. */
    method InitFromKey(h: Hashes, key: PublicKey, typeMark: int, useSha3x384: bool) returns (ok: bool)
      requires h.Sized()
      modifies this
      ensures ok <==> !TypeMarkRefused(typeMark) && Mask(key) != 0
      ensures ok ==> this.typeMark == typeMark && keyMask == Mask(key) && isLong == useSha3x384
      ensures ok ==> packed == AddressOf(h, key, typeMark, useSha3x384) && Describes()
      ensures ok ==> var n := if useSha3x384 then 49 else 33;
        && |packed| == n + 4 && packed[0] == 16 * Mask(key) + typeMark % 16
        && packed[1..n] == (if useSha3x384 then h.sha3x384(key.components) else h.sha3x256(key.components))
        && packed[n..] == h.crc32(packed[..n])
    {
      this.typeMark := typeMark;
      if (typeMark / 16) % 16 != 0 { return false; }
      keyMask := Mask(key);
      if keyMask == 0 { return false; }
      isLong := useSha3x384;
      HeadByte(keyMask, typeMark);
      packed := [(16 * keyMask + typeMark) % 256];
      keyDigest := h.Digest(isLong, key.components);
      packed := packed + keyDigest;
      ghost var head := packed;
      packed := packed + h.crc32(packed);
      assert packed[..|head|] == head;
      ok := true;
    }

    /** `KeyAddress(packedSource, packedSourceSize)`; false stands for its exceptions. */
    method InitFromPacked(h: Hashes, source: seq<Byte>) returns (ok: bool)
      requires h.Sized() && |source| >= (if |source| == 53 then 53 else 37)
      modifies this
      ensures ok <==> Accepted(h, source)
      ensures ok <==> var n := if |source| == 53 then 49 else 33;
        source[0] >= 16 && h.crc32(source[..n]) == source[n..n + 4]
      ensures ok ==> packed == source && typeMark == source[0] % 16 && keyMask == source[0] / 16 && Describes()
    {
      packed := source;
      typeMark := packed[0] % 16;
      keyMask := packed[0] / 16;
      if keyMask == 0 { return false; }
      isLong := |source| == 53;
      var n := HashSize(isLong) + 1;
      keyDigest := packed[1..n];
      var crc32 := h.crc32(packed[..n]);
      var crc32packed := packed[n..n + 4];
      ok := crc32 == crc32packed;
    }

    /** `KeyAddress(packedString)`; `garbage` is what the decoder's stack buffer holds. */
    method InitFromString(h: Hashes, text: string, garbage: seq<Byte>) returns (ok: bool)
      requires h.Sized() && |garbage| == |text|
      requires Safe58.IsText(Safe58.NormalizeAll(text)) ==> BigEnough(text, garbage)
      modifies this
      ensures ok <==> Safe58.IsText(Safe58.NormalizeAll(text)) && Accepted(h, Decoded(text, garbage))
      ensures ok ==> packed == Decoded(text, garbage) && Describes()
      ensures ok ==> typeMark == packed[0] % 16 && keyMask == packed[0] / 16
    {
      hide Safe58.Assembled, Radix.Num, Radix.Rep, Accepted, Describes;
      var source := Safe58.Decode(text, false, garbage);
      if source.InvalidArgument? { return false; }
      ghost var decoded := Decoded(text, garbage);
      var bytes: seq<Byte> := source.value;
      ok := InitFromPacked(h, bytes);
    }

    /** `toString`. */
    method ToString() returns (s: string)
      ensures Radix.Digits(Radix.Convert(packed, 256, 58), 58)
      ensures s == Safe58.ToText(Radix.Convert(packed, 256, 58))
    {
      hide Radix.Convert, Safe58.ToText;
      s := Safe58.Encode(packed);
    }

    /** `operator==`. */
    predicate Equals(other: KeyAddress)
      reads this, other
    {
      packed == other.packed
    }

    /** `isMatchingKey`, which throws for a key without a mask. */
    method IsMatchingKey(h: Hashes, key: PublicKey) returns (threw: bool, matches: bool)
      requires h.Sized()
      ensures threw <==> Mask(key) == 0
      ensures !threw ==> (matches <==> packed == AddressOf(h, key, 0, isLong))
    {
      var other := new KeyAddress();
      var ok := other.InitFromKey(h, key, 0, isLong);
      threw := !ok;
      matches := packed == other.packed;
    }
  }

  lemma HeadByte(keyMask: nat, typeMark: int)
    requires keyMask < 16 && !TypeMarkRefused(typeMark)
    ensures (16 * keyMask + typeMark) % 256 == 16 * keyMask + typeMark % 16
  {}

  // ---------------------------------------------------------------- reading text back

  /** The bytes the parsing constructor is given for a text. */
  ghost function Decoded(text: string, garbage: seq<Byte>): (d: seq<Byte>)
    requires Safe58.IsText(Safe58.NormalizeAll(text)) && |garbage| == |text|
    ensures var digits := Safe58.FromText(Safe58.NormalizeAll(text));
      Radix.LeadingZeros(digits) + |Radix.Rep(Radix.Num(digits, 58), 256)| <= |digits|
      && d == Safe58.Assembled(digits, garbage)
  {
    var digits := Safe58.FromText(Safe58.NormalizeAll(text));
    Safe58.DecodingFits(digits);
    Safe58.AssembledBytes(digits, garbage);
    Safe58.Assembled(digits, garbage)
  }

  ghost predicate BigEnough(text: string, garbage: seq<Byte>)
    requires Safe58.IsText(Safe58.NormalizeAll(text)) && |garbage| == |text|
  {
    var n := |Decoded(text, garbage)|;
    n >= if n == 53 then 53 else 37
  }

  /** Text written for bytes that do not begin with zero is read back as those bytes, whatever the decoder's
      buffer holds. */
  lemma TextOfAddress(packed: seq<Byte>, garbage: seq<Byte>)
    requires |packed| > 0 && packed[0] != 0
    requires |garbage| == |Radix.Convert(packed, 256, 58)|
    ensures var digits := Radix.Convert(packed, 256, 58);
      && Radix.Digits(digits, 58)
      && var text := Safe58.ToText(digits);
         Safe58.IsText(Safe58.NormalizeAll(text)) && Decoded(text, garbage) == packed
  {
    Safe58.DecodeAfterEncode(packed, garbage);
    assert Radix.LeadingZeros(packed) == 0;
  }

  // ---------------------------------------------------------------- what addresses promise

  /** Every packed address of a key is accepted, is as long as its digest says and does not begin with zero. */
  lemma AddressAccepted(h: Hashes, key: PublicKey, typeMark: int, isLong: bool)
    requires h.Sized() && Mask(key) != 0
    ensures var a := AddressOf(h, key, typeMark, isLong);
      && |a| == (if isLong then 53 else 37) && Accepted(h, a)
      && a[0] / 16 == Mask(key) && a[0] % 16 == typeMark % 16 && a[0] != 0
  {
    var digest := h.Digest(isLong, key.components);
    var head: seq<Byte> := [16 * Mask(key) + typeMark % 16] + digest;
    var a := AddressOf(h, key, typeMark, isLong);
    assert a == head + h.crc32(head) && a[..|head|] == head;
  }

  /** Whatever is accepted begins with a well-formed address, and is one when it has the length of one. */
  lemma AcceptedIsLayout(h: Hashes, packed: seq<Byte>)
    requires h.Sized() && |packed| >= (if |packed| == 53 then 53 else 37) && Accepted(h, packed)
    ensures var isLong := |packed| == 53;
      var n := 1 + HashSize(isLong);
      && packed[..n + 4] == Layout(h, packed[0] / 16, packed[0] % 16, packed[1..n])
      && (|packed| in {37, 53} ==> packed == Layout(h, packed[0] / 16, packed[0] % 16, packed[1..n]))
  {
    var n := 1 + HashSize(|packed| == 53);
    assert packed[..n] == [packed[0]] + packed[1..n];
    assert packed[..n + 4] == packed[..n] + packed[n..n + 4];
  }

  /** Two addresses are equal exactly when mask, type, length class and digest are. */
  lemma AddressesEqualIff(h: Hashes, k1: PublicKey, t1: int, long1: bool, k2: PublicKey, t2: int, long2: bool)
    requires h.Sized()
    ensures AddressOf(h, k1, t1, long1) == AddressOf(h, k2, t2, long2) <==>
      Mask(k1) == Mask(k2) && t1 % 16 == t2 % 16 && long1 == long2
      && h.Digest(long1, k1.components) == h.Digest(long2, k2.components)
  {
    var a1, a2 := AddressOf(h, k1, t1, long1), AddressOf(h, k2, t2, long2);
    var d1, d2 := h.Digest(long1, k1.components), h.Digest(long2, k2.components);
    assert |a1| == 5 + |d1| && |a2| == 5 + |d2|;
    assert a1[0] == 16 * Mask(k1) + t1 % 16 && a2[0] == 16 * Mask(k2) + t2 % 16;
    assert a1[1..1 + |d1|] == d1 && a2[1..1 + |d2|] == d2;
  }

  /** An address answers to its own key exactly when its type mark is zero modulo 16. */
  lemma MatchesOwnKeyIff(h: Hashes, key: PublicKey, typeMark: int, isLong: bool)
    requires h.Sized() && !TypeMarkRefused(typeMark)
    ensures AddressOf(h, key, typeMark, isLong) == AddressOf(h, key, 0, isLong) <==> typeMark % 16 == 0
  {
    AddressesEqualIff(h, key, typeMark, isLong, key, 0, isLong);
  }

  /** The marks the constructor lets through are the sixteen of its message and every number that agrees with
      one of them in its low byte, as 256 does. */
  lemma MarksLetThrough(typeMark: int)
    ensures !TypeMarkRefused(typeMark) <==> 0 <= typeMark % 256 < 16
    ensures !TypeMarkRefused(typeMark) ==> (typeMark % 16 == typeMark <==> 0 <= typeMark <= 15)
    ensures !TypeMarkRefused(256)
  {}

  /** Every address built from a key is accepted when its text is parsed back: the two are equal and agree in
      length class, mask and digest; the type mark comes back modulo 16. */
  method ParseBack(h: Hashes, key: PublicKey, typeMark: int, isLong: bool, garbage: seq<Byte>)
      returns (built: KeyAddress, parsed: KeyAddress)
    requires h.Sized() && Mask(key) != 0 && !TypeMarkRefused(typeMark)
    requires |garbage| == |Radix.Convert(AddressOf(h, key, typeMark, isLong), 256, 58)|
    ensures built.packed == AddressOf(h, key, typeMark, isLong) && parsed.Equals(built)
    ensures parsed.isLong == built.isLong == isLong && parsed.keyMask == built.keyMask == Mask(key)
    ensures parsed.keyDigest == built.keyDigest == h.Digest(isLong, key.components)
    ensures parsed.typeMark == typeMark % 16
  {
    AddressAccepted(h, key, typeMark, isLong);
    built := new KeyAddress();
    var ok := built.InitFromKey(h, key, typeMark, isLong);
    var text := built.ToString();
    TextOfAddress(built.packed, garbage);
    hide Radix.Convert, Safe58.ToText, Safe58.NormalizeAll, Safe58.IsText, Decoded;
    parsed := new KeyAddress();
    var accepted := parsed.InitFromString(h, text, garbage);
    assert accepted;
  }
}
