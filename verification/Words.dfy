/** 64-bit words and bytes as numbers, with exclusive or defined bit by bit. */
module Words {
  const BASE: nat := 0x1_0000_0000_0000_0000
  const HALF: nat := 0x8000_0000_0000_0000

  type Word = n: nat | n < BASE
  type Byte = n: nat | n < 256

  function Pow2(n: nat): (p: nat)
    ensures p > 0
  {
    if n == 0 then 1 else 2 * Pow2(n - 1)
  }

  // ---------------------------------------------------------------- exclusive or

  function Xor(a: nat, b: nat): nat
    decreases a + b
  {
    if a == 0 && b == 0 then 0 else (a % 2 + b % 2) % 2 + 2 * Xor(a / 2, b / 2)
  }

  lemma {:induction false} XorZero(a: nat)
    ensures Xor(a, 0) == a && Xor(0, a) == a
  {
    if a > 0 { XorZero(a / 2); }
  }

  lemma {:induction false} XorCommutes(a: nat, b: nat)
    ensures Xor(a, b) == Xor(b, a)
    decreases a + b
  {
    if a + b > 0 { XorCommutes(a / 2, b / 2); }
  }

  lemma {:induction false} XorAssociates(a: nat, b: nat, c: nat)
    ensures Xor(Xor(a, b), c) == Xor(a, Xor(b, c))
    decreases a + b + c
  {
    if a + b + c > 0 {
      XorAssociates(a / 2, b / 2, c / 2);
      HalvesLeft(a, b, c);
      HalvesRight(a, b, c);
      ParityOfSum(a, b, c);
      hide Xor;
    }
  }

  lemma HalvesLeft(a: nat, b: nat, c: nat)
    ensures var x := Xor(Xor(a, b), c);
      x / 2 == Xor(Xor(a / 2, b / 2), c / 2) && x % 2 == ((a % 2 + b % 2) % 2 + c % 2) % 2
  {
    XorHalves(a, b);
    XorHalves(Xor(a, b), c);
    hide Xor;
  }

  lemma HalvesRight(a: nat, b: nat, c: nat)
    ensures var x := Xor(a, Xor(b, c));
      x / 2 == Xor(a / 2, Xor(b / 2, c / 2)) && x % 2 == (a % 2 + (b % 2 + c % 2) % 2) % 2
  {
    XorHalves(b, c);
    XorHalves(a, Xor(b, c));
    hide Xor;
  }

  lemma ParityOfSum(a: nat, b: nat, c: nat)
    ensures ((a % 2 + b % 2) % 2 + c % 2) % 2 == (a % 2 + (b % 2 + c % 2) % 2) % 2
  {}

  lemma XorHalves(a: nat, b: nat)
    ensures Xor(a, b) % 2 == (a % 2 + b % 2) % 2 && Xor(a, b) / 2 == Xor(a / 2, b / 2)
  {}

  lemma {:induction false} XorBound(a: nat, b: nat, n: nat)
    requires a < Pow2(n) && b < Pow2(n)
    ensures Xor(a, b) < Pow2(n)
  {
    if n > 0 { XorBound(a / 2, b / 2, n - 1); }
  }

  lemma BaseIsPow2()
    ensures Pow2(64) == BASE
  {
    assert Pow2(8) == 256;
    assert Pow2(16) == 0x1_0000;
    assert Pow2(24) == 0x100_0000;
    assert Pow2(32) == 0x1_0000_0000;
    assert Pow2(40) == 0x100_0000_0000;
    assert Pow2(48) == 0x1_0000_0000_0000;
    assert Pow2(56) == 0x100_0000_0000_0000;
  }

  function XorW(a: Word, b: Word): Word {
    BaseIsPow2();
    XorBound(a, b, 64);
    Xor(a, b)
  }

  function ByteXor(a: Byte, b: Byte): Byte {
    assert Pow2(8) == 256;
    XorBound(a, b, 8);
    Xor(a, b)
  }

  /** Parity by parity and half by half, which determines both forms completely. */
  lemma XorWHalves(a: Word, b: Word)
    ensures XorW(a, b) % 2 == (a % 2 + b % 2) % 2 && XorW(a, b) / 2 == XorW(a / 2, b / 2)
    ensures XorW(0, 0) == 0
  {
    XorHalves(a, b);
    XorZero(0);
  }

  lemma ByteXorHalves(a: Byte, b: Byte)
    ensures ByteXor(a, b) % 2 == (a % 2 + b % 2) % 2 && ByteXor(a, b) / 2 == ByteXor(a / 2, b / 2)
    ensures ByteXor(0, 0) == 0
  {
    XorHalves(a, b);
    XorZero(0);
  }

  lemma {:induction false} XorSelf(a: nat)
    ensures Xor(a, a) == 0
  {
    if a > 0 { XorSelf(a / 2); }
  }

  /** Exclusive or with the same byte twice is no change. */
  lemma ByteXorTwice(a: Byte, b: Byte)
    ensures ByteXor(ByteXor(a, b), b) == a && ByteXor(a, b) == ByteXor(b, a)
  {
    XorAssociates(a, b, b);
    XorSelf(b);
    XorZero(a);
    XorCommutes(a, b);
  }

  // ---------------------------------------------------------------- bytes of a word, least significant first

  function ByteAt(w: nat, i: nat): Byte
    decreases i
  {
    if i == 0 then w % 256 else ByteAt(w / 256, i - 1)
  }

  /** The low 32 bits of a number, most significant byte first. */
  function BigEndian32(n: nat): (b: seq<Byte>)
    ensures |b| == 4
  {
    [(n / 0x100_0000) % 256, (n / 0x1_0000) % 256, (n / 0x100) % 256, n % 256]
  }

  function FromBytes(s: seq<Byte>): nat {
    if |s| == 0 then 0 else s[0] + 256 * FromBytes(s[1..])
  }

  function WordOf(s: seq<Byte>): Word
    requires |s| == 8
  {
    BaseIsPow2();
    FromBytesBound(s);
    FromBytes(s)
  }

  lemma Pow2Byte(n: nat)
    ensures Pow2(n + 8) == 256 * Pow2(n)
  {
    assert Pow2(n + 2) == 4 * Pow2(n);
    assert Pow2(n + 4) == 4 * Pow2(n + 2);
    assert Pow2(n + 6) == 4 * Pow2(n + 4);
    assert Pow2(n + 8) == 4 * Pow2(n + 6);
  }

  lemma {:induction false} FromBytesBound(s: seq<Byte>)
    ensures FromBytes(s) < Pow2(8 * |s|)
  {
    if |s| > 0 {
      FromBytesBound(s[1..]);
      Pow2Byte(8 * |s| - 8);
    }
  }

  /** The bytes of a number written in bytes are those bytes. */
  lemma {:induction false} ByteOfBytes(s: seq<Byte>, i: nat)
    requires i < |s|
    ensures ByteAt(FromBytes(s), i) == s[i]
  {
    FirstByteOf(s[0], FromBytes(s[1..]));
    if i > 0 { ByteOfBytes(s[1..], i - 1); }
  }

  lemma FirstByteOf(b: Byte, rest: nat)
    ensures (b + 256 * rest) % 256 == b && (b + 256 * rest) / 256 == rest
  {}

  /** A number is written by its bytes. */
  lemma {:induction false} BytesOfNumber(w: nat, s: seq<Byte>)
    requires w < Pow2(8 * |s|) && forall i :: 0 <= i < |s| ==> s[i] == ByteAt(w, i)
    ensures FromBytes(s) == w
  {
    if |s| > 0 {
      Pow2Byte(8 * |s| - 8);
      forall i | 0 <= i < |s| - 1 ensures s[1..][i] == ByteAt(w / 256, i) {
        assert s[i + 1] == ByteAt(w, i + 1);
      }
      assert s[0] == ByteAt(w, 0);
      BytesOfNumber(w / 256, s[1..]);
    }
  }

  lemma {:induction false} FromBytesConcat(a: seq<Byte>, b: seq<Byte>)
    ensures FromBytes(a + b) == FromBytes(a) + Pow2(8 * |a|) * FromBytes(b)
  {
    if |a| == 0 {
      assert a + b == b;
    } else {
      assert (a + b)[1..] == a[1..] + b;
      FromBytesConcat(a[1..], b);
      Pow2Byte(8 * |a| - 8);
      FromBytesFirst(a);
      FromBytesFirst(a + b);
      hide Pow2, FromBytes;
      TimesByte(Pow2(8 * |a| - 8), FromBytes(b));
    }
  }

  lemma FromBytesFirst(s: seq<Byte>)
    requires |s| > 0
    ensures FromBytes(s) == s[0] + 256 * FromBytes(s[1..])
  {}

  lemma TimesByte(p: nat, n: nat)
    ensures 256 * p * n == 256 * (p * n)
  {}
}
