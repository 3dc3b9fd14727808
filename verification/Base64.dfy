/** Base64 (section 4 of RFC 4648): three bytes as four letters, written and read through small buffers. The bit
    operations on bytes are divisions and remainders. */
module Base64 {
  import opened Words

  const BASE64_CHARS: string :=
    "ABCDEFGHI" + "JKLMNOPQR" + "STUVWXYZ" + "abcdefghi" + "jklmnopqr" + "stuvwxyz" + "0123456789" + "+/"

  type Sextet = n: nat | n < 64

  // ---------------------------------------------------------------- the alphabet

  /** The alphabet by ranges of character codes. */
  function Letter(v: Sextet): char {
    if v < 26 then 'A' + v as char
    else if v < 52 then 'a' + (v - 26) as char
    else if v < 62 then '0' + (v - 52) as char
    else if v == 62 then '+' else '/'
  }

  lemma AlphabetLetter(v: nat)
    ensures |BASE64_CHARS| == 64 && (v < 64 ==> BASE64_CHARS[v] == Letter(v))
  {}

  predicate IsAlnum(c: char) { '0' <= c <= '9' || 'A' <= c <= 'Z' || 'a' <= c <= 'z' }

  predicate IsBase64(c: char) { IsAlnum(c) || c == '+' || c == '/' }

  /** `base64_chars.find`: the first position of `c` from `from` on, 64 if there is none. */
  function Find(c: char, from: nat): (v: nat)
    requires from <= 64
    ensures from <= v <= 64
    decreases 64 - from
  {
    AlphabetLetter(from);
    if from == 64 || BASE64_CHARS[from] == c then from else Find(c, from + 1)
  }

  /** The value of a letter, by ranges of character codes. */
  function ValueOf(c: char): Sextet
    requires IsBase64(c)
  {
    if 'A' <= c <= 'Z' then c as int - 'A' as int
    else if 'a' <= c <= 'z' then c as int - 'a' as int + 26
    else if '0' <= c <= '9' then c as int - '0' as int + 52
    else if c == '+' then 62 else 63
  }

  /** The test by ranges accepts exactly the letters, and the search finds the value of each. */
  lemma {:induction false} FindsValue(c: char, from: nat)
    requires IsBase64(c) && from <= ValueOf(c)
    ensures Find(c, from) == ValueOf(c)
    decreases 64 - from
  {
    AlphabetLetter(from);
    hide Find;
    LetterOfValue(c);
    if from < ValueOf(c) {
      LettersDistinct(from, ValueOf(c));
      FindsValue(c, from + 1);
    }
    FindStep(c, from);
  }

  lemma FindStep(c: char, from: nat)
    requires from < 64
    ensures Find(c, from) == if Letter(from) == c then from else Find(c, from + 1)
  {
    AlphabetLetter(from);
  }

  lemma LetterOfValue(c: char)
    requires IsBase64(c)
    ensures Letter(ValueOf(c)) == c
  {}

  lemma ValueOfLetter(v: Sextet)
    ensures IsBase64(Letter(v)) && ValueOf(Letter(v)) == v && Letter(v) != '='
  {}

  lemma LettersDistinct(v: Sextet, w: Sextet)
    requires v < w
    ensures Letter(v) != Letter(w)
  {}

  // ---------------------------------------------------------------- the specification

  /** Three bytes as one number of 24 bits, and its four sextets. */
  function Sextets(a: Byte, b: Byte, c: Byte): (s: seq<Sextet>)
    ensures |s| == 4
  {
    var n := a * 0x1_0000 + b * 0x100 + c;
    [n / 0x4_0000, n / 0x1000 % 64, n / 0x40 % 64, n % 64]
  }

  /** Four sextets as one number of 24 bits, and its three bytes. */
  function Octets(a: Sextet, b: Sextet, c: Sextet, d: Sextet): (s: seq<Byte>)
    ensures |s| == 3
  {
    var n := a * 0x4_0000 + b * 0x1000 + c * 0x40 + d;
    [n / 0x1_0000, n / 0x100 % 256, n % 256]
  }

  function Text(values: seq<Sextet>): (s: string)
    ensures |s| == |values|
  {
    seq(|values|, i requires 0 <= i < |values| => Letter(values[i]))
  }

  function Encoded(x: seq<Byte>): string {
    if |x| == 0 then ""
    else if |x| == 1 then Text(Sextets(x[0], 0, 0)[..2]) + "=="
    else if |x| == 2 then Text(Sextets(x[0], x[1], 0)[..3]) + "="
    else Text(Sextets(x[0], x[1], x[2])) + Encoded(x[3..])
  }

  /** The values of the letters up to the first character that is not one. */
  function Values(s: string): seq<Sextet> {
    if |s| == 0 || !IsBase64(s[0]) then [] else [ValueOf(s[0])] + Values(s[1..])
  }

  function OctetsOf(values: seq<Sextet>): seq<Byte> {
    if |values| < 2 then []
    else if |values| == 2 then Octets(values[0], values[1], 0, 0)[..1]
    else if |values| == 3 then Octets(values[0], values[1], values[2], 0)[..2]
    else Octets(values[0], values[1], values[2], values[3]) + OctetsOf(values[4..])
  }

  function Decoded(s: string): seq<Byte> { OctetsOf(Values(s)) }

  // ---------------------------------------------------------------- round trip

  lemma OctetsOfSextets(a: Byte, b: Byte, c: Byte)
    ensures var s := Sextets(a, b, c); Octets(s[0], s[1], s[2], s[3]) == [a, b, c]
  {
    var n := a * 0x1_0000 + b * 0x100 + c;
    SplitSextets(n);
    SplitOctets(a, b, c);
  }

  lemma SplitSextets(n: nat)
    requires n < 0x100_0000
    ensures n == n / 0x4_0000 * 0x4_0000 + n / 0x1000 % 64 * 0x1000 + n / 0x40 % 64 * 0x40 + n % 64
  {
    var a, b, c := n / 0x40, n / 0x1000, n / 0x4_0000;
    assert a / 64 == b && b / 64 == c;
  }

  lemma SplitOctets(a: Byte, b: Byte, c: Byte)
    ensures var n := a * 0x1_0000 + b * 0x100 + c; n / 0x1_0000 == a && n / 0x100 % 256 == b && n % 256 == c
  {
    var n := a * 0x1_0000 + b * 0x100 + c;
    assert n / 0x100 == a * 0x100 + b;
  }

  /** Moving bits between bytes is cutting one number into sextets. */
  lemma SextetsByBits(a: Byte, b: Byte, c: Byte)
    ensures Sextets(a, b, c) == [a / 4, a % 4 * 16 + b / 16, b % 16 * 4 + c / 64, c % 64]
  {
    var n := a * 0x1_0000 + b * 0x100 + c;
    LowSextet(a * 0x400 + b * 4, c);
    assert n / 0x40 == a * 0x400 + b * 4 + c / 64 && n % 64 == c % 64;
    MiddleSextets(a, b, c / 64);
    var m := a * 0x400 + b * 4 + c / 64;
    assert n / 0x1000 == m / 64 by { assert n / 0x40 == m; }
    assert n / 0x4_0000 == m / 0x1000 by { assert n / 0x40 == m; }
  }

  lemma LowSextet(m: nat, c: Byte)
    ensures (m * 64 + c) / 64 == m + c / 64 && (m * 64 + c) % 64 == c % 64
  {}

  lemma MiddleSextets(a: Byte, b: Byte, c1: nat)
    requires c1 < 4
    ensures var m := a * 0x400 + b * 4 + c1;
      m / 64 == a * 16 + b / 16 && m % 64 == b % 16 * 4 + c1 && m / 64 % 64 == a % 4 * 16 + b / 16 && m / 0x1000 == a / 4
  {
    var m := a * 0x400 + b * 4 + c1;
    assert b == b / 16 * 16 + b % 16;
    assert m == (a * 16 + b / 16) * 64 + (b % 16 * 4 + c1);
    var k := a * 16 + b / 16;
    assert m / 64 == k;
    assert a == a / 4 * 4 + a % 4;
    assert k == a / 4 * 64 + (a % 4 * 16 + b / 16);
    assert k % 64 == a % 4 * 16 + b / 16 && k / 64 == a / 4;
    assert m / 0x1000 == k / 64;
  }

  lemma {:induction false} ValuesOfText(values: seq<Sextet>, rest: string)
    ensures Values(Text(values) + rest) == values + Values(rest)
  {
    var s := Text(values) + rest;
    if |values| == 0 {
      assert s == rest;
    } else {
      ValueOfLetter(values[0]);
      assert s[1..] == Text(values[1..]) + rest;
      ValuesOfText(values[1..], rest);
    }
  }

  lemma EncodedGroup(x: seq<Byte>)
    requires |x| >= 3
    ensures Encoded(x) == Text(Sextets(x[0], x[1], x[2])) + Encoded(x[3..])
  {
    hide Text, Sextets;
  }

  lemma EncodedNone()
    ensures Encoded([]) == ""
  {}

  /** Decoding an encoding followed by any text: after padding the text is ignored, without padding it is
      decoded as well. */
  lemma {:induction false} DecodeAfterEncode(x: seq<Byte>, text: string)
    ensures Decoded(Encoded(x) + text) == if |x| % 3 == 0 then x + Decoded(text) else x
  {
    hide Sextets, Octets, Text, Encoded, OctetsOf, Values, Decoded;
    if |x| == 0 {
      EncodedNone();
      assert x == [];
      assert "" + text == text;
      assert [] + Decoded(text) == Decoded(text);
    } else if |x| < 3 {
      ShortGroup(x, text);
    } else {
      DecodedGroup(x, text);
      DecodeAfterEncode(x[3..], text);
      assert |x[3..]| % 3 == |x| % 3;
      assert x == [x[0], x[1], x[2]] + x[3..];
      assert [x[0], x[1], x[2]] + (x[3..] + Decoded(text)) == x + Decoded(text);
    }
  }

  lemma DecodedGroup(x: seq<Byte>, text: string)
    requires |x| >= 3
    ensures Decoded(Encoded(x) + text) == [x[0], x[1], x[2]] + Decoded(Encoded(x[3..]) + text)
  {
    hide *;
    var v := Sextets(x[0], x[1], x[2]);
    EncodedGroup(x);
    Associate(Text(v), Encoded(x[3..]), text);
    DecodedText(v, Encoded(x[3..]) + text);
    OctetsOfSextets(x[0], x[1], x[2]);
  }

  lemma Associate(a: string, b: string, c: string)
    ensures a + b + c == a + (b + c)
  {}

  lemma DecodedText(v: seq<Sextet>, rest: string)
    requires |v| == 4
    ensures Decoded(Text(v) + rest) == Octets(v[0], v[1], v[2], v[3]) + Decoded(rest)
  {
    hide Octets, Text, OctetsOf, Values;
    ValuesOfText(v, rest);
    FullGroup(v, Values(rest));
  }

  lemma ShortGroup(x: seq<Byte>, text: string)
    requires 1 <= |x| <= 2
    ensures Decoded(Encoded(x) + text) == x
  {
    hide Sextets, Octets, Text, Values, OctetsOf;
    var b := if |x| == 2 then x[1] else 0;
    var v := Sextets(x[0], b, 0);
    SextetsByBits(x[0], b, 0);
    OctetsOfSextets(x[0], b, 0);
    if |x| == 1 {
      ShortTail(v, 2, "==", text);
      OneOctet(v);
      assert x == [x[0]];
    } else {
      ShortTail(v, 3, "=", text);
      TwoOctets(v);
      assert x == [x[0], x[1]];
    }
  }

  lemma OneOctet(v: seq<Sextet>)
    requires |v| == 4 && v[2] == v[3] == 0
    ensures OctetsOf(v[..2]) == [Octets(v[0], v[1], v[2], v[3])[0]]
  {
    hide Octets;
  }

  lemma TwoOctets(v: seq<Sextet>)
    requires |v| == 4 && v[3] == 0
    ensures var o := Octets(v[0], v[1], v[2], v[3]); OctetsOf(v[..3]) == [o[0], o[1]]
  {
    hide Octets;
  }

  lemma FullGroup(v: seq<Sextet>, rest: seq<Sextet>)
    requires |v| == 4
    ensures OctetsOf(v + rest) == Octets(v[0], v[1], v[2], v[3]) + OctetsOf(rest)
  {
    assert (v + rest)[4..] == rest;
  }

  lemma ShortTail(v: seq<Sextet>, k: nat, pad: string, text: string)
    requires |v| == 4 && k <= 4 && |pad| > 0 && pad[0] == '='
    ensures Values(Text(v[..k]) + pad + text) == v[..k]
  {
    assert Text(v[..k]) + pad + text == Text(v[..k]) + (pad + text);
    ValuesOfText(v[..k], pad + text);
  }

  /** `base64_decode(base64_encode(x)) == x`. */
  lemma RoundTrip(x: seq<Byte>)
    ensures Decoded(Encoded(x)) == x
  {
    DecodeAfterEncode(x, "");
    assert Encoded(x) + "" == Encoded(x);
  }

  /** Three bytes for every four letters, and one less than the letters left over. */
  lemma {:induction false} DecodedLength(values: seq<Sextet>)
    ensures |OctetsOf(values)| == |values| / 4 * 3 + if |values| % 4 == 0 then 0 else |values| % 4 - 1
  {
    hide Octets;
    if |values| >= 4 { DecodedLength(values[4..]); }
  }

  /** Letters left over give the bytes their values complete; what is beyond a byte does not count. */
  lemma LeftOverOctets(a: Sextet, b: Sextet, c: Sextet)
    ensures OctetsOf([a]) == [] && OctetsOf([a, b]) == [a * 4 + b / 16]
    ensures OctetsOf([a, b, c]) == [a * 4 + b / 16, b % 16 * 16 + c / 4]
  {
    OctetsByBits(a, b, 0, 0);
    OctetsByBits(a, b, c, 0);
    NothingCut(a, b, 0, 0);
    NothingCut(a, b, c, 0);
    hide Octets, FirstByte, SecondByte, ThirdByte;
  }

  /** The examples of section 10 of RFC 4648 for one to three bytes, and the last two letters of the alphabet. */
  lemma Examples()
    ensures Encoded([0x66]) == "Zg==" && Encoded([0x66, 0x6f]) == "Zm8=" && Encoded([0x66, 0x6f, 0x6f]) == "Zm9v"
    ensures Encoded([0xfb, 0xff, 0xfe]) == "+//+"
  {
    assert Sextets(0x66, 0, 0) == [25, 32, 0, 0];
    assert Sextets(0x66, 0x6f, 0) == [25, 38, 60, 0];
    assert Sextets(0x66, 0x6f, 0x6f) == [25, 38, 61, 47];
    assert Sextets(0xfb, 0xff, 0xfe) == [62, 63, 63, 62];
    hide Sextets;
    assert Encoded([]) == "";
    EncodedGroup([0x66, 0x6f, 0x6f]);
    EncodedGroup([0xfb, 0xff, 0xfe]);
  }

  /** Four characters for every three bytes begun; letters, with padding only at the end. */
  lemma {:induction false} EncodedForm(x: seq<Byte>)
    ensures |Encoded(x)| == (|x| + 2) / 3 * 4
    ensures var pad := (3 - |x| % 3) % 3;
      forall i :: 0 <= i < |Encoded(x)| ==> (Encoded(x)[i] == '=' <==> i >= |Encoded(x)| - pad)
  {
    hide Sextets, Text;
    if |x| == 1 {
      TextIsLetters(Sextets(x[0], 0, 0)[..2]);
    } else if |x| == 2 {
      TextIsLetters(Sextets(x[0], x[1], 0)[..3]);
    } else if |x| >= 3 {
      EncodedGroup(x);
      EncodedForm(x[3..]);
      TextIsLetters(Sextets(x[0], x[1], x[2]));
    }
  }

  lemma TextIsLetters(v: seq<Sextet>)
    ensures forall i :: 0 <= i < |v| ==> Text(v)[i] != '='
  {
    forall i | 0 <= i < |v| ensures Text(v)[i] != '=' { ValueOfLetter(v[i]); }
  }

  // ---------------------------------------------------------------- the loops of base64_encode

  /** The first three of the four values, as both parts of `base64_encode` compute them. */
  method Regroup(char_array_3: array<Byte>, char_array_4: array<Byte>)
    requires char_array_3.Length == 3 && char_array_4.Length == 4 && char_array_3 != char_array_4
    modifies char_array_4
    ensures char_array_4[..3] == Sextets(char_array_3[0], char_array_3[1], char_array_3[2])[..3]
  {
    SextetsByBits(char_array_3[0], char_array_3[1], char_array_3[2]);
    hide Sextets;
    char_array_4[0] := char_array_3[0] / 4;
    char_array_4[1] := char_array_3[0] % 4 * 16 + char_array_3[1] / 16;
    char_array_4[2] := char_array_3[1] % 16 * 4 + char_array_3[2] / 64;
  }

  /** The loops that append the letters of the first `n` values. */
  method AppendLetters(ret: string, char_array_4: array<Byte>, n: nat) returns (ret': string)
    requires n <= char_array_4.Length && forall k :: 0 <= k < n ==> char_array_4[k] < 64
    ensures ret' == ret + Text(char_array_4[..n])
  {
    hide Letter;
    ret' := ret;
    for i := 0 to n
      invariant ret' == ret + Text(char_array_4[..i])
    {
      AlphabetLetter(char_array_4[i]);
      assert Text(char_array_4[..i + 1]) == Text(char_array_4[..i]) + [Letter(char_array_4[i])];
      ret' := ret' + [BASE64_CHARS[char_array_4[i]]];
    }
  }

  method Encode(bytes: seq<Byte>) returns (ret: string)
    ensures ret == Encoded(bytes)
  {
    hide *;
    ret := "";
    var i, at, in_len := 0, 0, |bytes|;
    var char_array_3 := new Byte[3];
    var char_array_4 := new Byte[4];
    ghost var pending: seq<Byte> := [];
    NothingPending(bytes, 0);
    while in_len > 0
      invariant at + in_len == |bytes| && at <= |bytes| && i == |pending| < 3 && char_array_3[..i] == pending
      invariant ret + Encoded(pending + bytes[at..]) == Encoded(bytes)
    {
      in_len := in_len - 1;
      TakeNext(pending, bytes, at);
      assert forall k :: 0 <= k < i ==> char_array_3[k] == char_array_3[..i][k];
      pending := pending + [bytes[at]];
      char_array_3[i] := bytes[at];
      i, at := i + 1, at + 1;
      assert char_array_3[..i] == pending;
      if i == 3 {
        ret := EncodeGroup(ret, char_array_3, char_array_4, bytes[at..]);
        i, pending := 0, [];
        assert char_array_3[..0] == [];
        NothingPending(bytes, at);
      }
    }
    assert pending + bytes[at..] == pending;
    ret := EncodeTail(ret, char_array_3, char_array_4, i);
  }

  lemma NothingPending(bytes: seq<Byte>, at: nat)
    requires at <= |bytes|
    ensures [] + bytes[at..] == bytes[at..] && bytes[0..] == bytes
    ensures "" + Encoded(bytes) == Encoded(bytes)
  {
    hide *;
  }

  lemma TakeNext(pending: seq<Byte>, bytes: seq<Byte>, at: nat)
    requires at < |bytes|
    ensures pending + bytes[at..] == (pending + [bytes[at]]) + bytes[at + 1..]
  {}

  method EncodeGroup(ret: string, char_array_3: array<Byte>, char_array_4: array<Byte>, ghost rest: seq<Byte>)
      returns (ret': string)
    requires char_array_3.Length == 3 && char_array_4.Length == 4 && char_array_3 != char_array_4
    modifies char_array_4
    ensures ret' + Encoded(rest) == ret + Encoded(char_array_3[..3] + rest)
  {
    hide *;
    ghost var a, b, c := char_array_3[0], char_array_3[1], char_array_3[2];
    Regroup(char_array_3, char_array_4);
    SextetsByBits(a, b, c);
    char_array_4[3] := char_array_3[2] % 64;
    assert char_array_4[..4] == Sextets(a, b, c);
    ret' := AppendLetters(ret, char_array_4, 4);
    EncodedCons(a, b, c, rest);
    assert char_array_3[..3] == [a, b, c];
    Associate(ret, Text(Sextets(a, b, c)), Encoded(rest));
  }

  lemma EncodedCons(a: Byte, b: Byte, c: Byte, rest: seq<Byte>)
    ensures Encoded([a, b, c] + rest) == Text(Sextets(a, b, c)) + Encoded(rest)
  {
    EncodedGroup([a, b, c] + rest);
    hide *;
    assert ([a, b, c] + rest)[3..] == rest;
  }

  /** What is left over, filled with zeros, and the padding. */
  method EncodeTail(ret: string, char_array_3: array<Byte>, char_array_4: array<Byte>, i0: nat) returns (ret': string)
    requires char_array_3.Length == 3 && char_array_4.Length == 4 && char_array_3 != char_array_4 && i0 < 3
    modifies char_array_3, char_array_4
    ensures ret' == ret + old(Encoded(char_array_3[..i0]))
  {
    ghost var left := char_array_3[..i0];
    ret' := ret;
    var i := i0;
    if i != 0 {
      hide Sextets, Text;
      for j := i to 3
        invariant char_array_3[..i] == left && forall k :: i <= k < j ==> char_array_3[k] == 0
      {
        char_array_3[j] := 0;
      }
      Regroup(char_array_3, char_array_4);
      assert char_array_4[..i + 1] == Sextets(left[0], if i == 2 then left[1] else 0, 0)[..i + 1] by {
        assert char_array_4[..i + 1] == char_array_4[..3][..i + 1];
        assert left[0] == char_array_3[0] && (i == 2 ==> left[1] == char_array_3[1]);
      }
      ret' := AppendLetters(ret', char_array_4, i + 1);
      ghost var letters := ret';
      while i < 3
        invariant i0 <= i <= 3 && ret' == letters + Padding(i - i0)
      {
        assert Padding(i + 1 - i0) == Padding(i - i0) + "=";
        i := i + 1;
        ret' := ret' + "=";
      }
      assert Padding(1) == "=" && Padding(2) == "==";
    }
  }

  function Padding(k: nat): string { seq(k, _ => '=') }

  // ---------------------------------------------------------------- the loops of base64_decode

  /** `pending` is the value of the letters in the first cells of `a`. */
  ghost predicate Holds(a: array<Byte>, pending: seq<Sextet>)
    reads a
  {
    && |pending| <= a.Length
    && forall k :: 0 <= k < |pending| ==> IsBase64(a[k] as char) && ValueOf(a[k] as char) == pending[k]
  }

  /** Replaces the first `n` letters by their values. */
  method FindAll(char_array_4: array<Byte>, n: nat, ghost pending: seq<Sextet>)
    requires n == |pending| && Holds(char_array_4, pending)
    modifies char_array_4
    ensures char_array_4[..n] == pending
  {
    hide Find, ValueOf, IsBase64;
    for i := 0 to n
      invariant forall k :: 0 <= k < i ==> char_array_4[k] == pending[k]
      invariant forall k :: i <= k < n ==> char_array_4[k] == old(char_array_4[k])
    {
      FindsValue(char_array_4[i] as char, 0);
      char_array_4[i] := Find(char_array_4[i] as char, 0);
    }
  }

  // The bytes four values join to, cut to 8 bits.
  function FirstByte(a: nat, b: nat): Byte { (a * 4 + b / 16 % 4) % 256 }
  function SecondByte(b: nat, c: nat): Byte { (b % 16 * 16 + c / 4 % 16) % 256 }
  function ThirdByte(c: nat, d: nat): Byte { (c % 4 * 64 + d) % 256 }

  /** The first two bytes, as both parts of `base64_decode` compute them. */
  method Join(char_array_4: array<Byte>, char_array_3: array<Byte>)
    requires char_array_3.Length == 3 && char_array_4.Length == 4 && char_array_3 != char_array_4
    modifies char_array_3
    ensures char_array_3[0] == FirstByte(char_array_4[0], char_array_4[1])
    ensures char_array_3[1] == SecondByte(char_array_4[1], char_array_4[2])
  {
    char_array_3[0] := FirstByte(char_array_4[0], char_array_4[1]);
    char_array_3[1] := SecondByte(char_array_4[1], char_array_4[2]);
  }

  method AppendBytes(ret: seq<Byte>, char_array_3: array<Byte>, n: nat) returns (ret': seq<Byte>)
    requires n <= char_array_3.Length
    ensures ret' == ret + char_array_3[..n]
  {
    ret' := ret;
    for i := 0 to n
      invariant ret' == ret + char_array_3[..i]
    {
      ret' := ret' + [char_array_3[i]];
    }
  }

  method DecodeGroup(ret: seq<Byte>, char_array_4: array<Byte>, char_array_3: array<Byte>, ghost pending: seq<Sextet>,
                     ghost rest: seq<Sextet>)
      returns (ret': seq<Byte>)
    requires char_array_3.Length == 3 && char_array_4.Length == 4 && char_array_3 != char_array_4
    requires |pending| == 4 && Holds(char_array_4, pending)
    modifies char_array_3, char_array_4
    ensures ret' + OctetsOf(rest) == ret + OctetsOf(pending + rest)
  {
    hide *;
    FindAll(char_array_4, 4, pending);
    var a, b, c, d := char_array_4[0], char_array_4[1], char_array_4[2], char_array_4[3];
    assert a == pending[0] && b == pending[1] && c == pending[2] && d == pending[3];
    Join(char_array_4, char_array_3);
    char_array_3[2] := ThirdByte(char_array_4[2], char_array_4[3]);
    OctetsByBits(a, b, c, d);
    assert char_array_3[..3] == Octets(a, b, c, d);
    ret' := AppendBytes(ret, char_array_3, 3);
    FullGroup(pending, rest);
    assert ret + Octets(a, b, c, d) + OctetsOf(rest) == ret + (Octets(a, b, c, d) + OctetsOf(rest));
  }

  /** Moving bits between values is cutting one number into bytes. */
  lemma OctetsByBits(a: Sextet, b: Sextet, c: Sextet, d: Sextet)
    ensures Octets(a, b, c, d) == [FirstByte(a, b), SecondByte(b, c), ThirdByte(c, d)]
  {
    ByteValues(a, b, c, d);
    var o0, o1, o2 := FirstByte(a, b), SecondByte(b, c), ThirdByte(c, d);
    hide FirstByte, SecondByte, ThirdByte;
    SplitOctets(o0, o1, o2);
  }

  lemma ByteValues(a: Sextet, b: Sextet, c: Sextet, d: Sextet)
    ensures a * 0x4_0000 + b * 0x1000 + c * 0x40 + d ==
      FirstByte(a, b) * 0x1_0000 + SecondByte(b, c) * 0x100 + ThirdByte(c, d)
  {
    hide FirstByte, SecondByte, ThirdByte;
    NothingCut(a, b, c, d);
    assert c == c / 4 * 4 + c % 4 && b == b / 16 * 16 + b % 16;
  }

  lemma NothingCut(a: Sextet, b: Sextet, c: Sextet, d: Sextet)
    ensures FirstByte(a, b) == a * 4 + b / 16
    ensures SecondByte(b, c) == b % 16 * 16 + c / 4
    ensures ThirdByte(c, d) == c % 4 * 64 + d
  {}

  /** One to three letters left over; the cells after them hold anything. */
  method DecodeTail(ret: seq<Byte>, char_array_4: array<Byte>, char_array_3: array<Byte>, ghost pending: seq<Sextet>, i: nat)
      returns (ret': seq<Byte>)
    requires char_array_3.Length == 3 && char_array_4.Length == 4 && char_array_3 != char_array_4
    requires |pending| == i < 4 && Holds(char_array_4, pending)
    modifies char_array_3, char_array_4
    ensures ret' == ret + OctetsOf(pending)
  {
    ret' := ret;
    if i != 0 {
      hide Octets, Holds;
      FindAll(char_array_4, i, pending);
      Join(char_array_4, char_array_3);
      ghost var a, b, c := pending[0], if i > 1 then pending[1] else 0, if i > 2 then pending[2] else 0;
      OctetsByBits(a, b, c, 0);
      assert forall k :: 0 <= k < i ==> char_array_4[k] == char_array_4[..i][k];
      ret' := AppendBytes(ret', char_array_3, i - 1);
      assert i == 2 ==> char_array_3[..1] == Octets(a, b, 0, 0)[..1];
      assert i == 3 ==> char_array_3[..2] == Octets(a, b, c, 0)[..2];
    }
  }

  method Decode(s: string) returns (ret: seq<Byte>)
    ensures ret == Decoded(s)
  {
    hide *;
    ret := [];
    var i, in_, in_len := 0, 0, |s|;
    var char_array_3 := new Byte[3];
    var char_array_4 := new Byte[4];
    ghost var pending: seq<Sextet> := [];
    DecodingStarts(s, char_array_4);
    while in_len > 0 && s[in_] != '=' && IsBase64(s[in_])
      invariant in_ + in_len == |s| && in_ <= |s| && i == |pending| < 4 && Holds(char_array_4, pending)
      invariant ret + OctetsOf(pending + Values(s[in_..])) == Decoded(s)
    {
      in_len := in_len - 1;
      AsciiLetter(s[in_]);
      NextValue(s, in_, pending);
      pending := HoldOne(char_array_4, i, s[in_], pending);
      i, in_ := i + 1, in_ + 1;
      if i == 4 {
        ret := DecodeGroup(ret, char_array_4, char_array_3, pending, Values(s[in_..]));
        pending := [];
        i := 0;
        HoldsNone(char_array_4);
        assert [] + Values(s[in_..]) == Values(s[in_..]);
      }
    }
    NoMoreValues(s, in_, pending);
    ret := DecodeTail(ret, char_array_4, char_array_3, pending, i);
  }

  lemma DecodingStarts(s: string, a: array<Byte>)
    ensures [] + OctetsOf([] + Values(s[0..])) == Decoded(s) && Holds(a, [])
  {
    assert s[0..] == s;
    assert [] + Values(s) == Values(s);
  }

  lemma HoldsNone(a: array<Byte>)
    ensures Holds(a, [])
  {}

  lemma AsciiLetter(c: char)
    requires IsBase64(c)
    ensures c as int < 128
  {}

  method HoldOne(char_array_4: array<Byte>, i: nat, c: char, ghost pending: seq<Sextet>) returns (ghost pending': seq<Sextet>)
    requires i == |pending| < char_array_4.Length && Holds(char_array_4, pending) && IsBase64(c) && c as int < 128
    modifies char_array_4
    ensures pending' == pending + [ValueOf(c)] && Holds(char_array_4, pending')
  {
    hide IsBase64, ValueOf;
    char_array_4[i] := c as int;
    pending' := pending + [ValueOf(c)];
  }

  lemma NextValue(s: string, at: nat, pending: seq<Sextet>)
    requires at < |s| && IsBase64(s[at])
    ensures pending + Values(s[at..]) == pending + [ValueOf(s[at])] + Values(s[at + 1..])
  {
    assert s[at..][1..] == s[at + 1..];
  }

  lemma NoMoreValues(s: string, at: nat, pending: seq<Sextet>)
    requires at <= |s| && (at < |s| ==> s[at] == '=' || !IsBase64(s[at]))
    ensures pending + Values(s[at..]) == pending
  {
    assert !IsBase64('=');
  }
}
