/** The base-58 codec: long division in place, output written from the right into buffers sized by hand. */
module Safe58 {
  import opened Words
  import opened Radix

  datatype Result<T> = Ok(value: T) | InvalidArgument

  const ALPHABET: string := "123456789" + "ABCDEFGH" + "JKLMN" + "PQRSTUVWXYZ" + "abcdefghijk" + "mnopqrstuvwxyz"

  // ---------------------------------------------------------------- the alphabet and its inverse

  /** The position of `c` among the first `n` characters of the alphabet, or -1. */
  function Index(c: char, n: nat): (i: int)
    requires n <= 58
    ensures -1 <= i < n && (i >= 0 ==> ALPHABET[i] == c)
    ensures i == -1 ==> forall m :: 0 <= m < n ==> ALPHABET[m] != c
  {
    AlphabetLetter(n);
    if n == 0 then -1 else if ALPHABET[n - 1] == c then n - 1 else Index(c, n - 1)
  }

  /** The table of `INDEXES`, filled by a loop over the alphabet. */
  method BuildIndexes() returns (res: array<int>)
    ensures fresh(res) && res.Length == 128
    ensures forall c: char :: c as int < 128 ==> res[c as int] == Index(c, 58)
  {
    res := new int[128](_ => -1);
    for i := 0 to 58
      invariant forall c: char :: c as int < 128 ==> res[c as int] == Index(c, i)
    {
      AlphabetLetter(i);
      LetterIsAscii(i);
      res[ALPHABET[i] as int] := i;
    }
  }

  /** The alphabet by ranges of character codes. */
  function Letter(i: nat): char
    requires i < 58
  {
    if i < 9 then '1' + i as char
    else if i < 17 then 'A' + (i - 9) as char
    else if i < 22 then 'J' + (i - 17) as char
    else if i < 33 then 'P' + (i - 22) as char
    else if i < 44 then 'a' + (i - 33) as char
    else 'm' + (i - 44) as char
  }

  lemma AlphabetLetter(i: nat)
    ensures |ALPHABET| == 58 && (i < 58 ==> ALPHABET[i] == Letter(i))
  {}

  lemma LettersIncrease(i: nat, j: nat)
    requires i < j < 58
    ensures Letter(i) < Letter(j)
  {}

  lemma LetterIsAscii(i: nat)
    requires i < 58
    ensures Letter(i) as int < 128
  {}

  lemma IndexOfLetter(i: nat)
    requires i < 58
    ensures Index(ALPHABET[i], 58) == i
  {
    AlphabetLetter(i);
    var k := Index(ALPHABET[i], 58);
    if k >= 0 {
      AlphabetLetter(k);
      hide Index;
      if k < i { LettersIncrease(k, i); }
      if k > i { LettersIncrease(i, k); }
    }
  }

  function ToText(digits: seq<nat>): (s: string)
    requires Digits(digits, 58)
    ensures |s| == |digits|
  {
    AlphabetLetter(0);
    seq(|digits|, i requires 0 <= i < |digits| => ALPHABET[digits[i]])
  }

  predicate IsText(s: string) { forall i :: 0 <= i < |s| ==> Index(s[i], 58) >= 0 }

  function FromText(s: string): (digits: seq<nat>)
    requires IsText(s)
    ensures |digits| == |s| && Digits(digits, 58)
  {
    seq(|s|, i requires 0 <= i < |s| => Index(s[i], 58))
  }

  lemma TextRoundTrip(digits: seq<nat>)
    requires Digits(digits, 58)
    ensures IsText(ToText(digits)) && FromText(ToText(digits)) == digits
  {
    forall i | 0 <= i < |digits| ensures Index(ToText(digits)[i], 58) == digits[i] { IndexOfLetter(digits[i]); }
  }

  // ---------------------------------------------------------------- long division

  /** Divides the big-endian number from `startAt` on by 58, in place. */
  method DivMod58(number: array<Byte>, startAt: nat) returns (remainder: nat)
    requires startAt < number.Length
    modifies number
    ensures remainder < 58 && number[..startAt] == old(number[..startAt])
    ensures Num(old(number[startAt..]), 256) == 58 * Num(number[startAt..], 256) + remainder
    ensures number[startAt] == old(number[startAt]) / 58
    ensures 0 < old(number[startAt]) < 58 && startAt + 1 < number.Length ==> number[startAt + 1] >= 4
  {
    hide Num;
    ghost var was := number[..];
    ghost var whole, quotient: seq<nat> := [], [];
    NumNone(256);
    remainder := 0;
    for i := startAt to number.Length
      invariant remainder < 58
      invariant number[..startAt] == was[..startAt] && forall m :: i <= m < number.Length ==> number[m] == was[m]
      invariant whole == was[startAt..i] && quotient == number[startAt..i]
      invariant Num(whole, 256) == 58 * Num(quotient, 256) + remainder
      invariant i > startAt ==> number[startAt] == was[startAt] / 58
      invariant i == startAt + 1 ==> remainder == was[startAt] % 58
      invariant i > startAt + 1 && 0 < was[startAt] < 58 ==> number[startAt + 1] >= 4
    {
      var digit256 := number[i];
      var temp := remainder * 256 + digit256;
      DivisionStep(whole, quotient, digit256, remainder, 256, 58);
      whole, quotient := whole + [digit256], quotient + [temp / 58];
      number[i] := temp / 58;
      remainder := temp % 58;
    }
    assert whole == was[startAt..] && quotient == number[startAt..];
  }

  lemma NumNone(b: nat)
    ensures Num([], b) == 0
  {}

  ghost predicate Small(a: array<Byte>)
    reads a
  {
    forall i :: 0 <= i < a.Length ==> a[i] < 58
  }

  /** Divides the radix-58 number from `startAt` on by 256, in place. */
  method DivMod256(number58: array<Byte>, startAt: nat) returns (remainder: nat)
    requires startAt < number58.Length && Small(number58)
    modifies number58
    ensures remainder < 256 && number58[..startAt] == old(number58[..startAt]) && Small(number58)
    ensures Num(old(number58[startAt..]), 58) == 256 * Num(number58[startAt..], 58) + remainder
    ensures number58[startAt] == 0
  {
    hide Num;
    ghost var was := number58[..];
    ghost var whole, quotient: seq<nat> := [], [];
    NumNone(58);
    remainder := 0;
    for i := startAt to number58.Length
      invariant remainder < 256 && Small(number58)
      invariant number58[..startAt] == was[..startAt] && forall m :: i <= m < number58.Length ==> number58[m] == was[m]
      invariant whole == was[startAt..i] && quotient == number58[startAt..i]
      invariant Num(whole, 58) == 256 * Num(quotient, 58) + remainder
      invariant i > startAt ==> number58[startAt] == 0
    {
      var digit58 := number58[i];
      var temp := remainder * 58 + digit58;
      DivisionStep(whole, quotient, digit58, remainder, 58, 256);
      whole, quotient := whole + [digit58], quotient + [temp / 256];
      number58[i] := temp / 256;
      remainder := temp % 256;
    }
    assert whole == was[startAt..] && quotient == number58[startAt..];
  }

  /** One digit of the division keeps value = radix * quotient + remainder. */
  lemma DivisionStep(whole: seq<nat>, quotient: seq<nat>, digit: nat, rem: nat, b: nat, c: nat)
    requires (b == 256 && c == 58) || (b == 58 && c == 256)
    requires Num(whole, b) == c * Num(quotient, b) + rem
    ensures var temp := rem * b + digit;
      Num(whole + [digit], b) == c * Num(quotient + [temp / c], b) + temp % c
  {
    var temp := rem * b + digit;
    assert (whole + [digit])[..|whole|] == whole;
    assert (quotient + [temp / c])[..|quotient|] == quotient;
    var n, q := Num(whole, b), Num(quotient, b);
    assert Num(whole + [digit], b) == b * n + digit;
    assert Num(quotient + [temp / c], b) == b * q + temp / c;
    hide Num;
    if b == 256 { Step256(n, q, digit, rem); } else { Step58(n, q, digit, rem); }
  }

  lemma Step256(n: nat, q: nat, digit: nat, rem: nat)
    requires n == 58 * q + rem
    ensures var temp := rem * 256 + digit; 256 * n + digit == 58 * (256 * q + temp / 58) + temp % 58
  {}

  lemma Step58(n: nat, q: nat, digit: nat, rem: nat)
    requires n == 256 * q + rem
    ensures var temp := rem * 58 + digit; 58 * n + digit == 256 * (58 * q + temp / 256) + temp % 256
  {}

  // ---------------------------------------------------------------- encoding

  lemma StripZero(s: seq<nat>, b: nat)
    requires IsRadix(b) && |s| > 0 && s[0] == 0
    ensures Num(s, b) == Num(s[1..], b)
  {
    assert s == Zeros(1) + s[1..];
    NumAfterZeros(1, s[1..], b);
  }

  lemma CountZeros(s: seq<nat>, z: nat)
    requires z <= |s| && (forall i :: 0 <= i < z ==> s[i] == 0) && (z < |s| ==> s[z] != 0)
    ensures z == LeadingZeros(s)
  {}

  /** One output digit: what is left to write shortens by its last digit. */
  lemma RepStep(n: nat, q: nat, d: nat, b: nat, out: seq<nat>, all: seq<nat>)
    requires IsRadix(b) && n > 0 && n == b * q + d && d < b && all == Rep(n, b) + out
    ensures all == Rep(q, b) + ([d] + out)
  {
    DivMod(b, q, d);
  }

  lemma TextCons(d: nat, out: seq<nat>)
    requires d < 58 && Digits(out, 58)
    ensures Digits([d] + out, 58) && ToText([d] + out) == [ALPHABET[d]] + ToText(out)
  {
    AlphabetLetter(d);
    forall i | 0 <= i < |out| + 1 ensures ([d] + out)[i] < 58 {
      if i > 0 { assert ([d] + out)[i] == out[i - 1]; }
    }
  }

  method CountLeading(a: array<Byte>) returns (zeroCount: nat)
    ensures zeroCount == LeadingZeros(a[..])
  {
    zeroCount := 0;
    while zeroCount < a.Length && a[zeroCount] == 0
      invariant zeroCount <= a.Length && forall i :: 0 <= i < zeroCount ==> a[i] == 0
    {
      zeroCount := zeroCount + 1;
    }
    CountZeros(a[..], zeroCount);
  }

  /** `digits` splits into what `input` still holds from `startAt` on and the letters written from `j` on. */
  ghost predicate Encoding(input: array<Byte>, startAt: nat, temp: array<char>, j: nat, out: seq<nat>, digits: seq<nat>)
    reads input, temp
  {
    && startAt <= input.Length && j <= temp.Length
    && (startAt < input.Length ==> input[startAt] != 0)
    && digits == Rep(Num(input[startAt..], 256), 58) + out
    && Digits(out, 58) && temp[j..] == ToText(out)
  }

  /** The main loop of `encode` and the stripping after it: the significant digits, right-aligned in a
      buffer of two cells a byte. */
  method WriteDigits(input: array<Byte>, zeroCount: nat) returns (temp: array<char>, j: nat)
    requires zeroCount <= input.Length && (zeroCount < input.Length ==> input[zeroCount] != 0)
    modifies input
    ensures fresh(temp) && temp.Length == 2 * input.Length && 2 * zeroCount <= j <= temp.Length
    ensures var digits := Rep(Num(old(input[zeroCount..]), 256), 58);
      Digits(digits, 58) && temp[j..] == ToText(digits)
  {
    ghost var v := Num(input[zeroCount..], 256);
    ghost var digits, out: seq<nat> := Rep(v, 58), [];
    temp := new char[2 * input.Length];
    j := temp.Length;
    var startAt := zeroCount;
    assert Encoding(input, startAt, temp, j, out, digits);
    hide Num, Rep, Encoding, ToText;
    while startAt < input.Length
      invariant zeroCount <= startAt <= input.Length && j <= temp.Length
      invariant Encoding(input, startAt, temp, j, out, digits)
      invariant temp.Length - j <= 2 * (startAt - zeroCount) + if startAt < input.Length && input[startAt] <= 4 then 1 else 0
      decreases Num(input[startAt..], 256)
    {
      out := WriteDigit(input, startAt, temp, j, out, digits);
      j := j - 1;
      if input[startAt] == 0 { startAt := startAt + 1; }
    }
    EncodingEnds(input, startAt, temp, j, out, digits);
    j := StripOnes(temp, j, v);
  }

  /** One pass: divides what is left by 58 and writes the letter of the remainder. */
  method WriteDigit(input: array<Byte>, startAt: nat, temp: array<char>, j: nat, ghost out: seq<nat>, ghost digits: seq<nat>)
      returns (ghost out': seq<nat>)
    requires startAt < input.Length && 0 < j && Encoding(input, startAt, temp, j, out, digits)
    modifies input, temp
    ensures var next := if input[startAt] == 0 then startAt + 1 else startAt;
      && Encoding(input, next, temp, j - 1, out', digits)
      && Num(input[next..], 256) < Num(old(input[startAt..]), 256)
    ensures input[startAt] == old(input[startAt]) / 58
  {
    hide Num, Rep, ToText;
    ghost var before, text := input[startAt..], temp[j..];
    NumPositive(before, 256);
    var mod := DivMod58(input, startAt);
    ghost var after := input[startAt..];
    RepStep(Num(before, 256), Num(after, 256), mod, 58, out, digits);
    TextCons(mod, out);
    out' := [mod] + out;
    if input[startAt] == 0 {
      StripZero(after, 256);
      assert after[1..] == input[startAt + 1..];
    }
    temp[j - 1] := ALPHABET[mod];
    assert temp[j - 1..] == [ALPHABET[mod]] + text;
  }

  lemma EncodingEnds(input: array<Byte>, startAt: nat, temp: array<char>, j: nat, out: seq<nat>, digits: seq<nat>)
    requires startAt == input.Length && Encoding(input, startAt, temp, j, out, digits)
    ensures Digits(digits, 58) && temp[j..] == ToText(digits)
  {
    StartsAtEnd(input, startAt);
    assert digits == out;
  }

  lemma StartsAtEnd(input: array<Byte>, startAt: nat)
    requires startAt == input.Length
    ensures Rep(Num(input[startAt..], 256), 58) == []
  {
    assert input[startAt..] == [];
  }

  /** The stripping loop; it never advances. */
  method StripOnes(temp: array<char>, j0: nat, ghost n: nat) returns (j: nat)
    requires j0 <= temp.Length && Digits(Rep(n, 58), 58) && temp[j0..] == ToText(Rep(n, 58))
    ensures j == j0
  {
    hide Rep, ALPHABET;
    AlphabetLetter(0);
    j := j0;
    while j < temp.Length && temp[j] == ALPHABET[0]
      invariant j0 <= j <= temp.Length && forall m :: j0 <= m < j ==> temp[m] == ALPHABET[0]
    {
      j := j + 1;
    }
    LeadingLetter(n);
    assert j0 < temp.Length ==> temp[j0] == temp[j0..][0];
  }

  /** There are no extra '1's to strip: the first digit written is not zero. */
  lemma LeadingLetter(n: nat)
    ensures var d := Rep(n, 58); Digits(d, 58) && (|d| > 0 ==> ToText(d)[0] != ALPHABET[0])
  {
    NumOfRep(n, 58);
    var d := Rep(n, 58);
    if |d| > 0 {
      IndexOfLetter(d[0]);
      IndexOfLetter(0);
    }
  }

  /** `Safe58::encode`. */
  method Encode(inputData: seq<Byte>) returns (s: string)
    ensures Digits(Convert(inputData, 256, 58), 58)
    ensures s == ToText(Convert(inputData, 256, 58))
  {
    hide Num, Rep, ToText, ALPHABET;
    ConvertDigits(inputData, 256, 58);
    ghost var v := Num(inputData, 256);
    NoDigits();
    if |inputData| == 0 { return ""; }
    var input := new Byte[|inputData|](i requires 0 <= i < |inputData| => inputData[i]);
    assert input[..] == inputData;
    var zeroCount := CountLeading(input);
    assert inputData == Zeros(zeroCount) + input[zeroCount..];
    NumAfterZeros(zeroCount, input[zeroCount..], 256);
    var temp, j := WriteDigits(input, zeroCount);
    j := WriteOnes(temp, j, zeroCount, Rep(v, 58));
    s := temp[j..];
  }

  /** Puts one '1' in front for each leading zero byte. */
  method WriteOnes(temp: array<char>, j0: nat, zeroCount: nat, ghost digits: seq<nat>) returns (j: nat)
    requires zeroCount <= j0 <= temp.Length && Digits(digits, 58) && temp[j0..] == ToText(digits)
    modifies temp
    ensures j <= temp.Length && Digits(Zeros(zeroCount) + digits, 58) && temp[j..] == ToText(Zeros(zeroCount) + digits)
  {
    hide ToText, ALPHABET;
    j := j0;
    ghost var out, done := digits, 0;
    assert Zeros(0) + digits == digits;
    AlphabetLetter(0);
    var zeros: int := zeroCount - 1;
    while zeros >= 0
      invariant -1 <= zeros < zeroCount || zeroCount == 0 == zeros + 1
      invariant done + zeros + 1 == zeroCount && j == j0 - done
      invariant out == Zeros(done) + digits
      invariant Digits(out, 58) && temp[j..] == ToText(out)
      decreases zeros + 1
    {
      TextCons(0, out);
      assert [0] + Zeros(done) == Zeros(done + 1);
      out, done := [0] + out, done + 1;
      j := j - 1;
      temp[j] := ALPHABET[0];
      zeros := zeros - 1;
    }
  }

  lemma NoDigits()
    ensures Rep(Num([], 256), 58) == [] && ToText([]) == ""
  {}

  // ---------------------------------------------------------------- decoding

  /** What `decode` reads a character as unless told to be strict. */
  function Normalize(c: char): char {
    if c == 'I' || c == '!' || c == '|' || c == 'l' then '1' else if c == 'O' || c == '0' then 'o' else c
  }

  function NormalizeAll(s: string): (r: string)
    ensures |r| == |s|
  {
    seq(|s|, i requires 0 <= i < |s| => Normalize(s[i]))
  }

  /** `std::replace`. */
  function Replace(s: string, a: char, b: char): (r: string)
    ensures |r| == |s| && forall i :: 0 <= i < |s| ==> r[i] == if s[i] == a then b else s[i]
  {
    seq(|s|, i requires 0 <= i < |s| => if s[i] == a then b else s[i])
  }

  /** Reading every look-alike at once is the six replacements one after the other. */
  lemma NormalizeIsReplacing(s: string)
    ensures NormalizeAll(s) ==
      Replace(Replace(Replace(Replace(Replace(Replace(s, 'I', '1'), '!', '1'), '|', '1'), 'l', '1'), 'O', 'o'), '0', 'o')
  {}

  /** Which digit a character of the text stands for: look-alikes of 1 for 0, those of o for its digit, every other
      character for itself. */
  lemma DigitRead(s: string, i: nat)
    requires i < |s|
    ensures Index(NormalizeAll(s)[i], 58) ==
      if s[i] in {'1', 'I', '!', '|', 'l'} then 0 else if s[i] in {'o', 'O', '0'} then 46 else Index(s[i], 58)
  {
    AlphabetLetter(0);
    AlphabetLetter(46);
    IndexOfLetter(0);
    IndexOfLetter(46);
    hide Index;
  }

  /** The byte 97 is written "2g". */
  lemma EncodesA()
    ensures Digits(Convert([97], 256, 58), 58) && ToText(Convert([97], 256, 58)) == "2g"
  {
    assert Num([97], 256) == 97;
    assert Rep(97, 58) == [1, 39];
    assert Convert([97], 256, 58) == [1, 39];
    AlphabetLetter(1);
    AlphabetLetter(39);
  }

  /** Text made of the alphabet's own letters means the same to both readings. */
  lemma NormalizeKeepsText(s: string)
    requires IsText(s)
    ensures NormalizeAll(s) == s
  {
    forall i | 0 <= i < |s| ensures NormalizeAll(s)[i] == s[i] {
      AlphabetLetter(Index(s[i], 58));
      LetterStays(Index(s[i], 58));
    }
  }

  lemma LetterStays(i: nat)
    requires i < 58
    ensures Normalize(Letter(i)) == Letter(i)
  {}

  /** The buffer `doDecode` copies from: cells it never wrote, then the significant digits padded on the left. */
  function Assembled(digits: seq<nat>, garbage: seq<Byte>): (o: seq<nat>)
    requires |garbage| >= |digits| && LeadingZeros(digits) + |Rep(Num(digits, 58), 256)| <= |digits|
  {
    var z, r := LeadingZeros(digits), Rep(Num(digits, 58), 256);
    var pad := |digits| - z - |r|;
    (garbage[..z] + Zeros(pad) + r)[pad..]
  }

  /** The bytes decoded are right exactly when the unwritten cells copied are zero; with no leading zero
      digit, or with as much padding as leading zeros, there are none. */
  lemma AssembledIff(digits: seq<nat>, garbage: seq<Byte>)
    requires |garbage| >= |digits| && LeadingZeros(digits) + |Rep(Num(digits, 58), 256)| <= |digits|
    ensures var z, r := LeadingZeros(digits), Rep(Num(digits, 58), 256);
      var pad := |digits| - z - |r|;
      Assembled(digits, garbage) == Convert(digits, 58, 256) <==> forall i :: pad <= i < z ==> garbage[i] == 0
  {
    hide Num, Rep, LeadingZeros;
    var z, r := LeadingZeros(digits), Rep(Num(digits, 58), 256);
    PaddedRightIff(garbage, z, |digits| - z - |r|, r);
  }

  lemma PaddedRightIff(garbage: seq<Byte>, z: nat, pad: nat, r: seq<nat>)
    requires z <= |garbage|
    ensures (garbage[..z] + Zeros(pad) + r)[pad..] == Zeros(z) + r <==> forall i :: pad <= i < z ==> garbage[i] == 0
  {
    var all, right := garbage[..z] + Zeros(pad) + r, Zeros(z) + r;
    if forall i :: pad <= i < z ==> garbage[i] == 0 {
      forall i | 0 <= i < |right| ensures all[pad..][i] == right[i] {
        assert all[pad..][i] == all[pad + i];
      }
      assert all[pad..] == right;
    } else {
      var i :| pad <= i < z && garbage[i] != 0;
      assert all[pad..][i - pad] == all[i] == garbage[i] && right[i - pad] == 0;
    }
  }

  /** What is in the output, cell by cell: unwritten cells and zeros for the leading zero digits, then the bytes of
      the number. */
  lemma AssembledCells(digits: seq<nat>, garbage: seq<Byte>)
    requires |garbage| >= |digits| && LeadingZeros(digits) + |Rep(Num(digits, 58), 256)| <= |digits|
    ensures var z, r := LeadingZeros(digits), Rep(Num(digits, 58), 256);
      var pad := |digits| - z - |r|;
      var o := Assembled(digits, garbage);
      && |o| == z + |r| && o[z..] == r
      && forall i :: 0 <= i < z ==> o[i] == if pad + i < z then garbage[pad + i] else 0
  {
    hide Num, Rep, LeadingZeros;
  }

  lemma AssembledBytes(digits: seq<nat>, garbage: seq<Byte>)
    requires |garbage| >= |digits| && LeadingZeros(digits) + |Rep(Num(digits, 58), 256)| <= |digits|
    ensures Digits(Assembled(digits, garbage), 256)
  {
    NumOfRep(Num(digits, 58), 256);
    hide Num, Rep, LeadingZeros;
  }

  /** The bytes decoded are right whatever the buffer holds exactly when there are at least as many spare cells
      as leading zero digits. */
  lemma RightForEveryBufferIff(digits: seq<nat>)
    requires LeadingZeros(digits) + |Rep(Num(digits, 58), 256)| <= |digits|
    ensures (forall g: seq<Byte> :: |g| == |digits| ==> Assembled(digits, g) == Convert(digits, 58, 256))
       <==> 2 * LeadingZeros(digits) + |Rep(Num(digits, 58), 256)| <= |digits|
  {
    var z := LeadingZeros(digits);
    var pad := |digits| - z - |Rep(Num(digits, 58), 256)|;
    hide Num, Rep, LeadingZeros, Assembled, Convert;
    if z <= pad {
      forall g: seq<Byte> | |g| == |digits| ensures Assembled(digits, g) == Convert(digits, 58, 256) {
        AssembledIff(digits, g);
      }
    } else {
      var g: seq<Byte> := seq(|digits|, _ => 1);
      AssembledIff(digits, g);
      assert g[pad] != 0;
      assert Assembled(digits, g) != Convert(digits, 58, 256);
    }
  }

  /** The shortest failing input, the text "1", decodes to the byte its one buffer cell happens to hold. */
  lemma OneDecodesToGarbage(cell: Byte)
    ensures IsText("1") && FromText("1") == [0]
    ensures Assembled([0], [cell]) == [cell] && Convert([0], 58, 256) == [0]
  {
    IndexOfLetter(0);
    AlphabetLetter(0);
    assert Num([0], 58) == 0 && Rep(0, 256) == [];
    assert LeadingZeros([0]) == 1;
  }

  /** `Safe58::doDecode`; `garbage` is what the stack buffer holds before it is written. */
  method DoDecode(input: string, garbage: seq<Byte>) returns (r: Result<seq<nat>>)
    requires |garbage| == |input|
    ensures r == InvalidArgument <==> !IsText(input)
    ensures IsText(input) ==>
      && LeadingZeros(FromText(input)) + |Rep(Num(FromText(input), 58), 256)| <= |input|
      && r == Ok(Assembled(FromText(input), garbage))
  {
    if |input| == 0 {
      NoDigits58(input);
      return Ok([]);
    }
    var indexes := BuildIndexes();
    var input58 := new Byte[|input|];
    for i := 0 to |input|
      invariant forall c: char :: c as int < 128 ==> indexes[c as int] == Index(c, 58)
      invariant forall m :: 0 <= m < i ==> Index(input[m], 58) >= 0 && input58[m] == Index(input[m], 58)
    {
      var digit58 := -1;
      if input[i] as int < 128 {
        digit58 := indexes[input[i] as int];
      } else {
        NotALetter(input[i]);
      }
      if digit58 < 0 { return InvalidArgument; }
      input58[i] := digit58;
    }
    assert input58[..] == FromText(input);
    var out := Divide(input58, garbage);
    r := Ok(out);
  }

  lemma NotALetter(c: char)
    requires c as int >= 128
    ensures Index(c, 58) == -1
  {
    var i := Index(c, 58);
    if i >= 0 {
      AlphabetLetter(i);
      LetterIsAscii(i);
    }
  }

  lemma NoDigits58(input: string)
    requires |input| == 0
    ensures Assembled(FromText(input), []) == [] && Rep(Num(FromText(input), 58), 256) == []
  {}

  /** `rep` splits into what `input58` still holds from `startAt` on and the bytes written from `j` on, which
      begin with `pad` zeros only once nothing is left. */
  ghost predicate Decoding(input58: array<Byte>, startAt: nat, temp: array<nat>, j: nat, pad: nat, out: seq<nat>, rep: seq<nat>)
    reads input58, temp
  {
    && startAt <= input58.Length && j <= temp.Length && Small(input58)
    && rep == Rep(Num(input58[startAt..], 58), 256) + out
    && temp[j..] == Zeros(pad) + out && (pad > 0 ==> Num(input58[startAt..], 58) == 0)
  }

  /** One pass: divides what is left by 256 and writes the remainder. */
  method WriteByte(input58: array<Byte>, startAt: nat, temp: array<nat>, j: nat, ghost pad: nat, ghost out: seq<nat>,
                   ghost rep: seq<nat>)
      returns (ghost pad': nat, ghost out': seq<nat>)
    requires input58.Length == temp.Length && startAt < input58.Length && 0 < j
    requires Decoding(input58, startAt, temp, j, pad, out, rep)
    modifies input58, temp
    ensures input58[startAt] == 0 && Decoding(input58, startAt + 1, temp, j - 1, pad', out', rep)
    ensures forall i :: 0 <= i < j - 1 ==> temp[i] == old(temp[i])
  {
    hide Num, Rep;
    ghost var before, written := input58[startAt..], temp[j..];
    var mod := DivMod256(input58, startAt);
    ghost var after := input58[startAt..];
    StripZero(after, 58);
    assert after[1..] == input58[startAt + 1..];
    if Num(before, 58) > 0 {
      RepStep(Num(before, 58), Num(after, 58), mod, 256, out, rep);
      pad', out' := pad, [mod] + out;
    } else {
      pad', out' := pad + 1, out;
    }
    temp[j - 1] := mod;
    assert temp[j - 1..] == [mod] + written;
  }

  lemma DecodingEnds(input58: array<Byte>, startAt: nat, temp: array<nat>, j: nat, pad: nat, out: seq<nat>, rep: seq<nat>)
    requires startAt == input58.Length && Decoding(input58, startAt, temp, j, pad, out, rep)
    ensures temp[j..] == Zeros(pad) + rep
  {
    assert input58[startAt..] == [];
    NumNone(58);
    RepZero();
    assert rep == out;
  }

  /** The main loop of `doDecode`: one pass for each significant digit. */
  method Divide(input58: array<Byte>, garbage: seq<Byte>) returns (output: seq<nat>)
    requires |garbage| == input58.Length && Small(input58)
    modifies input58
    ensures var digits := old(input58[..]);
      && LeadingZeros(digits) + |Rep(Num(digits, 58), 256)| <= |digits|
      && output == Assembled(digits, garbage)
  {
    hide Num, Rep;
    ghost var digits := input58[..];
    ghost var rep := Rep(Num(digits, 58), 256);
    var zeroCount := CountLeading(input58);
    assert digits == Zeros(zeroCount) + input58[zeroCount..];
    NumAfterZeros(zeroCount, input58[zeroCount..], 58);
    var temp := new nat[input58.Length](i requires 0 <= i < |garbage| => garbage[i]);
    var j := temp.Length;
    var startAt := zeroCount;
    ghost var pad: nat, out: seq<nat> := 0, [];
    assert Decoding(input58, startAt, temp, j, pad, out, rep);
    hide Decoding;
    while startAt < input58.Length
      invariant zeroCount <= startAt <= input58.Length && j == temp.Length - (startAt - zeroCount)
      invariant Decoding(input58, startAt, temp, j, pad, out, rep)
      invariant forall i :: 0 <= i < j ==> temp[i] == garbage[i]
    {
      pad, out := WriteByte(input58, startAt, temp, j, pad, out, rep);
      if input58[startAt] == 0 { startAt := startAt + 1; }
      j := j - 1;
    }
    DecodingEnds(input58, startAt, temp, j, pad, out, rep);
    output := CopyOut(temp, zeroCount, pad, rep, digits, garbage);
  }

  /** Strips the padding and copies the result out of the buffer. */
  method CopyOut(temp: array<nat>, zeroCount: nat, ghost pad: nat, ghost rep: seq<nat>, ghost digits: seq<nat>,
                 ghost garbage: seq<Byte>)
      returns (output: seq<nat>)
    requires zeroCount <= temp.Length == |digits| == |garbage| && temp[zeroCount..] == Zeros(pad) + rep
    requires forall i :: 0 <= i < zeroCount ==> temp[i] == garbage[i]
    requires zeroCount == LeadingZeros(digits) && rep == Rep(Num(digits, 58), 256)
    ensures zeroCount + |rep| <= |digits| && output == Assembled(digits, garbage)
  {
    hide Num, Rep;
    NumOfRep(Num(digits, 58), 256);
    RepZero();
    ghost var all := garbage[..zeroCount] + Zeros(pad) + rep;
    assert temp[..] == all;
    var j := StripZeros(temp, zeroCount, pad, rep);
    output := temp[j - zeroCount..];
    assert output == all[pad..];
  }

  method StripZeros(temp: array<nat>, j0: nat, ghost pad: nat, ghost rep: seq<nat>) returns (j: nat)
    requires j0 <= temp.Length && temp[j0..] == Zeros(pad) + rep && (|rep| > 0 ==> rep[0] != 0)
    ensures j == j0 + pad <= temp.Length
  {
    j := j0;
    assert forall m :: j0 <= m < temp.Length ==> temp[m] == temp[j0..][m - j0];
    while j < temp.Length && temp[j] == 0
      invariant j0 <= j <= j0 + pad <= temp.Length
    {
      j := j + 1;
    }
  }

  lemma RepZero()
    ensures Rep(0, 256) == []
  {}

  /** `Safe58::decode`. */
  method Decode(input: string, strict: bool, garbage: seq<Byte>) returns (r: Result<seq<nat>>)
    requires |garbage| == |input|
    ensures var text := if strict then input else NormalizeAll(input);
      && (r == InvalidArgument <==> !IsText(text))
      && (IsText(text) ==>
        && LeadingZeros(FromText(text)) + |Rep(Num(FromText(text), 58), 256)| <= |text|
        && r == Ok(Assembled(FromText(text), garbage)))
  {
    hide Assembled, Num, Rep;
    r := DoDecode(if strict then input else NormalizeAll(input), garbage);
  }

  // ---------------------------------------------------------------- round trips

  function Power256(k: nat): nat { if k == 0 then 1 else 256 * Power256(k - 1) }

  lemma {:induction false} Num58Bound(s: seq<nat>)
    requires Digits(s, 58)
    ensures Num(s, 58) < Power256(|s|)
  {
    if |s| > 0 { Num58Bound(s[..|s| - 1]); }
  }

  lemma {:induction false} RepLength(n: nat, k: nat)
    requires n < Power256(k)
    ensures |Rep(n, 256)| <= k
  {
    if n > 0 && k > 0 { RepLength(n / 256, k - 1); }
  }

  /** Decoding never needs more cells than there are characters. */
  lemma DecodingFits(digits: seq<nat>)
    requires Digits(digits, 58)
    ensures LeadingZeros(digits) + |Rep(Num(digits, 58), 256)| <= |digits|
  {
    var z := LeadingZeros(digits);
    assert digits == Zeros(z) + digits[z..];
    NumAfterZeros(z, digits[z..], 58);
    Num58Bound(digits[z..]);
    RepLength(Num(digits, 58), |digits| - z);
  }

  /** Decoding an encoding, strictly or not, gives the bytes back exactly when the cells that were never
      written and are copied for leading zeros hold zero. */
  lemma DecodeAfterEncode(x: seq<Byte>, garbage: seq<Byte>)
    requires |garbage| >= |Convert(x, 256, 58)|
    ensures var digits := Convert(x, 256, 58);
      && Digits(digits, 58) && IsText(ToText(digits))
      && NormalizeAll(ToText(digits)) == ToText(digits) && FromText(ToText(digits)) == digits
      && LeadingZeros(digits) + |Rep(Num(digits, 58), 256)| <= |digits|
      && var z := LeadingZeros(x);
         var pad := |digits| - |x|;
         |digits| >= |x| && (Assembled(digits, garbage) == x <==> forall i :: pad <= i < z ==> garbage[i] == 0)
  {
    var digits := Convert(x, 256, 58);
    ConvertDigits(x, 256, 58);
    TextRoundTrip(digits);
    NormalizeKeepsText(ToText(digits));
    DecodingFits(digits);
    ConvertRoundTrip(x, 256, 58);
    AssembledIff(digits, garbage);
    EncodingKeepsZeros(x);
    assert |Convert(digits, 58, 256)| == LeadingZeros(digits) + |Rep(Num(digits, 58), 256)|;
  }

  /** Bytes survive encoding and decoding whatever the buffer holds exactly when the encoding is longer than
      they are by at least their leading zeros. */
  lemma SurvivesEveryBufferIff(x: seq<Byte>)
    ensures var digits := Convert(x, 256, 58);
      && LeadingZeros(digits) + |Rep(Num(digits, 58), 256)| <= |digits|
      && ((forall g: seq<Byte> :: |g| == |digits| ==> Assembled(digits, g) == x)
          <==> |digits| >= |x| + LeadingZeros(x))
  {
    var digits := Convert(x, 256, 58);
    ConvertDigits(x, 256, 58);
    DecodingFits(digits);
    ConvertRoundTrip(x, 256, 58);
    EncodingKeepsZeros(x);
    RightForEveryBufferIff(digits);
    assert |Convert(digits, 58, 256)| == LeadingZeros(digits) + |Rep(Num(digits, 58), 256)|;
    hide Num, Rep, LeadingZeros, Assembled, Convert;
  }

  lemma EncodingKeepsZeros(x: seq<Byte>)
    ensures LeadingZeros(Convert(x, 256, 58)) == LeadingZeros(x)
  {
    NumOfRep(Num(x, 256), 58);
    LeadingZerosOf(LeadingZeros(x), Rep(Num(x, 256), 58));
  }

  /** Bytes that do not begin with zero always survive encoding and decoding. */
  lemma DecodeAfterEncodeNonzero(x: seq<Byte>, garbage: seq<Byte>)
    requires |garbage| >= |Convert(x, 256, 58)| && (|x| > 0 ==> x[0] != 0)
    ensures LeadingZeros(Convert(x, 256, 58)) + |Rep(Num(Convert(x, 256, 58), 58), 256)| <= |Convert(x, 256, 58)|
    ensures Assembled(Convert(x, 256, 58), garbage) == x
  {
    DecodeAfterEncode(x, garbage);
    assert LeadingZeros(x) == 0;
  }

  /** Encoding what `decode` makes of a text gives the text back exactly when the cells that were never written
      and are copied for leading '1's hold zero. */
  lemma EncodeAfterDecode(s: string, garbage: seq<Byte>)
    requires IsText(s) && |garbage| >= |s|
    ensures var digits := FromText(s);
      var z, r := LeadingZeros(digits), Rep(Num(digits, 58), 256);
      var pad := |digits| - z - |r|;
      && pad >= 0
      && var o := Assembled(digits, garbage);
         && Digits(o, 256) && Digits(Convert(o, 256, 58), 58)
         && (ToText(Convert(o, 256, 58)) == s <==> forall i :: pad <= i < z ==> garbage[i] == 0)
  {
    var digits := FromText(s);
    DecodingFits(digits);
    AssembledIff(digits, garbage);
    AssembledBytes(digits, garbage);
    var o := Assembled(digits, garbage);
    ConvertDigits(o, 256, 58);
    ConvertRoundTrip(digits, 58, 256);
    ConvertRoundTrip(o, 256, 58);
    TextOfDigits(s);
    TextRoundTrip(Convert(o, 256, 58));
    hide Num, Rep, LeadingZeros, Assembled, Convert, ToText, FromText;
  }

  lemma TextOfDigits(s: string)
    requires IsText(s)
    ensures ToText(FromText(s)) == s
  {
    forall i | 0 <= i < |s| ensures ToText(FromText(s))[i] == s[i] {}
  }

  /** Texts that do not begin with '1' always survive decoding and encoding. */
  lemma EncodeAfterDecodeNoOnes(s: string, garbage: seq<Byte>)
    requires IsText(s) && |garbage| >= |s| && (|s| > 0 ==> s[0] != '1')
    ensures var digits := FromText(s);
      && LeadingZeros(digits) + |Rep(Num(digits, 58), 256)| <= |digits|
      && var o := Assembled(digits, garbage);
         Digits(Convert(o, 256, 58), 58) && ToText(Convert(o, 256, 58)) == s
  {
    EncodeAfterDecode(s, garbage);
    if |s| > 0 {
      AlphabetLetter(0);
      assert FromText(s)[0] != 0;
    }
  }
}
