/**
 * The 64-symbol alphabet of packed strings and the two case tables on
 * 6-bit codes.  Codes are C `u8` values, modelled as `bv8`.
 */
module Encoding {

  /** The symbol of each code: digits, lower case, upper case, '_' and '$'. */
  const SixbitToCharTable: string :=
    "0123456789" +
    "abcdefghijklmnopqrstuvwxyz" +
    "ABCDEFGHIJKLMNOPQRSTUVWXYZ" +
    "_$"

  predicate IsDigit(c: char) { '0' <= c <= '9' }
  predicate IsLower(c: char) { 'a' <= c <= 'z' }
  predicate IsUpper(c: char) { 'A' <= c <= 'Z' }
  predicate IsSpecial(c: char) { c == '_' || c == '$' }

  /** The characters that have a code. */
  predicate InAlphabet(c: char) {
    IsDigit(c) || IsLower(c) || IsUpper(c) || IsSpecial(c)
  }

  /**
   * The 256-entry byte table, written range by range as its designated
   * initialisers are; every byte without an initialiser holds 0.
   */
  function CharToSixbitTable(c: char): (k: bv8)
    ensures k < 64
    ensures !InAlphabet(c) ==> k == 0
  {
    if IsDigit(c) then (c as int - '0' as int) as bv8
    else if IsLower(c) then (c as int - 'a' as int + 10) as bv8
    else if IsUpper(c) then (c as int - 'A' as int + 36) as bv8
    else if c == '_' then 62
    else if c == '$' then 63
    else 0
  }

  /** Case folding on codes: upper-case letters go to their lower-case codes. */
  const ToLowerTable: seq<bv8> :=
    [0, 1, 2, 3, 4, 5, 6, 7, 8, 9] +
    [10, 11, 12, 13, 14, 15, 16, 17, 18, 19, 20, 21, 22,
     23, 24, 25, 26, 27, 28, 29, 30, 31, 32, 33, 34, 35] +
    [10, 11, 12, 13, 14, 15, 16, 17, 18, 19, 20, 21, 22,
     23, 24, 25, 26, 27, 28, 29, 30, 31, 32, 33, 34, 35] +
    [62, 63]

  /** Case folding on codes: lower-case letters go to their upper-case codes. */
  const ToUpperTable: seq<bv8> :=
    [0, 1, 2, 3, 4, 5, 6, 7, 8, 9] +
    [36, 37, 38, 39, 40, 41, 42, 43, 44, 45, 46, 47, 48,
     49, 50, 51, 52, 53, 54, 55, 56, 57, 58, 59, 60, 61] +
    [36, 37, 38, 39, 40, 41, 42, 43, 44, 45, 46, 47, 48,
     49, 50, 51, 52, 53, 54, 55, 56, 57, 58, 59, 60, 61] +
    [62, 63]

  /** Code classes. */
  predicate IsDigitCode(k: bv8) { k < 10 }
  predicate IsLowerCode(k: bv8) { 10 <= k < 36 }
  predicate IsUpperCode(k: bv8) { 36 <= k < 62 }
  predicate IsSpecialCode(k: bv8) { 62 <= k < 64 }

  /** Reference definitions of the case tables. */
  function LowerOf(k: bv8): bv8 { if IsUpperCode(k) then k - 26 else k }
  function UpperOf(k: bv8): bv8 { if IsLowerCode(k) then k + 26 else k }

  lemma SixbitToCharLength()
    ensures |SixbitToCharTable| == 64
  {}

  /** Each code class decodes to the matching character class, in order. */
  lemma SixbitToCharClasses()
    ensures |SixbitToCharTable| == 64
    ensures forall k: bv8 | k < 10 :: SixbitToCharTable[k] == ('0' as int + k as int) as char
    ensures forall k: bv8 | 10 <= k < 36 :: SixbitToCharTable[k] == ('a' as int + k as int - 10) as char
    ensures forall k: bv8 | 36 <= k < 62 :: SixbitToCharTable[k] == ('A' as int + k as int - 36) as char
    ensures SixbitToCharTable[62] == '_' && SixbitToCharTable[63] == '$'
  {
    var d := "0123456789";
    var l := "abcdefghijklmnopqrstuvwxyz";
    var u := "ABCDEFGHIJKLMNOPQRSTUVWXYZ";
    assert SixbitToCharTable == d + l + u + "_$";
    DigitRun(d);
    LetterRun(l, 'a');
    LetterRun(u, 'A');
    assert forall k: bv8 | k < 10 :: SixbitToCharTable[k] == d[k];
    assert forall k: bv8 | 10 <= k < 36 :: SixbitToCharTable[k] == l[k - 10];
    assert forall k: bv8 | 36 <= k < 62 :: SixbitToCharTable[k] == u[k - 36];
  }

  lemma DigitRun(d: string)
    requires d == "0123456789"
    ensures forall i | 0 <= i < 10 :: d[i] == ('0' as int + i) as char
  {}

  lemma LetterRun(l: string, first: char)
    requires first == 'a' || first == 'A'
    requires l == if first == 'a' then "abcdefghijklmnopqrstuvwxyz" else "ABCDEFGHIJKLMNOPQRSTUVWXYZ"
    ensures forall i | 0 <= i < 26 :: l[i] == (first as int + i) as char
  {}

  /** Every code decodes to an alphabet character whose class is the code's class. */
  lemma SixbitToCharInAlphabet(k: bv8)
    requires k < 64
    ensures InAlphabet(SixbitToCharTable[k])
    ensures IsDigitCode(k) <==> IsDigit(SixbitToCharTable[k])
    ensures IsLowerCode(k) <==> IsLower(SixbitToCharTable[k])
    ensures IsUpperCode(k) <==> IsUpper(SixbitToCharTable[k])
    ensures IsSpecialCode(k) <==> IsSpecial(SixbitToCharTable[k])
  {
    SixbitToCharClasses();
  }

  /** Decoding then encoding gives the code back. */
  lemma CharToSixbitOfSixbitToChar(k: bv8)
    requires k < 64
    ensures CharToSixbitTable(SixbitToCharTable[k]) == k
  {
    SixbitToCharClasses();
  }

  /** The 64 symbols are distinct. */
  lemma SixbitToCharDistinct(i: bv8, j: bv8)
    requires i < 64 && j < 64 && i != j
    ensures SixbitToCharTable[i] != SixbitToCharTable[j]
  {
    CharToSixbitOfSixbitToChar(i);
    CharToSixbitOfSixbitToChar(j);
  }

  /** Encoding then decoding gives every alphabet character back. */
  lemma SixbitToCharOfCharToSixbit(c: char)
    requires InAlphabet(c)
    ensures SixbitToCharTable[CharToSixbitTable(c)] == c
  {
    if IsDigit(c) {
      DigitRoundTrip(c);
    } else if IsLower(c) {
      LowerRoundTrip(c);
    } else if IsUpper(c) {
      UpperRoundTrip(c);
    } else {
      SixbitToCharAt(62);
      SixbitToCharAt(63);
    }
  }

  lemma DigitRoundTrip(c: char)
    requires IsDigit(c)
    ensures SixbitToCharTable[CharToSixbitTable(c)] == c
  {
    DigitCode(c);
    SixbitToCharAt(CharToSixbitTable(c));
  }

  lemma LowerRoundTrip(c: char)
    requires IsLower(c)
    ensures SixbitToCharTable[CharToSixbitTable(c)] == c
  {
    LowerCode(c);
    SixbitToCharAt(CharToSixbitTable(c));
  }

  lemma UpperRoundTrip(c: char)
    requires IsUpper(c)
    ensures SixbitToCharTable[CharToSixbitTable(c)] == c
  {
    UpperCode(c);
    SixbitToCharAt(CharToSixbitTable(c));
  }

  lemma DigitCode(c: char)
    requires IsDigit(c)
    ensures CharToSixbitTable(c) as int == c as int - '0' as int
  {
    var x := c as int - '0' as int;
    assert 0 <= x < 10;
    assert CharToSixbitTable(c) == x as bv8;
    SmallRoundTrip(x);
  }

  lemma LowerCode(c: char)
    requires IsLower(c)
    ensures CharToSixbitTable(c) as int == c as int - 'a' as int + 10
  {
    var x := c as int - 'a' as int + 10;
    assert !IsDigit(c) && 10 <= x < 36;
    assert CharToSixbitTable(c) == x as bv8;
    SmallRoundTrip(x);
  }

  lemma UpperCode(c: char)
    requires IsUpper(c)
    ensures CharToSixbitTable(c) as int == c as int - 'A' as int + 36
  {
    var x := c as int - 'A' as int + 36;
    assert !IsDigit(c) && !IsLower(c) && 36 <= x < 62;
    assert CharToSixbitTable(c) == x as bv8;
    SmallRoundTrip(x);
  }

  lemma SmallRoundTrip(x: int)
    requires 0 <= x < 64
    ensures (x as bv8) as int == x
  {}

  /** One entry of the symbol table, by the class of its code. */
  lemma SixbitToCharAt(k: bv8)
    requires k < 64
    ensures k < 10 ==> SixbitToCharTable[k] == ('0' as int + k as int) as char
    ensures 10 <= k < 36 ==> SixbitToCharTable[k] == ('a' as int + k as int - 10) as char
    ensures 36 <= k < 62 ==> SixbitToCharTable[k] == ('A' as int + k as int - 36) as char
    ensures k == 62 ==> SixbitToCharTable[k] == '_'
    ensures k == 63 ==> SixbitToCharTable[k] == '$'
  {
    SixbitToCharClasses();
  }

  /** Only '0' and the characters outside the alphabet share the code 0. */
  lemma CharToSixbitZero(c: char)
    ensures CharToSixbitTable(c) == 0 <==> c == '0' || !InAlphabet(c)
  {}

  lemma ToLowerTableSpec()
    ensures |ToLowerTable| == 64
    ensures forall k: bv8 | k < 64 :: ToLowerTable[k] == LowerOf(k)
  {
    assert forall k: bv8 | k < 10 :: ToLowerTable[k] == k;
    assert forall k: bv8 | 10 <= k < 36 :: ToLowerTable[k] == k;
    assert forall k: bv8 | 36 <= k < 62 :: ToLowerTable[k] == k - 26;
    assert forall k: bv8 | 62 <= k < 64 :: ToLowerTable[k] == k;
  }

  lemma ToUpperTableSpec()
    ensures |ToUpperTable| == 64
    ensures forall k: bv8 | k < 64 :: ToUpperTable[k] == UpperOf(k)
  {
    assert forall k: bv8 | k < 10 :: ToUpperTable[k] == k;
    assert forall k: bv8 | 10 <= k < 36 :: ToUpperTable[k] == k + 26;
    assert forall k: bv8 | 36 <= k < 62 :: ToUpperTable[k] == k;
    assert forall k: bv8 | 62 <= k < 64 :: ToUpperTable[k] == k;
  }

  /**
   * Both tables stay inside the alphabet, are idempotent, and each
   * absorbs the other when applied first.
   */
  lemma CaseTablesAlgebra(k: bv8)
    requires k < 64
    ensures ToLowerTable[k] < 64 && ToUpperTable[k] < 64
    ensures ToLowerTable[ToLowerTable[k]] == ToLowerTable[k]
    ensures ToUpperTable[ToUpperTable[k]] == ToUpperTable[k]
    ensures ToLowerTable[ToUpperTable[k]] == ToLowerTable[k]
    ensures ToUpperTable[ToLowerTable[k]] == ToUpperTable[k]
  {
    ToLowerTableSpec();
    ToUpperTableSpec();
  }

  /** Lower-casing a code decodes to the lower-cased character. */
  lemma ToLowerTableOnChars(k: bv8)
    requires 36 <= k < 62
    ensures |ToLowerTable| == 64
    ensures SixbitToCharTable[ToLowerTable[k]] as int == SixbitToCharTable[k] as int + 32
  {
    ToLowerTableSpec();
    SixbitToCharClasses();
  }
}
