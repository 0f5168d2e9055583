/**
 * The packed string value and the inline operations of its header: the
 * length and flags kept in the metadata byte, validity and the sentinels,
 * construction, exact and payload equality, the 120-bit order, the
 * alphabet wrappers and the hashes.
 *
 * A value is valid when its length field is at most 20.  It is *clean*
 * when, in addition, every code slot at or past its length is zero; the
 * packers produce clean values, and two clean values with the same codes
 * and flags are the same two words (`RepresentsUnique`).
 */
module Packed {
  import opened Encoding
  import opened Helper

  /** A C pointer that may be NULL. */
  datatype Option<T> = None | Some(value: T)

  /** Two 64-bit words: codes 0..19 and the metadata byte hi[56:63]. */
  datatype PackedString = PackedString(lo: bv64, hi: bv64)

  const MaxLen: bv8 := 20

  /** The three error sentinels: a zero payload under lengths 31, 30 and 29. */
  const InvalidString: PackedString := PackedString(0, 31 << 59)
  const NullString: PackedString := PackedString(0, 30 << 59)
  const EmptySentinel: PackedString := PackedString(0, 29 << 59)

  /** Flag bits of the metadata byte. */
  const CaseSensitive: bv8 := 1
  const ContainsDigit: bv8 := 2
  const ContainsSpecial: bv8 := 4

  /** hi without its metadata byte. */
  const PayloadMask: bv64 := 0x00FF_FFFF_FFFF_FFFF

  // ---------------------------------------------------------------------
  // Length, flags, validity

  /** ps_length: the top 5 bits of hi, the high part of the metadata byte. */
  function Length(ps: PackedString): (r: bv8)
    ensures r < 32
    ensures r == ExtractMetadata(ps.hi) >> 3
  {
    (ps.hi >> 59) as bv8
  }

  /** ps_flags: bits 56..58 of hi, the low part of the metadata byte. */
  function Flags(ps: PackedString): (r: bv8)
    ensures r < 8
    ensures r == ExtractMetadata(ps.hi) & 7
  {
    ((ps.hi >> 56) & 7) as bv8
  }

  /** ps_valid. */
  predicate Valid(ps: PackedString) {
    ps.hi >> 59 <= 20
  }

  /** ps_is_empty. */
  predicate IsEmpty(ps: PackedString) {
    Length(ps) == 0
  }

  /** ps_empty: both words zero. */
  function Empty(): PackedString {
    PackedString(0, 0)
  }

  /** ps_from. */
  function From(lo: bv64, hi: bv64): PackedString {
    PackedString(lo, hi)
  }

  /**
   * ps_make: lo as given, hi with its metadata byte replaced by
   * length << 3 | flags, computed in a byte.
   */
  function Make(lo: bv64, hi: bv64, length: bv8, flags: bv8): (r: PackedString)
    ensures r.lo == lo
    ensures r.hi & PayloadMask == hi & PayloadMask
    ensures ExtractMetadata(r.hi) == PackMetadata(length, flags)
    ensures length < 32 && flags < 8 ==> Length(r) == length && Flags(r) == flags
  {
    var meta := (length << 3) | flags;
    PackedString(lo, (hi & PayloadMask) | ((meta as bv64) << 56))
  }

  /** ps_is_case_sensitive, ps_contains_digit, ps_contains_special. */
  predicate IsCaseSensitive(ps: PackedString) { Flags(ps) & CaseSensitive != 0 }
  predicate HasDigitFlag(ps: PackedString) { Flags(ps) & ContainsDigit != 0 }
  predicate HasSpecialFlag(ps: PackedString) { Flags(ps) & ContainsSpecial != 0 }

  /** Validity is a bound on the length field. */
  lemma ValidLength(ps: PackedString)
    ensures Valid(ps) <==> Length(ps) <= MaxLen
  {}

  /** The sentinels carry their lengths, no flags and no codes, and none is valid. */
  lemma Sentinels()
    ensures Length(InvalidString) == 31 && Length(NullString) == 30 && Length(EmptySentinel) == 29
    ensures Flags(InvalidString) == 0 && Flags(NullString) == 0 && Flags(EmptySentinel) == 0
    ensures !Valid(InvalidString) && !Valid(NullString) && !Valid(EmptySentinel)
    ensures forall i: bv8 | i < 20 :: GetN(0, InvalidString.hi, i) == 0
  {
    forall i: bv8 | i < 20 ensures GetN(0, InvalidString.hi, i) == 0 {
      SentinelCode(i);
    }
  }

  lemma SentinelCode(i: bv8)
    requires i < 20
    ensures GetN(0, 31 << 59, i) == 0
  {}

  /** ps_empty() is a valid, empty, clean value without flags. */
  lemma EmptyValue()
    ensures Length(Empty()) == 0 && Flags(Empty()) == 0
    ensures Valid(Empty()) && IsEmpty(Empty())
    ensures Represents(Empty(), [], 0)
  {}

  /** Length and flags together are the whole metadata byte. */
  lemma MetadataSplit(ps: PackedString)
    ensures ExtractMetadata(ps.hi) == PackMetadata(Length(ps), Flags(ps))
  {}

  /** A metadata byte built from a length and flags reads back as those. */
  lemma MetadataFields(ps: PackedString, length: bv8, flags: bv8)
    requires length < 32 && flags < 8
    requires ExtractMetadata(ps.hi) == PackMetadata(length, flags)
    ensures Length(ps) == length && Flags(ps) == flags
  {}

  /** Remaking a value with its own length and flags gives it back. */
  lemma MakeOwnMetadata(ps: PackedString)
    ensures Make(ps.lo, ps.hi, Length(ps), Flags(ps)) == ps
  {
    MetadataSplit(ps);
    var r := Make(ps.lo, ps.hi, Length(ps), Flags(ps));
    SameMetadataSameHi(r.hi, ps.hi);
  }

  lemma SameMetadataSameHi(x: bv64, y: bv64)
    requires x & PayloadMask == y & PayloadMask
    requires ExtractMetadata(x) == ExtractMetadata(y)
    ensures x == y
  {}

  // ---------------------------------------------------------------------
  // Codes

  /** A valid value's codes 0..length-1. */
  function Content(ps: PackedString): (c: seq<bv8>)
    requires Valid(ps)
    ensures |c| == Length(ps) as int
    ensures forall i: bv8 | i < Length(ps) :: c[i] == GetN(ps.lo, ps.hi, i)
  {
    ValidLength(ps);
    Codes(ps.lo, ps.hi)[..Length(ps)]
  }

  /** Valid, and every code slot at or past the length is zero. */
  ghost predicate Clean(ps: PackedString) {
    Length(ps) <= MaxLen
    && forall i: bv8 | Length(ps) <= i < 20 :: GetN(ps.lo, ps.hi, i) == 0
  }

  /**
   * ps is the clean value with codes c and flags f: its length is |c|,
   * its code slots hold c and then zeros.
   */
  ghost predicate Represents(ps: PackedString, c: seq<bv8>, f: bv8) {
    |c| <= 20
    && Length(ps) as int == |c|
    && Flags(ps) == f
    && forall i: bv8 | i < 20 :: GetN(ps.lo, ps.hi, i) == if (i as int) < |c| then c[i] else 0
  }

  /** What a representation says about the value's codes. */
  lemma RepresentsContent(ps: PackedString, c: seq<bv8>, f: bv8)
    requires Represents(ps, c, f)
    ensures Valid(ps) && Clean(ps) && Content(ps) == c
  {
    RepresentsClean(ps, c, f);
    RepresentsCodes(ps, c, f);
  }

  lemma RepresentsClean(ps: PackedString, c: seq<bv8>, f: bv8)
    requires Represents(ps, c, f)
    ensures Valid(ps) && Clean(ps)
  {
    ValidLength(ps);
  }

  lemma RepresentsCodes(ps: PackedString, c: seq<bv8>, f: bv8)
    requires Represents(ps, c, f)
    ensures Valid(ps) && Content(ps) == c
  {
    ValidLength(ps);
    forall i | 0 <= i < |c| ensures Content(ps)[i] == c[i] {
      var j := i as bv8;
      ByteIndex(i);
      assert Content(ps)[j] == GetN(ps.lo, ps.hi, j) == c[j];
    }
  }

  lemma ByteIndex(i: int)
    requires 0 <= i < 22
    ensures (i as bv8) as int == i
  {}

  /** Every clean value represents its content and flags. */
  lemma CleanRepresents(ps: PackedString)
    requires Clean(ps)
    ensures Valid(ps) && Represents(ps, Content(ps), Flags(ps))
  {
    ValidLength(ps);
  }

  /** The code slots 0..21 determine both words. */
  lemma CodesDetermineWords(a: PackedString, b: PackedString)
    requires forall i: bv8 | i < 22 :: GetN(a.lo, a.hi, i) == GetN(b.lo, b.hi, i)
    ensures a == b
  {
    CodesDetermineLo(a.lo, a.hi, b.lo, b.hi);
    CodesDetermineHi(a.lo, a.hi, b.lo, b.hi);
  }

  lemma CodesDetermineLo(lo: bv64, hi: bv64, lo': bv64, hi': bv64)
    requires forall i: bv8 | i <= 10 :: GetN(lo, hi, i) == GetN(lo', hi', i)
    ensures lo == lo'
  {
    assert GetN(lo, hi, 0) == GetN(lo', hi', 0);
    assert GetN(lo, hi, 1) == GetN(lo', hi', 1);
    assert GetN(lo, hi, 2) == GetN(lo', hi', 2);
    assert GetN(lo, hi, 3) == GetN(lo', hi', 3);
    assert GetN(lo, hi, 4) == GetN(lo', hi', 4);
    assert GetN(lo, hi, 5) == GetN(lo', hi', 5);
    assert GetN(lo, hi, 6) == GetN(lo', hi', 6);
    assert GetN(lo, hi, 7) == GetN(lo', hi', 7);
    assert GetN(lo, hi, 8) == GetN(lo', hi', 8);
    assert GetN(lo, hi, 9) == GetN(lo', hi', 9);
    assert GetN(lo, hi, 10) == GetN(lo', hi', 10);
  }

  lemma CodesDetermineHi(lo: bv64, hi: bv64, lo': bv64, hi': bv64)
    requires forall i: bv8 | 10 <= i < 22 :: GetN(lo, hi, i) == GetN(lo', hi', i)
    ensures hi == hi'
  {
    assert GetN(lo, hi, 10) == GetN(lo', hi', 10);
    assert GetN(lo, hi, 11) == GetN(lo', hi', 11);
    assert GetN(lo, hi, 12) == GetN(lo', hi', 12);
    assert GetN(lo, hi, 13) == GetN(lo', hi', 13);
    assert GetN(lo, hi, 14) == GetN(lo', hi', 14);
    assert GetN(lo, hi, 15) == GetN(lo', hi', 15);
    assert GetN(lo, hi, 16) == GetN(lo', hi', 16);
    assert GetN(lo, hi, 17) == GetN(lo', hi', 17);
    assert GetN(lo, hi, 18) == GetN(lo', hi', 18);
    assert GetN(lo, hi, 19) == GetN(lo', hi', 19);
    assert GetN(lo, hi, 20) == GetN(lo', hi', 20);
    assert GetN(lo, hi, 21) == GetN(lo', hi', 21);
  }

  /** Codes and flags fix a clean value: it is the same two words. */
  lemma RepresentsUnique(a: PackedString, b: PackedString, c: seq<bv8>, f: bv8)
    requires Represents(a, c, f) && Represents(b, c, f)
    ensures a == b
  {
    MetadataSplit(a);
    MetadataSplit(b);
    MetadataIsTopCodes(a.lo, a.hi);
    MetadataIsTopCodes(b.lo, b.hi);
    forall i: bv8 | i < 22 ensures GetN(a.lo, a.hi, i) == GetN(b.lo, b.hi, i) {
      if i >= 20 {
        TopCodesOfMetadata(a.lo, a.hi, b.lo, b.hi, i);
      }
    }
    CodesDetermineWords(a, b);
  }

  lemma TopCodesOfMetadata(lo: bv64, hi: bv64, lo': bv64, hi': bv64, i: bv8)
    requires 20 <= i < 22
    requires ExtractMetadata(hi) == ExtractMetadata(hi')
    ensures GetN(lo, hi, i) == GetN(lo', hi', i)
  {}

  // ---------------------------------------------------------------------
  // Region reads inside loops, stated on the code sequence

  /** ps_get_lo, stated on the code sequence. */
  method ReadLo(ps: PackedString, ghost codes: seq<bv8>, i: bv8) returns (sixbit: bv8)
    requires codes == Codes(ps.lo, ps.hi) && i < 10
    ensures sixbit == codes[i] && sixbit < 64
  {
    sixbit := GetLo(ps.lo, i);
    RegionGettersAgree(ps.lo, ps.hi, i);
  }

  /** ps_get_mid, stated on the code sequence. */
  method ReadMid(ps: PackedString, ghost codes: seq<bv8>) returns (sixbit: bv8)
    requires codes == Codes(ps.lo, ps.hi)
    ensures sixbit == codes[10] && sixbit < 64
  {
    sixbit := GetMid(ps.lo, ps.hi);
    RegionGettersAgree(ps.lo, ps.hi, 0);
  }

  /** ps_get_hi, stated on the code sequence. */
  method ReadHi(ps: PackedString, ghost codes: seq<bv8>, i: bv8) returns (sixbit: bv8)
    requires codes == Codes(ps.lo, ps.hi) && i <= 10
    ensures sixbit == codes[11 + i as int] && sixbit < 64
  {
    sixbit := GetHi(ps.hi, i);
    RegionGettersAgree(ps.lo, ps.hi, i);
    assert GetN(ps.lo, ps.hi, i + 11) == codes[11 + i as int];
  }

  lemma IncIndex(i: bv8, bound: bv8)
    requires i < bound
    ensures (i + 1) as int == i as int + 1
  {}

  // ---------------------------------------------------------------------
  // Equality

  /** ps_equal: both words equal, which is equality of the values. */
  function Equal(a: PackedString, b: PackedString): (r: bool)
    ensures r <==> a == b
  {
    a.lo == b.lo && a.hi == b.hi
  }

  /** ps_equal_nometa: both words equal outside the metadata byte. */
  predicate EqualNometa(a: PackedString, b: PackedString) {
    a.lo == b.lo && a.hi & PayloadMask == b.hi & PayloadMask
  }

  /** Exact equality implies payload equality. */
  lemma EqualImpliesNometa(a: PackedString, b: PackedString)
    ensures Equal(a, b) ==> EqualNometa(a, b)
  {}

  /**
   * Payload equality ignores exactly the metadata byte: a and b agree
   * outside it iff b with a's length and flags is a.
   */
  lemma NometaIgnoresMetadata(a: PackedString, b: PackedString)
    ensures EqualNometa(a, b) <==> Make(b.lo, b.hi, Length(a), Flags(a)) == a
  {
    if EqualNometa(a, b) {
      NometaIgnoresMetadataTo(a, b);
    }
    if Make(b.lo, b.hi, Length(a), Flags(a)) == a {
      NometaIgnoresMetadataFrom(a, b);
    }
  }

  lemma NometaIgnoresMetadataTo(a: PackedString, b: PackedString)
    requires EqualNometa(a, b)
    ensures Make(b.lo, b.hi, Length(a), Flags(a)) == a
  {
    MetadataSplit(a);
    var m := Make(b.lo, b.hi, Length(a), Flags(a));
    SameMetadataSameHi(m.hi, a.hi);
  }

  lemma NometaIgnoresMetadataFrom(a: PackedString, b: PackedString)
    requires Make(b.lo, b.hi, Length(a), Flags(a)) == a
    ensures EqualNometa(a, b)
  {
    var m := Make(b.lo, b.hi, Length(a), Flags(a));
    assert m.hi & PayloadMask == b.hi & PayloadMask;
  }

  /** Payload equality is equality of the 20 code slots. */
  lemma NometaCodes(a: PackedString, b: PackedString)
    ensures EqualNometa(a, b) <==> forall i: bv8 | i < 20 :: GetN(a.lo, a.hi, i) == GetN(b.lo, b.hi, i)
  {
    if EqualNometa(a, b) {
      SameLowHiKeepsCodes(a.lo, a.hi, b.hi);
    }
    if forall i: bv8 | i < 20 :: GetN(a.lo, a.hi, i) == GetN(b.lo, b.hi, i) {
      CodesDetermineLo(a.lo, a.hi, b.lo, b.hi);
      CodesDeterminePayload(a.lo, a.hi, b.lo, b.hi);
    }
  }

  lemma CodesDeterminePayload(lo: bv64, hi: bv64, lo': bv64, hi': bv64)
    requires forall i: bv8 | 10 <= i < 20 :: GetN(lo, hi, i) == GetN(lo', hi', i)
    ensures hi & PayloadMask == hi' & PayloadMask
  {
    assert GetN(lo, hi, 10) == GetN(lo', hi', 10);
    assert GetN(lo, hi, 11) == GetN(lo', hi', 11);
    assert GetN(lo, hi, 12) == GetN(lo', hi', 12);
    assert GetN(lo, hi, 13) == GetN(lo', hi', 13);
    assert GetN(lo, hi, 14) == GetN(lo', hi', 14);
    assert GetN(lo, hi, 15) == GetN(lo', hi', 15);
    assert GetN(lo, hi, 16) == GetN(lo', hi', 16);
    assert GetN(lo, hi, 17) == GetN(lo', hi', 17);
    assert GetN(lo, hi, 18) == GetN(lo', hi', 18);
    assert GetN(lo, hi, 19) == GetN(lo', hi', 19);
  }

  /** Two clean values are equal iff they hold the same codes and flags. */
  lemma CleanEqual(a: PackedString, b: PackedString)
    requires Clean(a) && Clean(b)
    ensures Valid(a) && Valid(b)
    ensures Equal(a, b) <==> Content(a) == Content(b) && Flags(a) == Flags(b)
  {
    CleanRepresents(a);
    CleanRepresents(b);
    if Content(a) == Content(b) && Flags(a) == Flags(b) {
      RepresentsUnique(a, b, Content(a), Flags(a));
    }
  }

  // ---------------------------------------------------------------------
  // The 120-bit order

  /**
   * ps_packed_compare: masked hi first, then lo, each compared as an
   * unsigned 64-bit number.
   */
  function PackedCompare(a: PackedString, b: PackedString): (r: int)
    ensures r == -1 || r == 0 || r == 1
  {
    CompareDigits((a.hi & PayloadMask) as int, a.lo as int, (b.hi & PayloadMask) as int, b.lo as int)
  }

  /** Compare the pairs (h1, l1) and (h2, l2) by first, then second component. */
  function CompareDigits(h1: int, l1: int, h2: int, l2: int): (r: int)
    ensures r == -1 || r == 0 || r == 1
  {
    if h1 < h2 then -1
    else if h1 > h2 then 1
    else if l1 < l2 then -1
    else if l1 > l2 then 1
    else 0
  }

  /**
   * Comparing by first, then second component is the order of two-digit
   * numbers in base 2^64: ps_packed_compare orders payloads as 120-bit
   * numbers with the masked hi word above lo.
   */
  lemma TwoDigitCompare(h1: int, l1: int, h2: int, l2: int)
    requires 0 <= l1 < 0x1_0000_0000_0000_0000 && 0 <= l2 < 0x1_0000_0000_0000_0000
    ensures var k1 := h1 * 0x1_0000_0000_0000_0000 + l1;
            var k2 := h2 * 0x1_0000_0000_0000_0000 + l2;
            CompareDigits(h1, l1, h2, l2) == if k1 < k2 then -1 else if k1 > k2 then 1 else 0
  {}

  /** Zero exactly on payload equality. */
  lemma PackedCompareZero(a: PackedString, b: PackedString)
    ensures PackedCompare(a, b) == 0 <==> EqualNometa(a, b)
  {
    if PackedCompare(a, b) == 0 {
      PackedCompareZeroTo(a, b);
    }
  }

  lemma PackedCompareZeroTo(a: PackedString, b: PackedString)
    requires PackedCompare(a, b) == 0
    ensures EqualNometa(a, b)
  {
    WordsCompareZero(a.hi & PayloadMask, a.lo, b.hi & PayloadMask, b.lo);
  }

  lemma WordsCompareZero(x: bv64, u: bv64, y: bv64, v: bv64)
    requires CompareDigits(x as int, u as int, y as int, v as int) == 0
    ensures x == y && u == v
  {
    CompareDigitsZero(x as int, u as int, y as int, v as int);
    WordAsInt(x, y);
    WordAsInt(u, v);
  }

  lemma CompareDigitsZero(h1: int, l1: int, h2: int, l2: int)
    requires CompareDigits(h1, l1, h2, l2) == 0
    ensures h1 == h2 && l1 == l2
  {}

  /** Distinct words are distinct numbers. */
  lemma WordAsInt(x: bv64, y: bv64)
    requires x as int == y as int
    ensures x == y
  {
    assert x == (x as int) as bv64;
    assert y == (y as int) as bv64;
  }

  /** Swapping the operands flips the sign. */
  lemma PackedCompareAntisymmetric(a: PackedString, b: PackedString)
    ensures PackedCompare(a, b) == -PackedCompare(b, a)
  {}

  /** The order is transitive. */
  lemma PackedCompareTransitive(a: PackedString, b: PackedString, c: PackedString)
    requires PackedCompare(a, b) < 0 && PackedCompare(b, c) < 0
    ensures PackedCompare(a, c) < 0
  {}

  // ---------------------------------------------------------------------
  // Alphabet wrappers

  /** ps_char: '0' is code 0; any other character whose table entry is 0 is UINT8_MAX. */
  function PsChar(c: char): (k: bv8)
    ensures k == CharToSixbit(c)
    ensures k == 0xFF <==> !InAlphabet(c)
  {
    if c == '0' then 0
    else
      var r := CharToSixbitTable(c);
      if r == 0 then 0xFF else r
  }

  /** ps_six: the symbol of a code, '?' from 64 on. */
  function PsSix(six: bv8): (c: char)
    ensures c == SixbitToChar(six)
    ensures six < 64 ==> PsChar(c) == six
  {
    SixbitToCharLength();
    if six >= 64 then '?'
    else
      SixbitRoundTrip(six);
      SixbitToCharTable[six]
  }

  /** ps_alphabet. */
  function PsAlphabet(c: char): (b: bool)
    ensures b <==> InAlphabet(c)
    ensures b <==> PsChar(c) != 0xFF
  {
    CharToSixbitZero(c);
    c == '0' || CharToSixbitTable(c) != 0
  }

  // ---------------------------------------------------------------------
  // Hashes

  /** `h ^= h >> 33`, the xor-shift step of the finalizer. */
  function XorShift33(x: bv64): bv64 {
    x ^ (x >> 33)
  }

  /** `h *= 0xff51afd7ed558ccd`, modulo 2^64. */
  function MixMul1(x: bv64): bv64 {
    x * 0xff51afd7ed558ccd
  }

  /** `h *= 0xc4ceb9fe1a85ec53`, modulo 2^64. */
  function MixMul2(x: bv64): bv64 {
    x * 0xc4ceb9fe1a85ec53
  }

  /** The MurmurHash3 64-bit finalizer: xor-shift, multiply, xor-shift, multiply, xor-shift. */
  function Fmix64(x: bv64): bv64 {
    XorShift33(MixMul2(XorShift33(MixMul1(XorShift33(x)))))
  }

  /** Multiplication by the inverse of 0xff51afd7ed558ccd modulo 2^64. */
  function UnmixMul1(x: bv64): bv64 {
    x * 0x4f74430c22a54005
  }

  /** Multiplication by the inverse of 0xc4ceb9fe1a85ec53 modulo 2^64. */
  function UnmixMul2(x: bv64): bv64 {
    x * 0x9cb4b2f8129337db
  }

  /** The finalizer run backwards. */
  function Unmix64(h: bv64): bv64 {
    XorShift33(UnmixMul1(XorShift33(UnmixMul2(XorShift33(h)))))
  }

  /** The xor-shift by 33 is its own inverse: the high 31 bits it reads are left as they are. */
  lemma XorShift33Twice(x: bv64)
    ensures XorShift33(XorShift33(x)) == x
  {
    ShiftXor33(x, x >> 33);
    XorCancel(x, x >> 33);
  }

  lemma ShiftXor33(a: bv64, b: bv64)
    ensures (a ^ b) >> 33 == (a >> 33) ^ (b >> 33) && (a >> 33) >> 33 == 0
  {}

  lemma XorCancel(x: bv64, s: bv64)
    ensures (x ^ s) ^ s == x && s ^ 0 == s
  {}

  lemma MulInverses(a: bv64)
    ensures UnmixMul1(a * 0xff51afd7ed558ccd) == a
    ensures UnmixMul2(a * 0xc4ceb9fe1a85ec53) == a
  {}

  /** Each multiplier of the finalizer is undone by its inverse. */
  lemma MixMulUndone(a: bv64)
    ensures UnmixMul1(MixMul1(a)) == a && UnmixMul2(MixMul2(a)) == a
  {
    assert MixMul1(a) == a * 0xff51afd7ed558ccd;
    assert MixMul2(a) == a * 0xc4ceb9fe1a85ec53;
    MulInverses(a);
  }

  /** Unmix64 inverts the finalizer, so the finalizer is a bijection on 64-bit words. */
  lemma Fmix64Inverse(x: bv64)
    ensures Unmix64(Fmix64(x)) == x
  {
    XorShift33Twice(MixMul2(XorShift33(MixMul1(XorShift33(x)))));
    MixMulUndone(XorShift33(MixMul1(XorShift33(x))));
    XorShift33Twice(MixMul1(XorShift33(x)));
    MixMulUndone(XorShift33(x));
    XorShift33Twice(x);
  }

  /** Two values collide in ps_hash64 exactly when their words xor to the same value. */
  lemma Hash64Collision(a: PackedString, b: PackedString)
    ensures Hash64(a) == Hash64(b) <==> FoldedWords(a) == FoldedWords(b)
  {
    assert Hash64(a) == Fmix64(FoldedWords(a));
    assert Hash64(b) == Fmix64(FoldedWords(b));
    Fmix64Injective(FoldedWords(a), FoldedWords(b));
  }

  /** The finalizer is injective: it has an inverse. */
  lemma Fmix64Injective(u: bv64, v: bv64)
    ensures Fmix64(u) == Fmix64(v) ==> u == v
  {
    Fmix64Inverse(u);
    Fmix64Inverse(v);
  }

  /** The two words xor-ed together, the input of both hashes. */
  function FoldedWords(ps: PackedString): bv64 {
    ps.lo ^ ps.hi
  }

  /** ps_hash64: the finalizer applied to lo ^ hi. */
  function Hash64(ps: PackedString): bv64 {
    Fmix64(FoldedWords(ps))
  }

  /** The two halves of a 64-bit word, folded by xor. */
  function Fold32(x: bv64): bv32 {
    ((x & 0xFFFF_FFFF) as bv32) ^ ((x >> 32) as bv32)
  }

  /** ps_hash32: the same mix as ps_hash64, folded to 32 bits. */
  function Hash32(ps: PackedString): bv32 {
    Fold32(Fmix64(FoldedWords(ps)))
  }

  /** ps_hash32 is ps_hash64 folded, so values equal in ps_hash64 are equal in ps_hash32. */
  lemma Hash32OfHash64(a: PackedString, b: PackedString)
    ensures Hash32(a) == Fold32(Hash64(a))
    ensures Hash64(a) == Hash64(b) ==> Hash32(a) == Hash32(b)
  {}

  /**
   * The last step of ps_table_hash: a length below 32 xor-ed in at bit
   * 24 moves only bits 24..28.
   */
  function XorLength(h: bv32, length: bv32): (r: bv32)
    requires length < 32
    ensures r & 0xE0FF_FFFF == h & 0xE0FF_FFFF
  {
    XorOutsideMask(h, length << 24, 0xE0FF_FFFF);
    h ^ (length << 24)
  }

  /** Xor-ing in bits a mask clears leaves the masked bits alone. */
  lemma XorOutsideMask(h: bv32, x: bv32, m: bv32)
    ensures (h ^ x) & m == (h & m) ^ (x & m)
  {}

  /** Xor-ing the length in twice gives the hash back. */
  lemma XorLengthTwice(h: bv32, length: bv32)
    requires length < 32
    ensures XorLength(XorLength(h, length), length) == h
  {}

  /** ps_table_hash. */
  function TableHash(ps: PackedString): bv32 {
    XorLength(Hash32(ps), Length(ps) as bv32)
  }
}
