/**
 * Re-deriving flags and reading or writing single codes
 * (packed16/packed-string.c): ps_scan, ps_set, ps_at, ps_first and
 * ps_last.
 */
module Access {
  import opened Encoding
  import opened Helper
  import opened Packed
  import opened Packing

  // ---------------------------------------------------------------------
  // ps_scan

  /**
   * The flag ps_scan records for one code, as written: upper-case codes
   * 36..61 are counted as digits, and nothing ever sets CASE_SENSITIVE.
   */
  function ScanCodeFlag(k: bv8): bv8 {
    if 36 <= k <= 61 then ContainsDigit
    else if k <= 9 then ContainsDigit
    else if k == 62 || k == 63 then ContainsSpecial
    else 0
  }

  /** The union of ps_scan's flags over a code sequence. */
  function ScanCodesFlags(c: seq<bv8>): bv8 {
    if |c| == 0 then 0 else ScanCodesFlags(c[..|c| - 1]) | ScanCodeFlag(c[|c| - 1])
  }

  /**
   * ps_scan as written: CONTAINS_DIGIT iff a digit or an upper-case code
   * occurs, CONTAINS_SPECIAL iff '_' or '$' occurs, never CASE_SENSITIVE.
   */
  lemma {:induction false} ScanCodesFlagsSpec(c: seq<bv8>)
    ensures ScanCodesFlags(c) & CaseSensitive == 0
    ensures ScanCodesFlags(c) < 8
    ensures ScanCodesFlags(c) & ContainsDigit != 0 <==>
      exists i | 0 <= i < |c| :: IsDigitCode(c[i]) || IsUpperCode(c[i])
    ensures ScanCodesFlags(c) & ContainsSpecial != 0 <==>
      exists i | 0 <= i < |c| :: IsSpecialCode(c[i])
  {
    if |c| > 0 {
      var n := |c| - 1;
      ScanCodesFlagsSpec(c[..n]);
      ScanFlagBits(ScanCodesFlags(c[..n]), ScanCodeFlag(c[n]));
      assert forall i | 0 <= i < n :: c[..n][i] == c[i];
      if IsSpecialCode(c[n]) {
        assert ScanCodeFlag(c[n]) == ContainsSpecial;
      }
    }
  }

  lemma ScanFlagBits(f: bv8, g: bv8)
    requires f < 8 && f & 1 == 0 && (g == 0 || g == 2 || g == 4)
    ensures (f | g) < 8 && (f | g) & 1 == 0
    ensures (f | g) & 2 != 0 <==> f & 2 != 0 || g == 2
    ensures (f | g) & 4 != 0 <==> f & 4 != 0 || g == 4
  {}

  /**
   * The flag of one code as ps_pack records it for the code's character:
   * upper case is CASE_SENSITIVE, not CONTAINS_DIGIT.
   */
  function CodeFlag(k: bv8): bv8 {
    if IsUpperCode(k) then CaseSensitive
    else if IsDigitCode(k) then ContainsDigit
    else if IsSpecialCode(k) then ContainsSpecial
    else 0
  }

  /** The flags a scan evidently means to recompute: the union of CodeFlag. */
  function CodesFlags(c: seq<bv8>): bv8 {
    if |c| == 0 then 0 else CodesFlags(c[..|c| - 1]) | CodeFlag(c[|c| - 1])
  }

  lemma CodeFlagOfChar(x: char)
    requires InAlphabet(x)
    ensures CodeFlag(CharToSixbit(x)) == CharFlag(x)
  {
    CodeClasses(x);
  }

  lemma {:induction false} CodesFlagsOfPrefix(s: string, n: nat)
    requires AllInAlphabet(s) && n <= |s|
    ensures CodesFlags(Encode(s)[..n]) == PrefixFlags(s, n)
  {
    if n > 0 {
      CodesFlagsOfPrefix(s, n - 1);
      assert Encode(s)[..n][..n - 1] == Encode(s)[..n - 1];
      CodeFlagOfChar(s[n - 1]);
    }
  }

  /** Recomputing the flags from the codes gives the flags of the characters. */
  lemma CodesFlagsOfEncode(s: string)
    requires AllInAlphabet(s)
    ensures CodesFlags(Encode(s)) == CharFlags(s)
  {
    CodesFlagsOfPrefix(s, |s|);
    assert Encode(s)[..|s|] == Encode(s);
  }

  /**
   * On every value ps_pack builds, the corrected scan recovers exactly the
   * stored flags.
   */
  lemma CodesFlagsRecoverPackFlags(ps: PackedString, s: string)
    requires AllInAlphabet(s) && Represents(ps, Encode(s), CharFlags(s))
    ensures Valid(ps) && CodesFlags(Content(ps)) == Flags(ps)
  {
    RepresentsContent(ps, Encode(s), CharFlags(s));
    CodesFlagsOfEncode(s);
  }

  /**
   * ps_scan as written does not: on the value ps_pack builds from "A",
   * which carries CASE_SENSITIVE, it computes CONTAINS_DIGIT.
   */
  lemma ScanMisflagsUpperCase(ps: PackedString)
    requires Represents(ps, Encode("A"), CharFlags("A"))
    ensures Valid(ps) && Flags(ps) == CaseSensitive
    ensures ScanCodesFlags(Codes(ps.lo, ps.hi)[..Length(ps)]) == ContainsDigit
  {
    RepresentsContent(ps, Encode("A"), CharFlags("A"));
    assert PrefixFlags("A", 1) == PrefixFlags("A", 0) | CharFlag('A') == CaseSensitive;
    assert Codes(ps.lo, ps.hi)[..Length(ps)] == Content(ps);
    UpperCode('A');
    assert Content(ps) == [36];
  }

  /** What ps_scan's loops keep: the flags of the codes read so far. */
  ghost predicate ScanInvariant(codes: seq<bv8>, len: int, i: int, flags: bv8) {
    |codes| == 22 && 0 <= i <= len <= 22 && flags == ScanCodesFlags(codes[..i])
  }

  /**
   * ps_scan: the same words with the flags replaced by those of codes
   * 0..length-1 (see ScanCodeFlag); the length field is kept.  A length
   * field over 22 makes the C shift the high word by 64 or more.
   */
  method Scan(ps: PackedString) returns (r: PackedString)
    requires Length(ps) <= 22
    ensures r.lo == ps.lo && r.hi & PayloadMask == ps.hi & PayloadMask
    ensures Length(r) == Length(ps)
    ensures Flags(r) == ScanCodesFlags(Codes(ps.lo, ps.hi)[..Length(ps)])
  {
    var len := Length(ps);
    ghost var codes := Codes(ps.lo, ps.hi);
    var flags := ScanLoCodes(ps, codes, len);
    if len > 10 {
      var sixbit := ReadMid(ps, codes);
      flags := ScanAdd(codes, len as int, 10, flags, sixbit);
    }
    flags := ScanHiCodes(ps, codes, len, flags);
    var hi := InsertMetadata(ps.hi, PackMetadata(len, flags));
    r := PackedString(ps.lo, hi);
    ScanDone(codes, ps, flags, r);
  }

  /** ps_scan's first loop: codes 0..9 below the length, read from the low word. */
  method ScanLoCodes(ps: PackedString, ghost codes: seq<bv8>, len: bv8) returns (flags: bv8)
    requires codes == Codes(ps.lo, ps.hi) && len <= 22
    ensures ScanInvariant(codes, len as int, if len < 10 then len as int else 10, flags)
  {
    flags := 0;
    var i: bv8 := 0;
    while i < 10 && i < len
      invariant i <= 10 && ScanInvariant(codes, len as int, i as int, flags)
    {
      var sixbit := ReadLo(ps, codes, i);
      IncIndex(i, 10);
      flags := ScanAdd(codes, len as int, i as int, flags, sixbit);
      i := i + 1;
    }
  }

  /** ps_scan's second loop: codes 11..length-1, read from the high word. */
  method ScanHiCodes(ps: PackedString, ghost codes: seq<bv8>, len: bv8, flags: bv8) returns (flags': bv8)
    requires codes == Codes(ps.lo, ps.hi)
    requires ScanInvariant(codes, len as int, if len < 11 then len as int else 11, flags)
    ensures ScanInvariant(codes, len as int, len as int, flags')
  {
    flags' := flags;
    var hiLen: bv8 := if len < 11 then 0 else len - 11;
    var i: bv8 := 0;
    ScanHiStart(codes, len, hiLen, flags);
    while i < hiLen
      invariant ScanHiInvariant(codes, len as int, hiLen as int, i as int, flags')
    {
      var sixbit := ReadHi(ps, codes, i);
      IncIndex(i, hiLen);
      flags' := ScanHiAdd(codes, len as int, hiLen as int, i as int, flags', sixbit);
      i := i + 1;
    }
    ScanHiDone(codes, len as int, hiLen as int, i as int, flags');
  }

  /** One `flags |=` of ps_scan's first loop: the flags of one more code. */
  method ScanAdd(ghost codes: seq<bv8>, ghost len: int, ghost i: int, flags: bv8, sixbit: bv8) returns (flags': bv8)
    requires ScanInvariant(codes, len, i, flags) && i < len && sixbit == codes[i]
    ensures ScanInvariant(codes, len, i + 1, flags')
  {
    flags' := flags | ScanCodeFlag(sixbit);
    ScanStep(codes, len, i, flags, sixbit);
  }

  /** One `flags |=` of ps_scan's second loop. */
  method ScanHiAdd(ghost codes: seq<bv8>, ghost len: int, ghost hiLen: int, ghost i: int, flags: bv8, sixbit: bv8)
    returns (flags': bv8)
    requires ScanHiInvariant(codes, len, hiLen, i, flags) && i < hiLen && sixbit == codes[11 + i]
    ensures ScanHiInvariant(codes, len, hiLen, i + 1, flags')
  {
    flags' := flags | ScanCodeFlag(sixbit);
    ScanStep(codes, len, len - hiLen + i, flags, sixbit);
  }

  /**
   * What ps_scan's second loop keeps: with hiLen = length - 11 (or 0 for
   * a length under 11) it has read codes 11..11+i-1 after the first ones.
   */
  ghost predicate ScanHiInvariant(codes: seq<bv8>, len: int, hiLen: int, i: int, flags: bv8) {
    0 <= i <= hiLen <= 11 && (hiLen == 0 || hiLen == len - 11) &&
    ScanInvariant(codes, len, len - hiLen + i, flags)
  }

  lemma ScanHiStart(codes: seq<bv8>, len: bv8, hiLen: bv8, flags: bv8)
    requires hiLen == if len < 11 then 0 else len - 11
    requires ScanInvariant(codes, len as int, if len < 11 then len as int else 11, flags)
    ensures ScanHiInvariant(codes, len as int, hiLen as int, 0, flags)
  {}

  lemma ScanHiDone(codes: seq<bv8>, len: int, hiLen: int, i: int, flags: bv8)
    requires ScanHiInvariant(codes, len, hiLen, i, flags) && i >= hiLen
    ensures ScanInvariant(codes, len, len, flags)
  {}

  lemma ScanDone(codes: seq<bv8>, ps: PackedString, flags: bv8, r: PackedString)
    requires codes == Codes(ps.lo, ps.hi) && ScanInvariant(codes, Length(ps) as int, Length(ps) as int, flags)
    requires ExtractMetadata(r.hi) == PackMetadata(Length(ps), flags)
    requires r.lo == ps.lo && r.hi & 0x00FF_FFFF_FFFF_FFFF == ps.hi & 0x00FF_FFFF_FFFF_FFFF
    ensures r.lo == ps.lo && r.hi & PayloadMask == ps.hi & PayloadMask
    ensures Length(r) == Length(ps) && Flags(r) == ScanCodesFlags(Codes(ps.lo, ps.hi)[..Length(ps)])
  {
    ScanCodesFlagsSpec(codes[..Length(ps)]);
    MetadataFields(r, Length(ps), flags);
  }

  lemma ScanStep(codes: seq<bv8>, len: int, i: int, flags: bv8, sixbit: bv8)
    requires ScanInvariant(codes, len, i, flags) && i < len
    requires sixbit == codes[i]
    ensures ScanInvariant(codes, len, i + 1, flags | ScanCodeFlag(sixbit))
  {
    assert codes[..i + 1][..i] == codes[..i];
  }

  /** Without upper-case codes, ps_scan as written computes the corrected flags. */
  lemma {:induction false} ScanAgreesWithoutUpperCase(c: seq<bv8>)
    requires forall i | 0 <= i < |c| :: !IsUpperCode(c[i])
    ensures ScanCodesFlags(c) == CodesFlags(c)
  {
    if |c| > 0 {
      ScanAgreesWithoutUpperCase(c[..|c| - 1]);
    }
  }

  // ---------------------------------------------------------------------
  // ps_at, ps_first, ps_last

  /**
   * ps_at: UINT8_MAX at or past the length, otherwise the code at the
   * index.  The C shift is undefined from index 22 on, which only an
   * invalid length field lets through.
   */
  function At(ps: PackedString, index: bv8): (r: bv8)
    requires index < Length(ps) ==> index < 22
    ensures r == 0xFF <==> index >= Length(ps)
    ensures index < Length(ps) ==> r == Codes(ps.lo, ps.hi)[index]
  {
    if index >= Length(ps) then 0xFF else GetN(ps.lo, ps.hi, index)
  }

  /** ps_first: UINT8_MAX for an empty value, otherwise the low six bits of lo. */
  function First(ps: PackedString): (r: bv8)
  {
    if Length(ps) == 0 then 0xFF else (ps.lo & 0x3F) as bv8
  }

  /** ps_last: UINT8_MAX for an empty value, otherwise the code at length - 1. */
  function Last(ps: PackedString): (r: bv8)
    requires Length(ps) <= 22
  {
    if Length(ps) == 0 then 0xFF else GetN(ps.lo, ps.hi, Length(ps) - 1)
  }

  /**
   * On a valid value the accessors read its content: ps_at the code at
   * the index, ps_first the first and ps_last the last code, and
   * UINT8_MAX past the end or on an empty value.
   */
  lemma AccessorsReadContent(ps: PackedString, index: bv8)
    requires Valid(ps)
    ensures |Content(ps)| == Length(ps) as int
    ensures At(ps, index) == if index < Length(ps) then Content(ps)[index] else 0xFF
    ensures First(ps) == if Length(ps) == 0 then 0xFF else Content(ps)[0]
    ensures Last(ps) == if Length(ps) == 0 then 0xFF else Content(ps)[Length(ps) - 1]
  {
    ValidLength(ps);
  }

  /** ps_first and ps_last are ps_at at the two ends. */
  lemma FirstLastAreAt(ps: PackedString)
    requires Length(ps) <= 22
    ensures First(ps) == At(ps, 0)
    ensures Length(ps) > 0 ==> Last(ps) == At(ps, Length(ps) - 1)
  {}

  // ---------------------------------------------------------------------
  // ps_set

  /** A PackedString variable that ps_set updates through its pointer. */
  class PackedCell {
    var lo: bv64
    var hi: bv64

    constructor (ps: PackedString)
      ensures lo == ps.lo && hi == ps.hi
    {
      lo := ps.lo;
      hi := ps.hi;
    }

    function Value(): PackedString
      reads this
    {
      PackedString(lo, hi)
    }

    /**
     * ps_set: UINT8_MAX with nothing changed at or past the length;
     * otherwise the code at the index becomes sixbit (its low two bits in
     * slot 21), every other slot is kept, and sixbit is returned.  Below
     * index 20 the length and flags are kept.  A sixbit of 64 or more
     * spills into the neighbouring bits and is not described.
     */
    method Set(index: bv8, sixbit: bv8) returns (r: bv8)
      requires index < Length(Value()) ==> index < 22
      modifies this
      ensures index >= Length(old(Value())) ==> r == 0xFF && lo == old(lo) && hi == old(hi)
      ensures index < Length(old(Value())) ==> r == sixbit
      ensures index < Length(old(Value())) && sixbit < 64 ==>
        Codes(lo, hi) == Codes(old(lo), old(hi))[index as int := if index == 21 then sixbit & 3 else sixbit]
      ensures index < Length(old(Value())) && index < 20 && sixbit < 64 ==>
        Length(Value()) == Length(old(Value())) && Flags(Value()) == Flags(old(Value())) &&
        At(Value(), index) == sixbit
    {
      var length := Length(Value());
      if index >= length {
        return 0xFF;
      }
      ghost var before := Value();
      lo, hi := SetNSixbit(lo, hi, index, sixbit);
      if sixbit < 64 {
        SetCodes(before.lo, before.hi, lo, hi, index, sixbit);
        if index < 20 {
          MetadataSplit(before);
          MetadataSplit(Value());
        }
      }
      return sixbit;
    }
  }

  /** A write to one slot, in terms of the code sequence. */
  lemma SetCodes(lo: bv64, hi: bv64, rlo: bv64, rhi: bv64, n: bv8, s: bv8)
    requires n < 22 && s < 64
    requires GetN(rlo, rhi, n) == (if n == 21 then s & 3 else s)
    requires forall m: bv8 | m < 22 && m != n :: GetN(rlo, rhi, m) == GetN(lo, hi, m)
    ensures Codes(rlo, rhi) == Codes(lo, hi)[n as int := if n == 21 then s & 3 else s]
  {
    forall j | 0 <= j < 22
      ensures Codes(rlo, rhi)[j] == Codes(lo, hi)[n as int := if n == 21 then s & 3 else s][j]
    {
      ByteIndex(j);
      SetCodesAt(lo, hi, rlo, rhi, n, if n == 21 then s & 3 else s, j as bv8);
    }
  }

  /** SetCodes at one slot. */
  lemma SetCodesAt(lo: bv64, hi: bv64, rlo: bv64, rhi: bv64, n: bv8, v: bv8, m: bv8)
    requires n < 22 && m < 22
    requires GetN(rlo, rhi, m) == if m == n then v else GetN(lo, hi, m)
    ensures Codes(rlo, rhi)[m] == Codes(lo, hi)[n as int := v][m]
  {}
}
