/**
 * The scanning helpers of helper.h: find, reverse_find and is_at.
 */
module HelperScan {
  import opened Helper

  /**
   * ps_find: the first index from idx on (up to 19) whose code is sixbit,
   * or -1.  The switch falls through from case idx to case 19, reading
   * code n with ps_get_n_sixbit, that is, Codes(lo, hi)[n].
   */
  function Find(lo: bv64, hi: bv64, idx: bv8, sixbit: bv8): (r: int)
    ensures r == -1 || (idx as int <= r < 20 && Codes(lo, hi)[r] == sixbit)
    ensures forall j | idx as int <= j < 20 && (r == -1 || j < r) :: Codes(lo, hi)[j] != sixbit
  {
    FindIn(Codes(lo, hi), idx, sixbit)
  }

  /** The fall-through of ps_find over the code sequence c. */
  function FindIn(c: seq<bv8>, idx: bv8, sixbit: bv8): (r: int)
    requires |c| == 22
    ensures r == -1 || (idx as int <= r < 20 && c[r] == sixbit)
    ensures forall j | idx as int <= j < 20 && (r == -1 || j < r) :: c[j] != sixbit
    decreases 20 - idx as int
  {
    if idx >= 20 then -1
    else if c[idx] == sixbit then idx as int
    else FindIn(c, idx + 1, sixbit)
  }

  /**
   * ps_reverse_find: the last index at or below idx whose code is sixbit,
   * or -1.  An idx above 19 hits the default case and finds nothing.
   */
  function ReverseFind(lo: bv64, hi: bv64, idx: bv8, sixbit: bv8): (r: int)
    ensures r == -1 || (0 <= r <= idx as int && r < 20 && Codes(lo, hi)[r] == sixbit)
    ensures idx < 20 ==> forall j | 0 <= j <= idx as int && r < j :: Codes(lo, hi)[j] != sixbit
    ensures idx >= 20 ==> r == -1
  {
    ReverseFindIn(Codes(lo, hi), idx, sixbit)
  }

  /** The fall-through of ps_reverse_find over the code sequence c. */
  function ReverseFindIn(c: seq<bv8>, idx: bv8, sixbit: bv8): (r: int)
    requires |c| == 22
    ensures r == -1 || (0 <= r <= idx as int && r < 20 && c[r] == sixbit)
    ensures idx < 20 ==> forall j | 0 <= j <= idx as int && r < j :: c[j] != sixbit
    ensures idx >= 20 ==> r == -1
  {
    if idx >= 20 then -1
    else if c[idx] == sixbit then idx as int
    else if idx == 0 then -1
    else ReverseFindIn(c, idx - 1, sixbit)
  }

  const AllOnes: bv64 := 0xFFFF_FFFF_FFFF_FFFF

  /** C's `(1ULL << bits) - 1`. */
  function LowMask(bits: bv8): bv64
    requires bits < 64
  {
    (1 << bits) - 1
  }

  /**
   * The inputs on which every shift of ps_is_at, with the low mask of the
   * boundary case taken as all ones when it covers the whole of lo, stays
   * below 64.
   */
  predicate IsAtDefined(len1: bv8, len2: bv8, idx: bv8) {
    idx as int + len2 as int > len1 as int
    || idx as int + len2 as int <= 21
    || (11 <= idx <= 21 && len2 <= 10)
  }

  /**
   * The inputs on which ps_is_at as written avoids shifting by 64: the
   * boundary case at idx = 0 computes `1ULL << 64` for its low mask.
   */
  predicate IsAtDefinedAsWritten(len1: bv8, len2: bv8, idx: bv8) {
    IsAtDefined(len1, len2, idx)
    && (idx as int + len2 as int > len1 as int || idx > 0 || len2 <= 10)
  }

  /** Window entirely inside lo. */
  function IsAtLo(lo1: bv64, lo2: bv64, start: bv8, bits: bv8): bool
    requires start < 64 && bits < 64
  {
    ((lo1 ^ (lo2 << start)) & (LowMask(bits) << start)) == 0
  }

  /** Window entirely inside hi. */
  function IsAtHi(hi1: bv64, lo2: bv64, shift: bv8, bits: bv8): bool
    requires shift < 64 && bits < 64
  {
    ((hi1 >> shift) & LowMask(bits)) == (lo2 & LowMask(bits))
  }

  /**
   * Window across the word boundary, given the mask of its low part.  The
   * second value's bits above its low part are re-aligned from both of
   * its words unless the low part is the whole of lo.
   */
  function IsAtCrossMasked(lo1: bv64, hi1: bv64, lo2: bv64, hi2: bv64, start: bv8, bits: bv8, loMask: bv64): bool
    requires start < 64 && 64 < start as int + bits as int < 128
  {
    var loBits := 64 - start;
    var hiBits := bits - loBits;
    var hiMask := LowMask(hiBits);
    var p1Lo := (lo1 >> start) & loMask;
    var p1Hi := hi1 & hiMask;
    var p2Lo := lo2 & loMask;
    var p2Hi := if loBits < 64 then ((lo2 >> loBits) | (hi2 << (64 - loBits))) & hiMask
                else hi2 & hiMask;
    p1Lo == p2Lo && p1Hi == p2Hi
  }

  /** The boundary case as written: the low mask is `(1ULL << lo_bits) - 1`. */
  function IsAtCrossAsWritten(lo1: bv64, hi1: bv64, lo2: bv64, hi2: bv64, start: bv8, bits: bv8): bool
    requires 0 < start < 64 && 64 < start as int + bits as int < 128
  {
    IsAtCrossMasked(lo1, hi1, lo2, hi2, start, bits, LowMask(64 - start))
  }

  /** The boundary case with a low mask of all ones when the low part is the whole of lo. */
  function IsAtCross(lo1: bv64, hi1: bv64, lo2: bv64, hi2: bv64, start: bv8, bits: bv8): bool
    requires start < 64 && 64 < start as int + bits as int < 128
  {
    IsAtCrossMasked(lo1, hi1, lo2, hi2, start, bits, if start == 0 then AllOnes else LowMask(64 - start))
  }

  /**
   * ps_is_at as written: whether the len2 codes of the second value occur
   * in the first (of length len1) at index idx.
   */
  function IsAtAsWritten(lo1: bv64, hi1: bv64, len1: bv8, lo2: bv64, hi2: bv64, len2: bv8, idx: bv8): (r: bool)
    requires IsAtDefinedAsWritten(len1, len2, idx)
    ensures idx as int + len2 as int > len1 as int ==> !r
  {
    if idx as int + len2 as int > len1 as int then false
    else if idx as int * 6 + len2 as int * 6 <= 64 then IsAtLo(lo1, lo2, idx * 6, len2 * 6)
    else if idx as int * 6 >= 64 then IsAtHi(hi1, lo2, idx * 6 - 64, len2 * 6)
    else IsAtCrossAsWritten(lo1, hi1, lo2, hi2, idx * 6, len2 * 6)
  }

  /** ps_is_at with the boundary case's low mask corrected. */
  function IsAt(lo1: bv64, hi1: bv64, len1: bv8, lo2: bv64, hi2: bv64, len2: bv8, idx: bv8): (r: bool)
    requires IsAtDefined(len1, len2, idx)
    ensures idx as int + len2 as int > len1 as int ==> !r
  {
    if idx as int + len2 as int > len1 as int then false
    else if idx as int * 6 + len2 as int * 6 <= 64 then IsAtLo(lo1, lo2, idx * 6, len2 * 6)
    else if idx as int * 6 >= 64 then IsAtHi(hi1, lo2, idx * 6 - 64, len2 * 6)
    else IsAtCross(lo1, hi1, lo2, hi2, idx * 6, len2 * 6)
  }

  // ---------------------------------------------------------------------
  // Specification

  /** Codes idx..idx+len2-1 of the first value are codes 0..len2-1 of the second. */
  ghost predicate WindowAt(lo1: bv64, hi1: bv64, lo2: bv64, hi2: bv64, len2: bv8, idx: bv8)
    requires idx as int + len2 as int <= 20
  {
    forall j: bv8 | j < len2 :: GetN(lo1, hi1, idx + j) == GetN(lo2, hi2, j)
  }

  /** ps_is_at (corrected) compares the window code by code, on strings of valid length. */
  lemma IsAtWindow(lo1: bv64, hi1: bv64, len1: bv8, lo2: bv64, hi2: bv64, len2: bv8, idx: bv8)
    requires len1 <= 20
    ensures IsAt(lo1, hi1, len1, lo2, hi2, len2, idx)
        <==> idx as int + len2 as int <= len1 as int && WindowAt(lo1, hi1, lo2, hi2, len2, idx)
  {
    if idx as int + len2 as int > len1 as int {
    } else if idx as int + len2 as int <= 10 {
      LoCase(lo1, hi1, lo2, hi2, idx, len2);
    } else if idx >= 11 {
      HiCase(lo1, hi1, lo2, hi2, idx, len2);
    } else if idx == 0 {
      WholeLoCase(lo1, hi1, lo2, hi2, len2);
    } else {
      CrossCase(lo1, hi1, lo2, hi2, idx, len2);
    }
  }

  /** Wherever ps_is_at as written is defined, the correction changes nothing. */
  lemma IsAtAsWrittenAgrees(lo1: bv64, hi1: bv64, len1: bv8, lo2: bv64, hi2: bv64, len2: bv8, idx: bv8)
    requires IsAtDefinedAsWritten(len1, len2, idx)
    ensures IsAtAsWritten(lo1, hi1, len1, lo2, hi2, len2, idx) == IsAt(lo1, hi1, len1, lo2, hi2, len2, idx)
  {}

  /**
   * A window of 11 or more codes at index 0, which ps_contains tries first
   * and ps_ends_with asks for when both lengths agree, is outside the
   * domain of ps_is_at as written and inside that of the corrected one.
   */
  lemma IsAtAsWrittenUndefinedAtZero(len1: bv8, len2: bv8)
    requires 11 <= len2 <= 20 && len2 <= len1 <= 20
    ensures !IsAtDefinedAsWritten(len1, len2, 0)
    ensures IsAtDefined(len1, len2, 0)
  {}

  // ---------------------------------------------------------------------
  // Zero tests on the low codes of a word

  /** The word is zero below bit 6n. */
  predicate ZB(d: bv64, n: bv8)
    requires n <= 10
  {
    d & !(AllOnes << (n * 6)) == 0
  }

  ghost predicate CodesZero(d: bv64, n: bv8)
    requires n <= 10
  {
    forall j: bv8 | j < n :: GetLo(d, j) == 0
  }

  lemma ZeroStep(d: bv64, n: bv8)
    requires 1 <= n <= 10
    ensures ZB(d, n) <==> ZB(d, n - 1) && GetLo(d, n - 1) == 0
  {}

  lemma {:induction false} ZeroBelow(d: bv64, n: bv8)
    requires n <= 10
    ensures ZB(d, n) <==> CodesZero(d, n)
  {
    if n > 0 {
      ZeroBelow(d, n - 1);
      ZeroStep(d, n);
    }
  }

  // ---------------------------------------------------------------------
  // Case 1: inside lo

  lemma LoWord(lo1: bv64, lo2: bv64, k: bv8, n: bv8)
    requires k as int + n as int <= 10
    ensures IsAtLo(lo1, lo2, k * 6, n * 6) <==> ZB((lo1 >> (k * 6)) ^ lo2, n)
  {
    LoWordShift(lo1, lo2, k, n);
    LoWordMask(lo1, lo2, k, n);
  }

  lemma LoWordShift(lo1: bv64, lo2: bv64, k: bv8, n: bv8)
    requires k as int + n as int <= 10
    ensures (lo1 ^ (lo2 << (k * 6))) & (LowMask(n * 6) << (k * 6)) == 0
        <==> ((lo1 >> (k * 6)) ^ lo2) & LowMask(n * 6) == 0
  {
    LoWordShiftTo(lo1, lo2, k, n);
    LoWordShiftFrom(lo1, lo2, k, n);
  }

  lemma LoWordShiftTo(lo1: bv64, lo2: bv64, k: bv8, n: bv8)
    requires k as int + n as int <= 10
    ensures (lo1 ^ (lo2 << (k * 6))) & (LowMask(n * 6) << (k * 6)) == 0
        ==> ((lo1 >> (k * 6)) ^ lo2) & LowMask(n * 6) == 0
  {}

  /** The C test of the lo case implies the shifted-xor test. */
  /** One direction of the lo-case test, as a predicate so that instances at a fixed k can be joined. */
  predicate ShiftedBack(lo1: bv64, lo2: bv64, k: bv8, n: bv8)
    requires k as int + n as int <= 10
  {
    (((lo1 >> (k * 6)) ^ lo2) & LowMask(n * 6) == 0)
      ==> (lo1 ^ (lo2 << (k * 6))) & (LowMask(n * 6) << (k * 6)) == 0
  }

  lemma LoWordShiftFrom(lo1: bv64, lo2: bv64, k: bv8, n: bv8)
    requires k as int + n as int <= 10
    ensures ShiftedBack(lo1, lo2, k, n)
  {
    if k == 0 {
      ShiftedBack0(lo1, lo2, k, n);
    } else if k == 1 {
      ShiftedBack1(lo1, lo2, k, n);
    } else if k == 2 {
      ShiftedBack2(lo1, lo2, k, n);
    } else if k == 3 {
      ShiftedBack3(lo1, lo2, k, n);
    } else if k == 4 {
      ShiftedBack4(lo1, lo2, k, n);
    } else if k == 5 {
      ShiftedBack5(lo1, lo2, k, n);
    } else if k == 6 {
      ShiftedBack6(lo1, lo2, k, n);
    } else if k == 7 {
      ShiftedBack7(lo1, lo2, k, n);
    } else if k == 8 {
      ShiftedBack8(lo1, lo2, k, n);
    } else if k == 9 {
      ShiftedBack9(lo1, lo2, k, n);
    } else {
      ShiftedBack10(lo1, lo2, k, n);
    }
  }

  lemma ShiftedBack0(lo1: bv64, lo2: bv64, k: bv8, n: bv8)
    requires k == 0 && n <= 10
    ensures ShiftedBack(lo1, lo2, k, n)
  {}

  lemma ShiftedBack1(lo1: bv64, lo2: bv64, k: bv8, n: bv8)
    requires k == 1 && n <= 9
    ensures ShiftedBack(lo1, lo2, k, n)
  {}

  lemma ShiftedBack2(lo1: bv64, lo2: bv64, k: bv8, n: bv8)
    requires k == 2 && n <= 8
    ensures ShiftedBack(lo1, lo2, k, n)
  {}

  lemma ShiftedBack3(lo1: bv64, lo2: bv64, k: bv8, n: bv8)
    requires k == 3 && n <= 7
    ensures ShiftedBack(lo1, lo2, k, n)
  {}

  lemma ShiftedBack4(lo1: bv64, lo2: bv64, k: bv8, n: bv8)
    requires k == 4 && n <= 6
    ensures ShiftedBack(lo1, lo2, k, n)
  {}

  lemma ShiftedBack5(lo1: bv64, lo2: bv64, k: bv8, n: bv8)
    requires k == 5 && n <= 5
    ensures ShiftedBack(lo1, lo2, k, n)
  {}

  lemma ShiftedBack6(lo1: bv64, lo2: bv64, k: bv8, n: bv8)
    requires k == 6 && n <= 4
    ensures ShiftedBack(lo1, lo2, k, n)
  {}

  lemma ShiftedBack7(lo1: bv64, lo2: bv64, k: bv8, n: bv8)
    requires k == 7 && n <= 3
    ensures ShiftedBack(lo1, lo2, k, n)
  {}

  lemma ShiftedBack8(lo1: bv64, lo2: bv64, k: bv8, n: bv8)
    requires k == 8 && n <= 2
    ensures ShiftedBack(lo1, lo2, k, n)
  {}

  lemma ShiftedBack9(lo1: bv64, lo2: bv64, k: bv8, n: bv8)
    requires k == 9 && n <= 1
    ensures ShiftedBack(lo1, lo2, k, n)
  {}

  lemma ShiftedBack10(lo1: bv64, lo2: bv64, k: bv8, n: bv8)
    requires k == 10 && n <= 0
    ensures ShiftedBack(lo1, lo2, k, n)
  {}

  lemma LoWordMask(lo1: bv64, lo2: bv64, k: bv8, n: bv8)
    requires k as int + n as int <= 10
    ensures ((lo1 >> (k * 6)) ^ lo2) & LowMask(n * 6) == 0 <==> ZB((lo1 >> (k * 6)) ^ lo2, n)
  {}

  lemma LoCode(lo1: bv64, lo2: bv64, k: bv8, j: bv8)
    requires k as int + j as int < 10
    ensures GetLo((lo1 >> (k * 6)) ^ lo2, j) == 0
        <==> GetLo(lo1, k + j) == GetLo(lo2, j)
  {
    LoCodeTo(lo1, lo2, k, j);
    LoCodeFrom(lo1, lo2, k, j);
  }

  lemma LoCodeTo(lo1: bv64, lo2: bv64, k: bv8, j: bv8)
    requires k as int + j as int < 10
    ensures GetLo((lo1 >> (k * 6)) ^ lo2, j) == 0
        ==> GetLo(lo1, k + j) == GetLo(lo2, j)
  {
    JoinShr(lo1, k, j);
  }

  lemma LoCodeFrom(lo1: bv64, lo2: bv64, k: bv8, j: bv8)
    requires k as int + j as int < 10
    ensures GetLo(lo1, k + j) == GetLo(lo2, j)
        ==> GetLo((lo1 >> (k * 6)) ^ lo2, j) == 0
  {
    JoinShr(lo1, k, j);
  }

  /** One code of the window, in lo. */
  lemma LoLink(lo1: bv64, hi1: bv64, lo2: bv64, hi2: bv64, k: bv8, j: bv8, d: bv64)
    requires k as int + j as int < 10
    requires d == (lo1 >> (k * 6)) ^ lo2
    ensures GetLo(d, j) == 0 <==> GetN(lo1, hi1, k + j) == GetN(lo2, hi2, j)
  {
    LoCode(lo1, lo2, k, j);
    RegionGettersAgree(lo1, hi1, k + j);
    RegionGettersAgree(lo2, hi2, j);
  }

  lemma LoCase(lo1: bv64, hi1: bv64, lo2: bv64, hi2: bv64, k: bv8, n: bv8)
    requires k as int + n as int <= 10
    ensures IsAtLo(lo1, lo2, k * 6, n * 6) <==> WindowAt(lo1, hi1, lo2, hi2, n, k)
  {
    LoWord(lo1, lo2, k, n);
    LoZeros(lo1, hi1, lo2, hi2, k, n, (lo1 >> (k * 6)) ^ lo2);
  }

  lemma LoZeros(lo1: bv64, hi1: bv64, lo2: bv64, hi2: bv64, k: bv8, n: bv8, d: bv64)
    requires k as int + n as int <= 10
    requires d == (lo1 >> (k * 6)) ^ lo2
    ensures ZB(d, n) <==> WindowAt(lo1, hi1, lo2, hi2, n, k)
  {
    ZeroBelow(d, n);
    LoZerosA(lo1, hi1, lo2, hi2, k, n, d);
    LoZerosB(lo1, hi1, lo2, hi2, k, n, d);
  }
  lemma LoZerosA(lo1: bv64, hi1: bv64, lo2: bv64, hi2: bv64, k: bv8, n: bv8, d: bv64)
    requires k as int + n as int <= 10
    requires d == (lo1 >> (k * 6)) ^ lo2
    ensures WindowAt(lo1, hi1, lo2, hi2, n, k) ==> CodesZero(d, n)
  {
    if WindowAt(lo1, hi1, lo2, hi2, n, k) {
      forall j: bv8 | j < n ensures GetLo(d, j) == 0 {
        LoLink(lo1, hi1, lo2, hi2, k, j, d);
      }
    }
  }
  lemma LoZerosB(lo1: bv64, hi1: bv64, lo2: bv64, hi2: bv64, k: bv8, n: bv8, d: bv64)
    requires k as int + n as int <= 10
    requires d == (lo1 >> (k * 6)) ^ lo2
    ensures CodesZero(d, n) ==> WindowAt(lo1, hi1, lo2, hi2, n, k)
  {
    if CodesZero(d, n) {
      forall j: bv8 | j < n ensures GetN(lo1, hi1, k + j) == GetN(lo2, hi2, j) {
        LoLink(lo1, hi1, lo2, hi2, k, j, d);
      }
    }
  }

  // ---------------------------------------------------------------------
  // Case 2: inside hi

  lemma HiWord(hi1: bv64, lo2: bv64, k: bv8, n: bv8)
    requires 11 <= k <= 21 && n <= 10
    ensures IsAtHi(hi1, lo2, k * 6 - 64, n * 6)
        <==> ZB((hi1 >> (k * 6 - 64)) ^ lo2, n)
  {
    HiWordTo(hi1, lo2, k, n);
    HiWordFrom(hi1, lo2, k, n);
  }

  lemma HiWordTo(hi1: bv64, lo2: bv64, k: bv8, n: bv8)
    requires 11 <= k <= 21 && n <= 10
    ensures IsAtHi(hi1, lo2, k * 6 - 64, n * 6)
        ==> ZB((hi1 >> (k * 6 - 64)) ^ lo2, n)
  {}

  lemma HiWordFrom(hi1: bv64, lo2: bv64, k: bv8, n: bv8)
    requires 11 <= k <= 21 && n <= 10
    ensures ZB((hi1 >> (k * 6 - 64)) ^ lo2, n)
        ==> IsAtHi(hi1, lo2, k * 6 - 64, n * 6)
  {}

  lemma ShrHiCodeAt(hi1: bv64, x: bv64, k: bv8, j: bv8)
    requires 11 <= k && k as int + j as int <= 21 && j < 10
    requires x == hi1 >> (k * 6 - 64)
    ensures GetLo(x, j) == GetHi(hi1, k - 11 + j)
  {
    ShrHiCode(hi1, x, k * 6, k, j);
  }

  /** A code of a xor is zero when the codes agree. */
  lemma CodeXor(x: bv64, y: bv64, d: bv64, j: bv8)
    requires j < 10 && d == x ^ y
    ensures GetLo(d, j) == 0 <==> GetLo(x, j) == GetLo(y, j)
  {}


  /** One code of the window, in hi. */
  lemma HiLink(lo1: bv64, hi1: bv64, lo2: bv64, hi2: bv64, k: bv8, j: bv8, d: bv64)
    requires 11 <= k && k as int + j as int <= 21 && j < 10
    requires d == (hi1 >> (k * 6 - 64)) ^ lo2
    ensures GetLo(d, j) == 0 <==> GetN(lo1, hi1, k + j) == GetN(lo2, hi2, j)
  {
    var x := hi1 >> (k * 6 - 64);
    CodeXor(x, lo2, d, j);
    ShrHiCodeAt(hi1, x, k, j);
    RegionGettersAgree(lo1, hi1, k - 11 + j);
    RegionGettersAgree(lo2, hi2, j);
  }

  lemma HiCase(lo1: bv64, hi1: bv64, lo2: bv64, hi2: bv64, k: bv8, n: bv8)
    requires 11 <= k && k as int + n as int <= 20
    ensures IsAtHi(hi1, lo2, k * 6 - 64, n * 6) <==> WindowAt(lo1, hi1, lo2, hi2, n, k)
  {
    HiWord(hi1, lo2, k, n);
    HiZeros(lo1, hi1, lo2, hi2, k, n, (hi1 >> (k * 6 - 64)) ^ lo2);
  }

  lemma HiZeros(lo1: bv64, hi1: bv64, lo2: bv64, hi2: bv64, k: bv8, n: bv8, d: bv64)
    requires 11 <= k && k as int + n as int <= 20
    requires d == (hi1 >> (k * 6 - 64)) ^ lo2
    ensures ZB(d, n) <==> WindowAt(lo1, hi1, lo2, hi2, n, k)
  {
    ZeroBelow(d, n);
    HiZerosA(lo1, hi1, lo2, hi2, k, n, d);
    HiZerosB(lo1, hi1, lo2, hi2, k, n, d);
  }

  lemma HiZerosA(lo1: bv64, hi1: bv64, lo2: bv64, hi2: bv64, k: bv8, n: bv8, d: bv64)
    requires 11 <= k && k as int + n as int <= 20
    requires d == (hi1 >> (k * 6 - 64)) ^ lo2
    ensures WindowAt(lo1, hi1, lo2, hi2, n, k) ==> CodesZero(d, n)
  {
    if WindowAt(lo1, hi1, lo2, hi2, n, k) {
      forall j: bv8 | j < n ensures GetLo(d, j) == 0 {
        HiLink(lo1, hi1, lo2, hi2, k, j, d);
      }
    }
  }

  lemma HiZerosB(lo1: bv64, hi1: bv64, lo2: bv64, hi2: bv64, k: bv8, n: bv8, d: bv64)
    requires 11 <= k && k as int + n as int <= 20
    requires d == (hi1 >> (k * 6 - 64)) ^ lo2
    ensures CodesZero(d, n) ==> WindowAt(lo1, hi1, lo2, hi2, n, k)
  {
    if CodesZero(d, n) {
      forall j: bv8 | j < n ensures GetN(lo1, hi1, k + j) == GetN(lo2, hi2, j) {
        HiLink(lo1, hi1, lo2, hi2, k, j, d);
      }
    }
  }

  // ---------------------------------------------------------------------
  // Case 3: across the boundary (1 <= k <= 10, 11 <= k + n)

  /** The window codes held in hi, as hi codes 0..h-1 of the first value. */
  ghost predicate CrossHiWindow(hi1: bv64, lo2: bv64, hi2: bv64, k: bv8, h: bv8)
    requires k <= 10 && h as int + 11 - k as int <= 20 && h <= 10
  {
    forall t: bv8 | t < h :: GetHi(hi1, t) == GetN(lo2, hi2, t + 11 - k)
  }

  lemma CrossCase(lo1: bv64, hi1: bv64, lo2: bv64, hi2: bv64, k: bv8, n: bv8)
    requires 1 <= k <= 10 && 11 <= k as int + n as int <= 20
    ensures IsAtCross(lo1, hi1, lo2, hi2, k * 6, n * 6) <==> WindowAt(lo1, hi1, lo2, hi2, n, k)
  {
    CrossWord(lo1, hi1, lo2, hi2, k, n);
    CrossWindow(lo1, hi1, lo2, hi2, k, n);
  }

  /**
   * The boundary test in terms of the aligned xor: the codes from idx to 9
   * and the low 4 bits of code 10 in lo, the top 2 bits of code 10 and the
   * codes up to idx + len2 in hi.
   */
  predicate CrossWordTest(lo1: bv64, hi1: bv64, lo2: bv64, hi2: bv64, k: bv8, n: bv8)
    requires 1 <= k <= 10 && 11 <= k as int + n as int <= 20
  {
    ZB((lo1 >> (k * 6)) ^ lo2, 10 - k) && LoTail(lo1, lo2, k)
    && hi1 & 3 == (lo2 >> (64 - k * 6)) & 3
    && ZB((hi1 ^ ((lo2 >> (64 - k * 6)) | (hi2 << (64 - (64 - k * 6))))) >> 2, k + n - 11)
  }

  lemma CrossWord(lo1: bv64, hi1: bv64, lo2: bv64, hi2: bv64, k: bv8, n: bv8)
    requires 1 <= k <= 10 && 11 <= k as int + n as int <= 20
    ensures IsAtCross(lo1, hi1, lo2, hi2, k * 6, n * 6) <==> CrossWordTest(lo1, hi1, lo2, hi2, k, n)
  {
    CrossParts(lo1, hi1, lo2, hi2, k, n);
    CrossLoWord(lo1, lo2, k);
    CrossHiWord(hi1, lo2, hi2, k, n);
  }

  lemma CrossWindow(lo1: bv64, hi1: bv64, lo2: bv64, hi2: bv64, k: bv8, n: bv8)
    requires 1 <= k <= 10 && 11 <= k as int + n as int <= 20
    ensures CrossWordTest(lo1, hi1, lo2, hi2, k, n) <==> WindowAt(lo1, hi1, lo2, hi2, n, k)
  {
    CrossWindowTo(lo1, hi1, lo2, hi2, k, n);
    CrossWindowFrom(lo1, hi1, lo2, hi2, k, n);
  }

  lemma CrossWindowTo(lo1: bv64, hi1: bv64, lo2: bv64, hi2: bv64, k: bv8, n: bv8)
    requires 1 <= k <= 10 && 11 <= k as int + n as int <= 20
    ensures CrossWordTest(lo1, hi1, lo2, hi2, k, n) ==> WindowAt(lo1, hi1, lo2, hi2, n, k)
  {
    CrossMid(lo1, hi1, lo2, hi2, k);
    LoZeros(lo1, hi1, lo2, hi2, k, 10 - k, (lo1 >> (k * 6)) ^ lo2);
    CrossHiZeros(hi1, lo2, hi2, k, k + n - 11,
      (hi1 ^ ((lo2 >> (64 - k * 6)) | (hi2 << (64 - (64 - k * 6))))) >> 2);
    CrossWindowSplit(lo1, hi1, lo2, hi2, k, n);
  }

  lemma CrossWindowFrom(lo1: bv64, hi1: bv64, lo2: bv64, hi2: bv64, k: bv8, n: bv8)
    requires 1 <= k <= 10 && 11 <= k as int + n as int <= 20
    ensures WindowAt(lo1, hi1, lo2, hi2, n, k) ==> CrossWordTest(lo1, hi1, lo2, hi2, k, n)
  {
    CrossMid(lo1, hi1, lo2, hi2, k);
    LoZeros(lo1, hi1, lo2, hi2, k, 10 - k, (lo1 >> (k * 6)) ^ lo2);
    CrossHiZeros(hi1, lo2, hi2, k, k + n - 11,
      (hi1 ^ ((lo2 >> (64 - k * 6)) | (hi2 << (64 - (64 - k * 6))))) >> 2);
    CrossWindowSplit(lo1, hi1, lo2, hi2, k, n);
  }

  /** The two comparisons ps_is_at makes across the boundary. */
  lemma CrossParts(lo1: bv64, hi1: bv64, lo2: bv64, hi2: bv64, k: bv8, n: bv8)
    requires 1 <= k <= 10 && 11 <= k as int + n as int <= 20
    ensures IsAtCross(lo1, hi1, lo2, hi2, k * 6, n * 6)
        == ((lo1 >> (k * 6)) & LowMask(64 - k * 6) == lo2 & LowMask(64 - k * 6)
          && hi1 & LowMask(n * 6 - (64 - k * 6))
             == ((lo2 >> (64 - k * 6)) | (hi2 << (64 - (64 - k * 6)))) & LowMask(n * 6 - (64 - k * 6)))
  {
    CrossPartsMask(lo1, hi1, lo2, hi2, k, n);
    CrossPartsRaw(lo1, hi1, lo2, hi2, k, n);
  }

  /** Away from idx = 0 the corrected low mask is the one the code computes. */
  lemma CrossPartsMask(lo1: bv64, hi1: bv64, lo2: bv64, hi2: bv64, k: bv8, n: bv8)
    requires 1 <= k <= 10 && 11 <= k as int + n as int <= 20
    ensures IsAtCross(lo1, hi1, lo2, hi2, k * 6, n * 6)
        == IsAtCrossMasked(lo1, hi1, lo2, hi2, k * 6, n * 6, LowMask(64 - k * 6))
  {}

  lemma CrossPartsRaw(lo1: bv64, hi1: bv64, lo2: bv64, hi2: bv64, k: bv8, n: bv8)
    requires 1 <= k <= 10 && 11 <= k as int + n as int <= 20
    ensures IsAtCrossMasked(lo1, hi1, lo2, hi2, k * 6, n * 6, LowMask(64 - k * 6))
        == ((lo1 >> (k * 6)) & LowMask(64 - k * 6) == lo2 & LowMask(64 - k * 6)
          && hi1 & LowMask(n * 6 - (64 - k * 6))
             == ((lo2 >> (64 - k * 6)) | (hi2 << (64 - (64 - k * 6)))) & LowMask(n * 6 - (64 - k * 6)))
  {}

  /** The top 4 bits of lo1 (low part of code 10) against the matching bits of lo2. */
  predicate LoTail(lo1: bv64, lo2: bv64, k: bv8)
    requires k <= 10
  {
    (lo1 >> 60) & 0xF == (lo2 >> ((10 - k) * 6)) & 0xF
  }

  /** Low part: the codes from idx up to 9 and the low 4 bits of code 10. */
  lemma CrossLoWord(lo1: bv64, lo2: bv64, k: bv8)
    requires 1 <= k <= 10
    ensures (lo1 >> (k * 6)) & LowMask(64 - k * 6) == lo2 & LowMask(64 - k * 6)
        <==> (ZB((lo1 >> (k * 6)) ^ lo2, 10 - k) && LoTail(lo1, lo2, k))
  {
    CrossLoMask(lo1, lo2, k);
    CrossLoXor(lo1, lo2, k);
    CrossLoSplit(lo1, lo2, k);
    CrossLoTail(lo1, lo2, k);
  }

  lemma CrossLoMask(lo1: bv64, lo2: bv64, k: bv8)
    requires 1 <= k <= 10
    ensures (lo1 >> (k * 6)) & LowMask(64 - k * 6) == lo2 & LowMask(64 - k * 6)
        <==> (lo1 >> (k * 6)) == lo2 & !(AllOnes << ((10 - k) * 6 + 4))
  {
    ShrFits(lo1, k);
    LowMaskCross(k);
  }

  lemma ShrFits(lo1: bv64, k: bv8)
    requires 1 <= k <= 10
    ensures (lo1 >> (k * 6)) & LowMask(64 - k * 6) == lo1 >> (k * 6)
  {}

  lemma LowMaskCross(k: bv8)
    requires 1 <= k <= 10
    ensures LowMask(64 - k * 6) == !(AllOnes << ((10 - k) * 6 + 4))
  {}

  lemma CrossLoXor(lo1: bv64, lo2: bv64, k: bv8)
    requires 1 <= k <= 10
    ensures (lo1 >> (k * 6)) == lo2 & !(AllOnes << ((10 - k) * 6 + 4))
        <==> ((lo1 >> (k * 6)) ^ lo2) & !(AllOnes << ((10 - k) * 6 + 4)) == 0
  {
    CrossLoXorTo(lo1, lo2, k);
    CrossLoXorFrom(lo1, lo2, k);
  }

  lemma CrossLoXorTo(lo1: bv64, lo2: bv64, k: bv8)
    requires 1 <= k <= 10
    ensures (lo1 >> (k * 6)) == lo2 & !(AllOnes << ((10 - k) * 6 + 4))
        ==> ((lo1 >> (k * 6)) ^ lo2) & !(AllOnes << ((10 - k) * 6 + 4)) == 0
  {}

  lemma CrossLoXorFrom(lo1: bv64, lo2: bv64, k: bv8)
    requires 1 <= k <= 10
    ensures ((lo1 >> (k * 6)) ^ lo2) & !(AllOnes << ((10 - k) * 6 + 4)) == 0
        ==> (lo1 >> (k * 6)) == lo2 & !(AllOnes << ((10 - k) * 6 + 4))
  {}

  lemma CrossLoSplit(lo1: bv64, lo2: bv64, k: bv8)
    requires 1 <= k <= 10
    ensures ((lo1 >> (k * 6)) ^ lo2) & !(AllOnes << ((10 - k) * 6 + 4)) == 0
        <==> (ZB((lo1 >> (k * 6)) ^ lo2, 10 - k)
              && (((lo1 >> (k * 6)) ^ lo2) >> ((10 - k) * 6)) & 0xF == 0)
  {}

  lemma CrossLoTail(lo1: bv64, lo2: bv64, k: bv8)
    requires 1 <= k <= 10
    ensures (((lo1 >> (k * 6)) ^ lo2) >> ((10 - k) * 6)) & 0xF == 0 <==> LoTail(lo1, lo2, k)
  {}

  /** High part: the top 2 bits of code 10 and the hi codes before idx + len2. */
  lemma CrossHiWord(hi1: bv64, lo2: bv64, hi2: bv64, k: bv8, n: bv8)
    requires 1 <= k <= 10 && 11 <= k as int + n as int <= 20
    ensures hi1 & LowMask(n * 6 - (64 - k * 6))
            == ((lo2 >> (64 - k * 6)) | (hi2 << (64 - (64 - k * 6)))) & LowMask(n * 6 - (64 - k * 6))
        <==> (hi1 & 3 == (lo2 >> (64 - k * 6)) & 3
              && ZB((hi1 ^ ((lo2 >> (64 - k * 6)) | (hi2 << (64 - (64 - k * 6))))) >> 2, k + n - 11))
  {
    CrossHiMask(hi1, lo2, hi2, k, n);
    CrossHiSplit(hi1, lo2, hi2, k, n);
    CrossHiTwo(hi1, lo2, hi2, k);
  }

  lemma CrossHiMask(hi1: bv64, lo2: bv64, hi2: bv64, k: bv8, n: bv8)
    requires 1 <= k <= 10 && 11 <= k as int + n as int <= 20
    ensures hi1 & LowMask(n * 6 - (64 - k * 6))
            == ((lo2 >> (64 - k * 6)) | (hi2 << (64 - (64 - k * 6)))) & LowMask(n * 6 - (64 - k * 6))
        <==> (hi1 ^ ((lo2 >> (64 - k * 6)) | (hi2 << (64 - (64 - k * 6))))) & LowMask(n * 6 - (64 - k * 6)) == 0
  {
    CrossHiMaskTo(hi1, lo2, hi2, k, n);
    CrossHiMaskFrom(hi1, lo2, hi2, k, n);
  }

  lemma CrossHiMaskTo(hi1: bv64, lo2: bv64, hi2: bv64, k: bv8, n: bv8)
    requires 1 <= k <= 10 && 11 <= k as int + n as int <= 20
    ensures hi1 & LowMask(n * 6 - (64 - k * 6))
            == ((lo2 >> (64 - k * 6)) | (hi2 << (64 - (64 - k * 6)))) & LowMask(n * 6 - (64 - k * 6))
        ==> (hi1 ^ ((lo2 >> (64 - k * 6)) | (hi2 << (64 - (64 - k * 6))))) & LowMask(n * 6 - (64 - k * 6)) == 0
  {}

  lemma CrossHiMaskFrom(hi1: bv64, lo2: bv64, hi2: bv64, k: bv8, n: bv8)
    requires 1 <= k <= 10 && 11 <= k as int + n as int <= 20
    ensures (hi1 ^ ((lo2 >> (64 - k * 6)) | (hi2 << (64 - (64 - k * 6))))) & LowMask(n * 6 - (64 - k * 6)) == 0
        ==> hi1 & LowMask(n * 6 - (64 - k * 6))
            == ((lo2 >> (64 - k * 6)) | (hi2 << (64 - (64 - k * 6)))) & LowMask(n * 6 - (64 - k * 6))
  {}

  lemma CrossHiSplit(hi1: bv64, lo2: bv64, hi2: bv64, k: bv8, n: bv8)
    requires 1 <= k <= 10 && 11 <= k as int + n as int <= 20
    ensures (hi1 ^ ((lo2 >> (64 - k * 6)) | (hi2 << (64 - (64 - k * 6))))) & LowMask(n * 6 - (64 - k * 6)) == 0
        <==> ((hi1 ^ ((lo2 >> (64 - k * 6)) | (hi2 << (64 - (64 - k * 6))))) & 3 == 0
              && ZB((hi1 ^ ((lo2 >> (64 - k * 6)) | (hi2 << (64 - (64 - k * 6))))) >> 2, k + n - 11))
  {
    assert n * 6 - (64 - k * 6) == (k + n - 11) * 6 + 2;
  }

  lemma CrossHiTwo(hi1: bv64, lo2: bv64, hi2: bv64, k: bv8)
    requires 1 <= k <= 10
    ensures (hi1 ^ ((lo2 >> (64 - k * 6)) | (hi2 << (64 - (64 - k * 6))))) & 3 == 0
        <==> hi1 & 3 == (lo2 >> (64 - k * 6)) & 3
  {}

  /** Code 10 of the first value against the window code that falls there. */
  lemma CrossMid(lo1: bv64, hi1: bv64, lo2: bv64, hi2: bv64, k: bv8)
    requires 1 <= k <= 10
    ensures GetN(lo1, hi1, 10) == GetN(lo2, hi2, 10 - k)
        <==> (hi1 & 3 == (lo2 >> (64 - k * 6)) & 3 && LoTail(lo1, lo2, k))
  {
    MidCode(lo1, hi1, lo2, k);
    RegionGettersAgree(lo2, hi2, 10 - k);
  }

  lemma MidCode(lo1: bv64, hi1: bv64, lo2: bv64, k: bv8)
    requires 1 <= k <= 10
    ensures GetN(lo1, hi1, 10) == GetLo(lo2, 10 - k)
        <==> (hi1 & 3 == (lo2 >> (64 - k * 6)) & 3 && LoTail(lo1, lo2, k))
  {
    if k == 1 {} else if k == 2 {} else if k == 3 {} else if k == 4 {} else if k == 5 {}
    else if k == 6 {} else if k == 7 {} else if k == 8 {} else if k == 9 {} else {}
  }

  lemma CrossHiZeros(hi1: bv64, lo2: bv64, hi2: bv64, k: bv8, h: bv8, f: bv64)
    requires 1 <= k <= 10 && h < 10 && h as int + 11 - k as int <= 20
    requires f == (hi1 ^ ((lo2 >> (64 - k * 6)) | (hi2 << (64 - (64 - k * 6))))) >> 2
    ensures ZB(f, h) <==> CrossHiWindow(hi1, lo2, hi2, k, h)
  {
    ZeroBelow(f, h);
    CrossHiZerosA(hi1, lo2, hi2, k, h, f);
    CrossHiZerosB(hi1, lo2, hi2, k, h, f);
  }

  lemma CrossHiZerosA(hi1: bv64, lo2: bv64, hi2: bv64, k: bv8, h: bv8, f: bv64)
    requires 1 <= k <= 10 && h < 10 && h as int + 11 - k as int <= 20
    requires f == (hi1 ^ ((lo2 >> (64 - k * 6)) | (hi2 << (64 - (64 - k * 6))))) >> 2
    ensures CrossHiWindow(hi1, lo2, hi2, k, h) ==> CodesZero(f, h)
  {
    if CrossHiWindow(hi1, lo2, hi2, k, h) {
      forall t: bv8 | t < h ensures GetLo(f, t) == 0 {
        CrossHiLink(hi1, lo2, hi2, k, t, f);
      }
    }
  }

  lemma CrossHiZerosB(hi1: bv64, lo2: bv64, hi2: bv64, k: bv8, h: bv8, f: bv64)
    requires 1 <= k <= 10 && h < 10 && h as int + 11 - k as int <= 20
    requires f == (hi1 ^ ((lo2 >> (64 - k * 6)) | (hi2 << (64 - (64 - k * 6))))) >> 2
    ensures CodesZero(f, h) ==> CrossHiWindow(hi1, lo2, hi2, k, h)
  {
    if CodesZero(f, h) {
      forall t: bv8 | t < h ensures GetHi(hi1, t) == GetN(lo2, hi2, t + 11 - k) {
        CrossHiLink(hi1, lo2, hi2, k, t, f);
      }
    }
  }

  /** One window code held in hi. */
  lemma CrossHiLink(hi1: bv64, lo2: bv64, hi2: bv64, k: bv8, t: bv8, f: bv64)
    requires 1 <= k <= 10 && t < 10 && t as int + 11 - k as int < 20
    requires f == (hi1 ^ ((lo2 >> (64 - k * 6)) | (hi2 << (64 - (64 - k * 6))))) >> 2
    ensures GetLo(f, t) == 0 <==> GetHi(hi1, t) == GetN(lo2, hi2, t + 11 - k)
  {
    var w := (lo2 >> (64 - k * 6)) | (hi2 << (64 - (64 - k * 6)));
    var e := hi1 ^ w;
    ShrTwoCode(e, f, t);
    HiCodeXor(hi1, w, e, t);
    CrossHiCode(lo2, hi2, k, t, w);
  }

  lemma ShrTwoCode(e: bv64, f: bv64, t: bv8)
    requires t < 10 && f == e >> 2
    ensures GetLo(f, t) == GetHi(e, t)
  {}

  lemma HiCodeXor(x: bv64, y: bv64, d: bv64, t: bv8)
    requires t <= 10 && d == x ^ y
    ensures GetHi(d, t) == 0 <==> GetHi(x, t) == GetHi(y, t)
  {}

  /** Hi code t of the second value shifted left by 6k is its code t + 11 - k. */
  lemma CrossHiCode(lo2: bv64, hi2: bv64, k: bv8, t: bv8, w: bv64)
    requires 1 <= k <= 10 && t < 10 && t as int + 11 - k as int < 20
    requires w == (lo2 >> (64 - k * 6)) | (hi2 << (64 - (64 - k * 6)))
    ensures GetHi(w, t) == GetN(lo2, hi2, t + 11 - k)
  {
    if k == 1 {} else if k == 2 {} else if k == 3 {} else if k == 4 {} else if k == 5 {}
    else if k == 6 {} else if k == 7 {} else if k == 8 {} else if k == 9 {} else {}
  }

  /** The window splits at code 10 of the first value. */
  lemma CrossWindowSplit(lo1: bv64, hi1: bv64, lo2: bv64, hi2: bv64, k: bv8, n: bv8)
    requires k <= 10 && 11 <= k as int + n as int <= 20
    ensures WindowAt(lo1, hi1, lo2, hi2, n, k)
        <==> (WindowAt(lo1, hi1, lo2, hi2, 10 - k, k)
          && GetN(lo1, hi1, 10) == GetN(lo2, hi2, 10 - k)
          && CrossHiWindow(hi1, lo2, hi2, k, k + n - 11))
  {
    assert n <= 20 && 11 <= k + n <= 20;
    if WindowAt(lo1, hi1, lo2, hi2, n, k) {
      SplitPrefix(lo1, hi1, lo2, hi2, k, n);
      SplitMid(lo1, hi1, lo2, hi2, k, n);
      SplitHi(lo1, hi1, lo2, hi2, k, n);
    }
    if WindowAt(lo1, hi1, lo2, hi2, 10 - k, k)
      && GetN(lo1, hi1, 10) == GetN(lo2, hi2, 10 - k)
      && CrossHiWindow(hi1, lo2, hi2, k, k + n - 11)
    {
      SplitJoin(lo1, hi1, lo2, hi2, k, n);
    }
  }

  lemma SplitPrefix(lo1: bv64, hi1: bv64, lo2: bv64, hi2: bv64, k: bv8, n: bv8)
    requires k <= 10 && n <= 20 && 11 <= k + n <= 20
    requires WindowAt(lo1, hi1, lo2, hi2, n, k)
    ensures WindowAt(lo1, hi1, lo2, hi2, 10 - k, k)
  {
    forall j: bv8 | j < 10 - k ensures GetN(lo1, hi1, k + j) == GetN(lo2, hi2, j) {
      assert j < n;
    }
  }

  lemma SplitMid(lo1: bv64, hi1: bv64, lo2: bv64, hi2: bv64, k: bv8, n: bv8)
    requires k <= 10 && n <= 20 && 11 <= k + n <= 20
    requires WindowAt(lo1, hi1, lo2, hi2, n, k)
    ensures GetN(lo1, hi1, 10) == GetN(lo2, hi2, 10 - k)
  {
    assert 10 - k < n && k + (10 - k) == 10;
    assert GetN(lo1, hi1, k + (10 - k)) == GetN(lo2, hi2, 10 - k);
  }

  lemma SplitHi(lo1: bv64, hi1: bv64, lo2: bv64, hi2: bv64, k: bv8, n: bv8)
    requires k <= 10 && n <= 20 && 11 <= k + n <= 20
    requires WindowAt(lo1, hi1, lo2, hi2, n, k)
    ensures CrossHiWindow(hi1, lo2, hi2, k, k + n - 11)
  {
    forall t: bv8 | t < k + n - 11 ensures GetHi(hi1, t) == GetN(lo2, hi2, t + 11 - k) {
      CrossHiIndex(lo1, hi1, lo2, hi2, k, n, t);
    }
  }

  lemma CrossHiIndex(lo1: bv64, hi1: bv64, lo2: bv64, hi2: bv64, k: bv8, n: bv8, t: bv8)
    requires k <= 10 && n <= 20 && 11 <= k + n <= 20 && t < k + n - 11
    requires WindowAt(lo1, hi1, lo2, hi2, n, k)
    ensures GetHi(hi1, t) == GetN(lo2, hi2, t + 11 - k)
  {
    var j := t + 11 - k;
    WindowIndices(k, n, j, t);
    assert GetN(lo1, hi1, k + j) == GetN(lo2, hi2, j);
    HiGetterAgrees(lo1, hi1, t);
  }

  lemma SplitJoin(lo1: bv64, hi1: bv64, lo2: bv64, hi2: bv64, k: bv8, n: bv8)
    requires k <= 10 && n <= 20 && 11 <= k + n <= 20
    requires WindowAt(lo1, hi1, lo2, hi2, 10 - k, k)
    requires GetN(lo1, hi1, 10) == GetN(lo2, hi2, 10 - k)
    requires CrossHiWindow(hi1, lo2, hi2, k, k + n - 11)
    ensures WindowAt(lo1, hi1, lo2, hi2, n, k)
  {
    forall j: bv8 | j < n ensures GetN(lo1, hi1, k + j) == GetN(lo2, hi2, j) {
      if j < 10 - k {
      } else if j == 10 - k {
      } else {
        JoinIndex(lo1, hi1, lo2, hi2, k, n, j);
      }
    }
  }

  lemma JoinIndex(lo1: bv64, hi1: bv64, lo2: bv64, hi2: bv64, k: bv8, n: bv8, j: bv8)
    requires k <= 10 && n <= 20 && 11 <= k + n <= 20 && 10 - k < j < n
    requires CrossHiWindow(hi1, lo2, hi2, k, k + n - 11)
    ensures GetN(lo1, hi1, k + j) == GetN(lo2, hi2, j)
  {
    var t := k + j - 11;
    WindowIndices(k, n, j, t);
    assert GetHi(hi1, t) == GetN(lo2, hi2, t + 11 - k);
    HiGetterAgrees(lo1, hi1, t);
  }

  /** Index j of the needle sits at hi code t of the haystack. */
  lemma WindowIndices(k: bv8, n: bv8, j: bv8, t: bv8)
    requires k <= 10 && n <= 20 && 11 <= k + n <= 20 && 10 - k < j < n && t == k + j - 11
    ensures t < k + n - 11 && t + 11 - k == j && t + 11 == k + j
  {}

  lemma HiGetterAgrees(lo: bv64, hi: bv64, t: bv8)
    requires t <= 10
    ensures GetHi(hi, t) == GetN(lo, hi, t + 11)
  {
    assert (t + 11 - 11) * 6 + 2 == t * 6 + 2;
  }

  // ---------------------------------------------------------------------
  // Case 4: across the boundary at idx = 0 (the low part is the whole of lo)

  lemma WholeLoCase(lo1: bv64, hi1: bv64, lo2: bv64, hi2: bv64, n: bv8)
    requires 11 <= n <= 20
    ensures IsAtCross(lo1, hi1, lo2, hi2, 0, n * 6) <==> WindowAt(lo1, hi1, lo2, hi2, n, 0)
  {
    WholeLoCaseTo(lo1, hi1, lo2, hi2, n);
    WholeLoCaseFrom(lo1, hi1, lo2, hi2, n);
  }

  lemma WholeLoCaseTo(lo1: bv64, hi1: bv64, lo2: bv64, hi2: bv64, n: bv8)
    requires 11 <= n <= 20
    ensures IsAtCross(lo1, hi1, lo2, hi2, 0, n * 6) ==> WindowAt(lo1, hi1, lo2, hi2, n, 0)
  {
    WholeLoParts(lo1, hi1, lo2, hi2, n);
    WholeLoWord(lo1, lo2);
    WholeHiWord(hi1, hi2, n);
    WholeMid(lo1, hi1, lo2, hi2);
    LoZeros(lo1, hi1, lo2, hi2, 0, 10, lo1 ^ lo2);
    WholeHiZeros(lo2, hi1, hi2, n - 11, (hi1 ^ hi2) >> 2);
    CrossWindowSplit(lo1, hi1, lo2, hi2, 0, n);
  }

  lemma WholeLoCaseFrom(lo1: bv64, hi1: bv64, lo2: bv64, hi2: bv64, n: bv8)
    requires 11 <= n <= 20
    ensures WindowAt(lo1, hi1, lo2, hi2, n, 0) ==> IsAtCross(lo1, hi1, lo2, hi2, 0, n * 6)
  {
    WholeLoParts(lo1, hi1, lo2, hi2, n);
    WholeLoWord(lo1, lo2);
    WholeHiWord(hi1, hi2, n);
    WholeMid(lo1, hi1, lo2, hi2);
    LoZeros(lo1, hi1, lo2, hi2, 0, 10, lo1 ^ lo2);
    WholeHiZeros(lo2, hi1, hi2, n - 11, (hi1 ^ hi2) >> 2);
    CrossWindowSplit(lo1, hi1, lo2, hi2, 0, n);
  }

  /** The two comparisons of the corrected boundary case at idx = 0. */
  lemma WholeLoParts(lo1: bv64, hi1: bv64, lo2: bv64, hi2: bv64, n: bv8)
    requires 11 <= n <= 20
    ensures IsAtCross(lo1, hi1, lo2, hi2, 0, n * 6)
        == (lo1 == lo2 && hi1 & LowMask(n * 6 - 64) == hi2 & LowMask(n * 6 - 64))
  {}

  /** The whole of lo: codes 0..9 and the low 4 bits of code 10. */
  lemma WholeLoWord(lo1: bv64, lo2: bv64)
    ensures lo1 == lo2 <==> ZB(lo1 ^ lo2, 10) && LoTail(lo1, lo2, 0)
  {
    WholeLoWordTo(lo1, lo2);
    WholeLoWordFrom(lo1, lo2);
  }

  lemma WholeLoWordTo(lo1: bv64, lo2: bv64)
    ensures lo1 == lo2 ==> ZB(lo1 ^ lo2, 10) && LoTail(lo1, lo2, 0)
  {}

  lemma WholeLoWordFrom(lo1: bv64, lo2: bv64)
    ensures ZB(lo1 ^ lo2, 10) && LoTail(lo1, lo2, 0) ==> lo1 == lo2
  {}

  /** The low bits of hi: the top 2 bits of code 10 and hi codes 0..n-12. */
  lemma WholeHiWord(hi1: bv64, hi2: bv64, n: bv8)
    requires 11 <= n <= 20
    ensures hi1 & LowMask(n * 6 - 64) == hi2 & LowMask(n * 6 - 64)
        <==> hi1 & 3 == hi2 & 3 && ZB((hi1 ^ hi2) >> 2, n - 11)
  {
    WholeHiWordTo(hi1, hi2, n);
    WholeHiWordFrom(hi1, hi2, n);
  }

  lemma WholeHiWordTo(hi1: bv64, hi2: bv64, n: bv8)
    requires 11 <= n <= 20
    ensures hi1 & LowMask(n * 6 - 64) == hi2 & LowMask(n * 6 - 64)
        ==> hi1 & 3 == hi2 & 3 && ZB((hi1 ^ hi2) >> 2, n - 11)
  {
    assert n * 6 - 64 == (n - 11) * 6 + 2;
    XorMaskTo(hi1, hi2, LowMask(n * 6 - 64));
    MaskSplitTo(hi1 ^ hi2, n - 11);
  }

  lemma WholeHiWordFrom(hi1: bv64, hi2: bv64, n: bv8)
    requires 11 <= n <= 20
    ensures hi1 & 3 == hi2 & 3 && ZB((hi1 ^ hi2) >> 2, n - 11)
        ==> hi1 & LowMask(n * 6 - 64) == hi2 & LowMask(n * 6 - 64)
  {
    assert n * 6 - 64 == (n - 11) * 6 + 2;
    XorMaskFrom(hi1, hi2, LowMask(n * 6 - 64));
    MaskSplitFrom(hi1 ^ hi2, n - 11);
  }

  /** Two words agree under a mask when their xor vanishes under it. */
  lemma XorMaskTo(x: bv64, y: bv64, m: bv64)
    ensures x & m == y & m ==> (x ^ y) & m == 0
  {}

  lemma XorMaskFrom(x: bv64, y: bv64, m: bv64)
    ensures (x ^ y) & m == 0 ==> x & m == y & m
  {}

  /** The low 6h + 2 bits vanish when the low 2 bits and the next h codes do. */
  lemma MaskSplitTo(x: bv64, h: bv8)
    requires h <= 9
    ensures x & LowMask(h * 6 + 2) == 0 ==> x & 3 == 0 && ZB(x >> 2, h)
  {}

  lemma MaskSplitFrom(x: bv64, h: bv8)
    requires h <= 9
    ensures x & 3 == 0 && ZB(x >> 2, h) ==> x & LowMask(h * 6 + 2) == 0
  {}

  /** Code 10 of both values. */
  lemma WholeMid(lo1: bv64, hi1: bv64, lo2: bv64, hi2: bv64)
    ensures GetN(lo1, hi1, 10) == GetN(lo2, hi2, 10) <==> hi1 & 3 == hi2 & 3 && LoTail(lo1, lo2, 0)
  {}

  /** The hi codes of both values, below h. */
  lemma WholeHiZeros(lo2: bv64, hi1: bv64, hi2: bv64, h: bv8, f: bv64)
    requires h < 10 && f == (hi1 ^ hi2) >> 2
    ensures ZB(f, h) <==> CrossHiWindow(hi1, lo2, hi2, 0, h)
  {
    ZeroBelow(f, h);
    WholeHiZerosA(lo2, hi1, hi2, h, f);
    WholeHiZerosB(lo2, hi1, hi2, h, f);
  }

  lemma WholeHiZerosA(lo2: bv64, hi1: bv64, hi2: bv64, h: bv8, f: bv64)
    requires h < 10 && f == (hi1 ^ hi2) >> 2
    ensures CrossHiWindow(hi1, lo2, hi2, 0, h) ==> CodesZero(f, h)
  {
    if CrossHiWindow(hi1, lo2, hi2, 0, h) {
      forall t: bv8 | t < h ensures GetLo(f, t) == 0 {
        WholeHiLink(lo2, hi1, hi2, t, f);
      }
    }
  }

  lemma WholeHiZerosB(lo2: bv64, hi1: bv64, hi2: bv64, h: bv8, f: bv64)
    requires h < 10 && f == (hi1 ^ hi2) >> 2
    ensures CodesZero(f, h) ==> CrossHiWindow(hi1, lo2, hi2, 0, h)
  {
    if CodesZero(f, h) {
      forall t: bv8 | t < h ensures GetHi(hi1, t) == GetN(lo2, hi2, t + 11) {
        WholeHiLink(lo2, hi1, hi2, t, f);
      }
    }
  }

  lemma WholeHiLink(lo2: bv64, hi1: bv64, hi2: bv64, t: bv8, f: bv64)
    requires t < 9 && f == (hi1 ^ hi2) >> 2
    ensures GetLo(f, t) == 0 <==> GetHi(hi1, t) == GetN(lo2, hi2, t + 11)
  {
    var e := hi1 ^ hi2;
    ShrTwoCode(e, f, t);
    HiCodeXor(hi1, hi2, e, t);
    RegionGettersAgree(lo2, hi2, t);
  }
}
