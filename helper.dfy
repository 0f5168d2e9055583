/**
 * Bit placement of a packed string in two 64-bit words.
 *
 * Code n (a 6-bit symbol code) sits at bit 6n of the 128-bit value hi:lo:
 * codes 0..9 in lo, code 10 split between lo[60:63] (its low 4 bits) and
 * hi[0:1] (its high 2 bits), codes 11..19 in hi at bit 6(n-11)+2.  Read the
 * same way, "code" 20 is hi[56:61] and "code" 21 is hi[62:63]; together
 * they are the metadata byte hi[56:63] = length << 3 | flags.  So the
 * 22 codes of `GetN` cover all 128 bits, and every shift and mask below
 * is specified by what it does to them.
 *
 * The C helpers that update `*lo`/`*hi` through pointers are methods that
 * take the old words and return the new ones.  C `u8` is `bv8`, `u64` is
 * `bv64`; wherever C would shift a word by 64 or more, or by a negative
 * amount, the method has a precondition instead.
 */
module Helper {
  import opened Encoding

  // ---------------------------------------------------------------------
  // Getters

  /** ps_get_n_sixbit: the code at index n. */
  function GetN(lo: bv64, hi: bv64, n: bv8): (k: bv8)
    requires n < 22
    ensures k < 64
    ensures n == 21 ==> k < 4
  {
    if n < 10 then ((lo >> (n * 6)) & 0x3F) as bv8
    else if n == 10 then (((hi & 3) << 4) | ((lo >> 60) & 0xF)) as bv8
    else ((hi >> ((n - 11) * 6 + 2)) & 0x3F) as bv8
  }

  /** ps_get_lo: the 6 bits of lo at code position n. */
  function GetLo(lo: bv64, n: bv8): bv8
    requires n <= 10
  {
    ((lo >> (n * 6)) & 0x3F) as bv8
  }

  /** ps_get_mid: code 10, put together from lo[60:63] and hi[0:1]. */
  function GetMid(lo: bv64, hi: bv64): (k: bv8)
    ensures k < 64
  {
    (((hi & 0x3) << 4) | ((lo >> 60) & 0xF)) as bv8
  }

  /** ps_get_hi: the 6 bits of hi at code position 11 + n. */
  function GetHi(hi: bv64, n: bv8): bv8
    requires n <= 10
  {
    ((hi >> (n * 6 + 2)) & 0x3F) as bv8
  }

  /** The three region getters agree with the indexed getter. */
  lemma RegionGettersAgree(lo: bv64, hi: bv64, n: bv8)
    requires n <= 10
    ensures n < 10 ==> GetLo(lo, n) == GetN(lo, hi, n)
    ensures GetMid(lo, hi) == GetN(lo, hi, 10)
    ensures GetHi(hi, n) == GetN(lo, hi, n + 11)
  {
    assert (n + 11 - 11) * 6 + 2 == n * 6 + 2;
  }

  // ---------------------------------------------------------------------
  // Setters

  /** ps_set_lo: replace the lo bits of code n (n = 10 reaches only its low 4 bits). */
  method SetLo(lo: bv64, n: bv8, sixbit: bv8) returns (r: bv64)
    requires n <= 10
    ensures sixbit < 64 ==> GetLo(r, n) == (if n == 10 then sixbit & 0xF else sixbit)
    ensures sixbit < 64 ==> forall m: bv8 | m <= 10 && m != n :: GetLo(r, m) == GetLo(lo, m)
  {
    r := (lo & !(0x3F << (n * 6))) | ((sixbit as bv64) << (n * 6));
    if sixbit < 64 {
      PutLoSame(lo, n, sixbit);
      forall m: bv8 | m <= 10 && m != n ensures GetLo(r, m) == GetLo(lo, m) {
        PutLoOther(lo, n, m, sixbit);
      }
    }
  }

  lemma PutLoSame(x: bv64, n: bv8, s: bv8)
    requires n <= 10 && s < 64
    ensures GetLo((x & !(0x3F << (n * 6))) | ((s as bv64) << (n * 6)), n)
         == (if n == 10 then s & 0xF else s)
  {}

  lemma PutLoOther(x: bv64, n: bv8, m: bv8, s: bv8)
    requires n <= 10 && m <= 10 && n != m && s < 64
    ensures GetLo((x & !(0x3F << (n * 6))) | ((s as bv64) << (n * 6)), m) == GetLo(x, m)
  {}

  /** ps_set_mid: code 10 becomes the low 6 bits of sixbit; no other bit moves. */
  method SetMid(lo: bv64, hi: bv64, sixbit: bv8) returns (rlo: bv64, rhi: bv64)
    ensures GetMid(rlo, rhi) == sixbit & 0x3F
    ensures forall m: bv8 | m < 10 :: GetLo(rlo, m) == GetLo(lo, m)
    ensures forall m: bv8 | m <= 10 :: GetHi(rhi, m) == GetHi(hi, m)
  {
    rlo := (lo & !(0xF << 60)) | (((sixbit & 0xF) as bv64) << 60);
    rhi := (hi & !0x3) | (((sixbit >> 4) & 0x3) as bv64);
    PutMidSame(lo, hi, sixbit);
    forall m: bv8 | m < 10 ensures GetLo(rlo, m) == GetLo(lo, m) {
      PutMidLo(lo, m, sixbit);
    }
    forall m: bv8 | m <= 10 ensures GetHi(rhi, m) == GetHi(hi, m) {
      PutMidHi(hi, m, (sixbit >> 4) & 0x3);
    }
  }

  lemma PutMidSame(lo: bv64, hi: bv64, s: bv8)
    ensures GetMid((lo & !(0xF << 60)) | (((s & 0xF) as bv64) << 60), (hi & !0x3) | (((s >> 4) & 0x3) as bv64))
         == s & 0x3F
  {}

  lemma PutMidLo(x: bv64, m: bv8, s: bv8)
    requires m < 10
    ensures GetLo((x & !(0xF << 60)) | (((s & 0xF) as bv64) << 60), m) == GetLo(x, m)
  {}

  lemma PutMidHi(x: bv64, m: bv8, t: bv8)
    requires m <= 10 && t < 4
    ensures GetHi((x & !0x3) | (t as bv64), m) == GetHi(x, m)
  {}

  /** ps_set_hi: replace code 11 + n (n = 10 reaches only the top 2 bits of hi). */
  method SetHi(hi: bv64, n: bv8, sixbit: bv8) returns (r: bv64)
    requires n <= 10
    ensures sixbit < 64 ==> GetHi(r, n) == (if n == 10 then sixbit & 0x3 else sixbit)
    ensures sixbit < 64 ==> forall m: bv8 | m <= 10 && m != n :: GetHi(r, m) == GetHi(hi, m)
    ensures sixbit < 64 ==> r & 3 == hi & 3
  {
    r := (hi & !(0x3F << (n * 6 + 2))) | ((sixbit as bv64) << (n * 6 + 2));
    if sixbit < 64 {
      PutHiSame(hi, n, sixbit);
      forall m: bv8 | m <= 10 && m != n ensures GetHi(r, m) == GetHi(hi, m) {
        PutHiOther(hi, n, m, sixbit);
      }
    }
  }

  lemma PutHiSame(x: bv64, n: bv8, s: bv8)
    requires n <= 10 && s < 64
    ensures GetHi((x & !(0x3F << (n * 6 + 2))) | ((s as bv64) << (n * 6 + 2)), n)
         == (if n == 10 then s & 0x3 else s)
    ensures ((x & !(0x3F << (n * 6 + 2))) | ((s as bv64) << (n * 6 + 2))) & 3 == x & 3
  {}

  lemma PutHiOther(x: bv64, n: bv8, m: bv8, s: bv8)
    requires n <= 10 && m <= 10 && n != m && s < 64
    ensures GetHi((x & !(0x3F << (n * 6 + 2))) | ((s as bv64) << (n * 6 + 2)), m) == GetHi(x, m)
  {}

  /**
   * ps_set_n_sixbit: code n becomes sixbit and every other code, the
   * metadata included, keeps its value.
   */
  method SetNSixbit(lo: bv64, hi: bv64, n: bv8, sixbit: bv8) returns (rlo: bv64, rhi: bv64)
    requires n < 22
    ensures sixbit < 64 ==> GetN(rlo, rhi, n) == (if n == 21 then sixbit & 3 else sixbit)
    ensures sixbit < 64 ==> forall m: bv8 | m < 22 && m != n :: GetN(rlo, rhi, m) == GetN(lo, hi, m)
    ensures sixbit < 64 && n < 20 ==> ExtractMetadata(rhi) == ExtractMetadata(hi)
  {
    if n < 10 {
      rlo := (lo & !(0x3F << (n * 6))) | ((sixbit as bv64) << (n * 6));
      rhi := hi;
      if sixbit < 64 {
        SetNLoAll(lo, hi, n, sixbit, rlo);
      }
    } else if n == 10 {
      rlo := (lo & !(0xF << 60)) | (((sixbit & 0xF) as bv64) << 60);
      rhi := (hi & !0x3) | ((sixbit >> 4) as bv64);
      if sixbit < 64 {
        SetNMidAll(lo, hi, sixbit, rlo, rhi);
      }
    } else {
      rlo := lo;
      rhi := (hi & !(0x3F << ((n - 11) * 6 + 2))) | ((sixbit as bv64) << ((n - 11) * 6 + 2));
      if sixbit < 64 {
        SetNHiAll(lo, hi, n, sixbit, rhi);
      }
    }
  }

  lemma SetNLoAll(lo: bv64, hi: bv64, n: bv8, s: bv8, rlo: bv64)
    requires n < 10 && s < 64
    requires rlo == (lo & !(0x3F << (n * 6))) | ((s as bv64) << (n * 6))
    ensures GetN(rlo, hi, n) == s
    ensures forall m: bv8 | m < 22 && m != n :: GetN(rlo, hi, m) == GetN(lo, hi, m)
  {
    forall m: bv8 | m < 22 ensures GetN(rlo, hi, m) == if m == n then s else GetN(lo, hi, m) {
      SetNLoCase(lo, hi, n, m, s);
    }
  }

  lemma SetNMidAll(lo: bv64, hi: bv64, s: bv8, rlo: bv64, rhi: bv64)
    requires s < 64
    requires rlo == (lo & !(0xF << 60)) | (((s & 0xF) as bv64) << 60)
    requires rhi == (hi & !0x3) | ((s >> 4) as bv64)
    ensures GetN(rlo, rhi, 10) == s
    ensures forall m: bv8 | m < 22 && m != 10 :: GetN(rlo, rhi, m) == GetN(lo, hi, m)
    ensures ExtractMetadata(rhi) == ExtractMetadata(hi)
  {
    forall m: bv8 | m < 22 ensures GetN(rlo, rhi, m) == if m == 10 then s else GetN(lo, hi, m) {
      SetNMidCase(lo, hi, m, s);
    }
    SameTopCodesSameMetadata(lo, hi, rlo, rhi);
  }

  lemma SetNHiAll(lo: bv64, hi: bv64, n: bv8, s: bv8, rhi: bv64)
    requires 11 <= n < 22 && s < 64
    requires rhi == (hi & !(0x3F << ((n - 11) * 6 + 2))) | ((s as bv64) << ((n - 11) * 6 + 2))
    ensures GetN(lo, rhi, n) == (if n == 21 then s & 3 else s)
    ensures forall m: bv8 | m < 22 && m != n :: GetN(lo, rhi, m) == GetN(lo, hi, m)
    ensures n < 20 ==> ExtractMetadata(rhi) == ExtractMetadata(hi)
  {
    forall m: bv8 | m < 22
      ensures GetN(lo, rhi, m) == if m == n then (if n == 21 then s & 3 else s) else GetN(lo, hi, m)
    {
      SetNHiCase(lo, hi, n, m, s);
    }
    if n < 20 {
      SameTopCodesSameMetadata(lo, hi, lo, rhi);
    }
  }

  lemma SetNLoCase(lo: bv64, hi: bv64, n: bv8, m: bv8, s: bv8)
    requires n < 10 && m < 22 && s < 64
    ensures GetN((lo & !(0x3F << (n * 6))) | ((s as bv64) << (n * 6)), hi, m)
         == if m == n then s else GetN(lo, hi, m)
  {}

  lemma SetNMidCase(lo: bv64, hi: bv64, m: bv8, s: bv8)
    requires m < 22 && s < 64
    ensures GetN((lo & !(0xF << 60)) | (((s & 0xF) as bv64) << 60), (hi & !0x3) | ((s >> 4) as bv64), m)
         == if m == 10 then s else GetN(lo, hi, m)
  {}

  lemma SetNHiCase(lo: bv64, hi: bv64, n: bv8, m: bv8, s: bv8)
    requires 11 <= n < 22 && m < 22 && s < 64
    ensures GetN(lo, (hi & !(0x3F << ((n - 11) * 6 + 2))) | ((s as bv64) << ((n - 11) * 6 + 2)), m)
         == if m == n then (if n == 21 then s & 3 else s) else GetN(lo, hi, m)
  {}

  // ---------------------------------------------------------------------
  // Shifts of the 128-bit value hi:lo
  //
  // Only shifts by whole codes (multiples of 6) are specified: a right
  // shift by 6k moves code i + k to index i, a left shift by 6k moves code
  // i - k to index i (code 21 keeps only 2 bits).

  /** ps_shr: the unguarded right shift, defined for 0 < shift < 64. */
  method Shr(lo: bv64, hi: bv64, shift: bv8) returns (rlo: bv64, rhi: bv64)
    requires 0 < shift < 64
    ensures shift % 6 == 0 ==> forall i: bv8 | i < 22 ::
      GetN(rlo, rhi, i) == ShiftedRightCode(lo, hi, shift / 6, i)
  {
    rlo := (hi << (64 - shift)) | (lo >> shift);
    rhi := hi >> shift;
    if shift % 6 == 0 {
      assert rlo == (lo >> shift) | (hi << (64 - shift));
      ShrWholeAll(lo, hi, shift, rlo, rhi);
    }
  }

  /** ps_shl: the unguarded left shift, defined for 0 < shift < 64. */
  method Shl(lo: bv64, hi: bv64, shift: bv8) returns (rlo: bv64, rhi: bv64)
    requires 0 < shift < 64
    ensures shift % 6 == 0 ==> forall i: bv8 | i < 22 ::
      GetN(rlo, rhi, i) == ShiftedLeftCode(lo, hi, shift / 6, i)
  {
    rhi := (hi << shift) | (lo >> (64 - shift));
    rlo := lo << shift;
    if shift % 6 == 0 {
      ShlWholeAll(lo, hi, shift, rlo, rhi);
    }
  }

  /** ps_shr128: the right shift for 0 < shift < 128 (shift 0 would shift hi by 64). */
  method Shr128(lo: bv64, hi: bv64, shift: bv8) returns (rlo: bv64, rhi: bv64)
    requires 0 < shift < 128
    ensures shift % 6 == 0 ==> forall i: bv8 | i < 22 ::
      GetN(rlo, rhi, i) == ShiftedRightCode(lo, hi, shift / 6, i)
  {
    if shift < 64 {
      rlo := (lo >> shift) | (hi << (64 - shift));
      rhi := hi >> shift;
      if shift % 6 == 0 {
        ShrWholeAll(lo, hi, shift, rlo, rhi);
      }
    } else {
      rlo := hi >> (shift - 64);
      rhi := 0;
      if shift % 6 == 0 {
        ShrWordAll(lo, hi, shift, rlo);
      }
    }
  }

  /**
   * ps_shl128: the left shift for shift < 128 other than 0 and 64 (both
   * would shift a word by 64).
   */
  method Shl128(lo: bv64, hi: bv64, shift: bv8) returns (rlo: bv64, rhi: bv64)
    requires shift < 128 && shift != 0 && shift != 64
    ensures shift % 6 == 0 ==> forall i: bv8 | i < 22 ::
      GetN(rlo, rhi, i) == ShiftedLeftCode(lo, hi, shift / 6, i)
  {
    if shift <= 64 {
      rhi := (hi << shift) | (lo >> (64 - shift));
      rlo := lo << shift;
      if shift % 6 == 0 {
        ShlWholeAll(lo, hi, shift, rlo, rhi);
      }
    } else {
      rhi := lo << (shift - 64);
      rlo := 0;
      if shift % 6 == 0 {
        ShlWordAll(lo, hi, shift, rhi);
      }
    }
  }

  /** Code i after a right shift by k codes: k zero codes come in at the top. */
  function ShiftedRightCode(lo: bv64, hi: bv64, k: bv8, i: bv8): bv8
    requires k < 22 && i < 22
  {
    if i + k < 22 then GetN(lo, hi, i + k) else 0
  }

  /** Code i after a left shift by k codes: k zero codes come in at the bottom. */
  function ShiftedLeftCode(lo: bv64, hi: bv64, k: bv8, i: bv8): bv8
    requires k < 22 && i < 22
  {
    if i < k then 0
    else if i == 21 then GetN(lo, hi, i - k) & 3
    else GetN(lo, hi, i - k)
  }

  lemma WholeCodes(shift: bv8)
    requires shift % 6 == 0
    ensures shift == (shift / 6) * 6
  {}

  /** A right shift by a whole number of codes below 64 bits, code by code. */
  lemma ShrWholeAll(lo: bv64, hi: bv64, shift: bv8, rlo: bv64, rhi: bv64)
    requires 0 < shift < 64 && shift % 6 == 0
    requires rlo == (lo >> shift) | (hi << (64 - shift)) && rhi == hi >> shift
    ensures forall i: bv8 | i < 22 ::
      GetN(rlo, rhi, i) == ShiftedRightCode(lo, hi, shift / 6, i)
  {
    WholeCodes(shift);
    forall i: bv8 | i < 22
      ensures GetN(rlo, rhi, i) == ShiftedRightCode(lo, hi, shift / 6, i)
    {
      ShrWholeCodes(lo, hi, shift, shift / 6, i);
    }
  }

  /** A right shift by a whole number of codes of 64 bits or more. */
  lemma ShrWordAll(lo: bv64, hi: bv64, shift: bv8, rlo: bv64)
    requires 64 <= shift < 128 && shift % 6 == 0
    requires rlo == hi >> (shift - 64)
    ensures forall i: bv8 | i < 22 ::
      GetN(rlo, 0, i) == ShiftedRightCode(lo, hi, shift / 6, i)
  {
    WholeCodes(shift);
    forall i: bv8 | i < 22
      ensures GetN(rlo, 0, i) == ShiftedRightCode(lo, hi, shift / 6, i)
    {
      ShrWordCodes(lo, hi, shift, shift / 6, i);
    }
  }

  /** A left shift by a whole number of codes below 64 bits. */
  lemma ShlWholeAll(lo: bv64, hi: bv64, shift: bv8, rlo: bv64, rhi: bv64)
    requires 0 < shift < 64 && shift % 6 == 0
    requires rlo == lo << shift && rhi == (hi << shift) | (lo >> (64 - shift))
    ensures forall i: bv8 | i < 22 :: GetN(rlo, rhi, i) == ShiftedLeftCode(lo, hi, shift / 6, i)
  {
    WholeCodes(shift);
    forall i: bv8 | i < 22 ensures GetN(rlo, rhi, i) == ShiftedLeftCode(lo, hi, shift / 6, i)
    {
      ShlWholeCodes(lo, hi, shift, shift / 6, i);
    }
  }

  /** A left shift by a whole number of codes of 64 bits or more. */
  lemma ShlWordAll(lo: bv64, hi: bv64, shift: bv8, rhi: bv64)
    requires 64 < shift < 128 && shift % 6 == 0
    requires rhi == lo << (shift - 64)
    ensures forall i: bv8 | i < 22 :: GetN(0, rhi, i) == ShiftedLeftCode(lo, hi, shift / 6, i)
  {
    WholeCodes(shift);
    forall i: bv8 | i < 22 ensures GetN(0, rhi, i) == ShiftedLeftCode(lo, hi, shift / 6, i)
    {
      ShlWordCodes(lo, hi, shift, shift / 6, i);
    }
  }

  // Word-level facts behind the shifts.  A shift by 6a + c is split into a
  // constant shift and a shift by whole codes; each case lemma below takes
  // the shift in bits together with its count k of whole codes.

  lemma SplitShr2(x: bv64, a: bv8)
    requires a <= 10
    ensures x >> (6 * a + 2) == (x >> 2) >> (6 * a)
  {}

  lemma SplitShr4(x: bv64, a: bv8)
    requires a <= 10
    ensures x >> (6 * a + 4) == (x >> 4) >> (6 * a)
  {}

  lemma SplitShr6(x: bv64, a: bv8)
    requires a <= 9
    ensures x >> (6 * a + 6) == (x >> 6) >> (6 * a)
  {}

  lemma SwapShr2(y: bv64, a: bv8)
    requires a <= 10
    ensures (y >> (6 * a)) >> 2 == (y >> 2) >> (6 * a)
  {}

  lemma JoinShr(y: bv64, a: bv8, b: bv8)
    requires a <= 10 && b <= 10 && a + b <= 10
    ensures ((y >> (6 * a)) >> (6 * b)) & 63 == (y >> (6 * (a + b))) & 63
  {}

  lemma JoinShrPast(y: bv64, a: bv8, b: bv8)
    requires a <= 10 && b <= 10 && a + b >= 11
    ensures ((y >> 2) >> (6 * a)) >> (6 * b) == 0
  {}

  lemma ShlThenShr(x: bv64, a: bv8, b: bv8)
    requires a <= b <= 9
    ensures ((x << (6 * a)) >> (6 * b)) & 63 == (x >> (6 * (b - a))) & 63
  {}

  lemma ShlThenShrBelow(x: bv64, a: bv8, b: bv8)
    requires b < a <= 10
    ensures ((x << (6 * a)) >> (6 * b)) & 63 == 0
  {}

  lemma ShrShr42(x: bv64, a: bv8, j: bv8)
    requires a <= 9 && j <= 9 && a + j + 1 <= 10
    ensures ((x >> (6 * a + 4)) >> (6 * j + 2)) & 63 == (x >> (6 * (a + j + 1))) & 63
  {
    SplitShr4(x, a);
    SplitShr2(x >> (6 * a + 4), j);
    SwapShr2(x >> 4, a);
    assert (x >> 4) >> 2 == x >> 6;
    JoinShr(x >> 6, a, j);
    SplitShr6(x, a + j);
    assert 6 * (a + j) + 6 == 6 * (a + j + 1);
  }

  /** A right shift by 6k, 1 <= k <= 10: both words move. */
  lemma ShrWholeCodes(lo: bv64, hi: bv64, shift: bv8, k: bv8, i: bv8)
    requires shift == k * 6 && 1 <= k <= 10 && i < 22
    ensures GetN((lo >> shift) | (hi << (64 - shift)), hi >> shift, i)
         == ShiftedRightCode(lo, hi, k, i)
  {
    if i < 10 {
      if i + k < 10 {
        ShrWholeLoLo(lo, hi, shift, k, i);
      } else if i + k > 10 {
        ShrWholeLoHi(lo, hi, shift, k, i);
      }
    } else if i > 10 && i + k < 22 {
      ShrWholeHiHi(lo, hi, shift, k, i);
    }
  }

  lemma ShrWholeLoLo(lo: bv64, hi: bv64, shift: bv8, k: bv8, i: bv8)
    requires shift == k * 6 && 1 <= k <= 10 && i < 10 && i + k < 10
    ensures GetN((lo >> shift) | (hi << (64 - shift)), hi >> shift, i) == GetN(lo, hi, i + k)
  {
    assert ((hi << (64 - shift)) >> (6 * i)) & 63 == 0;
    JoinShr(lo, k, i);
    assert shift == 6 * k && (i + k) * 6 == 6 * (k + i);
  }

  lemma ShrWholeLoHi(lo: bv64, hi: bv64, shift: bv8, k: bv8, i: bv8)
    requires shift == k * 6 && 1 <= k <= 10 && i < 10 && i + k > 10
    ensures GetN((lo >> shift) | (hi << (64 - shift)), hi >> shift, i) == GetN(lo, hi, i + k)
  {
    ShrGoneLo(lo, shift, k, i);
    ShlIntoLo(hi, shift, k, i);
    OrLo(lo >> shift, hi << (64 - shift), i);
    RegionGettersAgree((lo >> shift) | (hi << (64 - shift)), hi >> shift, i);
    RegionGettersAgree(lo, hi, i + k - 11);
  }

  lemma ShrGoneLo(lo: bv64, shift: bv8, k: bv8, i: bv8)
    requires shift == k * 6 && 1 <= k <= 10 && i < 10 && i + k > 10
    ensures GetLo(lo >> shift, i) == 0
  {}

  lemma ShlIntoLo(hi: bv64, shift: bv8, k: bv8, i: bv8)
    requires shift == k * 6 && 1 <= k <= 10 && i < 10 && i + k > 10
    ensures GetLo(hi << (64 - shift), i) == GetHi(hi, i + k - 11)
  {
    if k == 1 {} else if k == 2 {} else if k == 3 {} else if k == 4 {} else if k == 5 {}
    else if k == 6 {} else if k == 7 {} else if k == 8 {} else if k == 9 {} else {}
  }

  lemma OrLo(a: bv64, b: bv64, i: bv8)
    requires i < 10
    ensures GetLo(a | b, i) == GetLo(a, i) | GetLo(b, i)
  {}

  lemma ShrWholeHiHi(lo: bv64, hi: bv64, shift: bv8, k: bv8, i: bv8)
    requires shift == k * 6 && 1 <= k <= 10 && 10 < i < 22 && i + k < 22
    ensures GetN((lo >> shift) | (hi << (64 - shift)), hi >> shift, i) == GetN(lo, hi, i + k)
  {
    var j := i - 11;
    assert shift == 6 * k;
    SplitShr2(hi >> (6 * k), j);
    SwapShr2(hi, k);
    JoinShr(hi >> 2, k, j);
    SplitShr2(hi, k + j);
    assert (i + k - 11) * 6 + 2 == 6 * (k + j) + 2;
  }

  /** A right shift by 6k, 11 <= k <= 21: lo receives what is left of hi. */
  lemma ShrWordCodes(lo: bv64, hi: bv64, shift: bv8, k: bv8, i: bv8)
    requires shift == k * 6 && 11 <= k <= 21 && i < 22
    ensures GetN(hi >> (shift - 64), 0, i) == ShiftedRightCode(lo, hi, k, i)
  {
    if i < 10 {
      ShrWordLo(lo, hi, shift, k, i);
    }
  }

  lemma ShrWordLo(lo: bv64, hi: bv64, shift: bv8, k: bv8, i: bv8)
    requires shift == k * 6 && 11 <= k <= 21 && i < 10
    ensures GetN(hi >> (shift - 64), 0, i) == if i + k < 22 then GetN(lo, hi, i + k) else 0
  {
    RegionGettersAgree(hi >> (shift - 64), 0, i);
    if i + k < 22 {
      ShrHiCode(hi, hi >> (shift - 64), shift, k, i);
      RegionGettersAgree(lo, hi, k - 11 + i);
      assert k - 11 + i + 11 == i + k;
    } else {
      var a := k - 11;
      assert shift - 64 == 6 * a + 2;
      SplitShr2(hi, a);
      JoinShrPast(hi, a, i);
    }
  }

  /** Code i of hi shifted right by 6k - 64 is hi code k - 11 + i. */
  lemma ShrHiCode(hi: bv64, x: bv64, shift: bv8, k: bv8, i: bv8)
    requires shift == k * 6 && 11 <= k && i < 10 && i as int + k as int <= 21
    requires x == hi >> (shift - 64)
    ensures GetLo(x, i) == GetHi(hi, k - 11 + i)
  {
    var a := k - 11;
    assert shift - 64 == 6 * a + 2;
    SplitShr2(hi, a);
    SplitShr2(hi, a + i);
    JoinShr(hi >> 2, a, i);
  }

  /** A left shift by 6k, 1 <= k <= 10: both words move. */
  lemma ShlWholeCodes(lo: bv64, hi: bv64, shift: bv8, k: bv8, i: bv8)
    requires shift == k * 6 && 1 <= k <= 10 && i < 22
    ensures GetN(lo << shift, (hi << shift) | (lo >> (64 - shift)), i) == ShiftedLeftCode(lo, hi, k, i)
  {
    if i < 10 {
      ShlWholeLo(lo, hi, shift, k, i);
    } else if i > 10 {
      var j := i - 11;
      if j == 10 {
        ShlWholeTop(lo, hi, shift, k);
      } else if j >= k {
        ShlWholeHiHi(lo, hi, shift, k, j);
      } else if j == k - 1 {
        ShlWholeHiMid(lo, hi, shift, k);
      } else {
        ShlWholeHiLo(lo, hi, shift, k, j);
      }
    }
  }

  lemma ShlWholeLo(lo: bv64, hi: bv64, shift: bv8, k: bv8, i: bv8)
    requires shift == k * 6 && 1 <= k <= 10 && i < 10
    ensures GetN(lo << shift, (hi << shift) | (lo >> (64 - shift)), i) == ShiftedLeftCode(lo, hi, k, i)
  {
    assert shift == 6 * k;
    if i < k { ShlThenShrBelow(lo, k, i); } else { ShlThenShr(lo, k, i); }
  }

  lemma ShlWholeTop(lo: bv64, hi: bv64, shift: bv8, k: bv8)
    requires shift == k * 6 && 1 <= k <= 10
    ensures GetN(lo << shift, (hi << shift) | (lo >> (64 - shift)), 21) == ShiftedLeftCode(lo, hi, k, 21)
  {
    assert ((lo >> (64 - shift)) >> 62) & 63 == 0;
    assert ((hi << shift) >> 62) & 63 == (hi >> ((10 - k) * 6 + 2)) & 3;
  }

  lemma ShlWholeHiHi(lo: bv64, hi: bv64, shift: bv8, k: bv8, j: bv8)
    requires shift == k * 6 && 1 <= k <= 10 && k <= j <= 9
    ensures GetN(lo << shift, (hi << shift) | (lo >> (64 - shift)), j + 11) == ShiftedLeftCode(lo, hi, k, j + 11)
  {
    ShlKeepHi(hi, shift, k, j);
    ShrGoneHi(lo, shift, k, j);
    OrHi(hi << shift, lo >> (64 - shift), j);
    RegionGettersAgree(lo << shift, (hi << shift) | (lo >> (64 - shift)), j);
    RegionGettersAgree(lo, hi, j - k);
    assert j + 11 - k == j - k + 11;
  }

  lemma ShlKeepHi(hi: bv64, shift: bv8, k: bv8, j: bv8)
    requires shift == k * 6 && 1 <= k <= 10 && k <= j <= 9
    ensures GetHi(hi << shift, j) == GetHi(hi, j - k)
  {
    if k == 1 {} else if k == 2 {} else if k == 3 {} else if k == 4 {} else if k == 5 {}
    else if k == 6 {} else if k == 7 {} else if k == 8 {} else {}
  }

  lemma ShrGoneHi(lo: bv64, shift: bv8, k: bv8, j: bv8)
    requires shift == k * 6 && 1 <= k <= 10 && k <= j <= 9
    ensures GetHi(lo >> (64 - shift), j) == 0
  {}

  lemma OrHi(a: bv64, b: bv64, j: bv8)
    requires j <= 10
    ensures GetHi(a | b, j) == GetHi(a, j) | GetHi(b, j)
  {}

  lemma ShlWholeHiMid(lo: bv64, hi: bv64, shift: bv8, k: bv8)
    requires shift == k * 6 && 1 <= k <= 10
    ensures GetN(lo << shift, (hi << shift) | (lo >> (64 - shift)), k + 10) == ShiftedLeftCode(lo, hi, k, k + 10)
  {
    assert ((hi << shift) >> ((k - 1) * 6 + 2)) & 63 == (hi & 3) << 4;
    assert ((lo >> (64 - shift)) >> ((k - 1) * 6 + 2)) & 63 == lo >> 60;
    assert (k + 10 - 11) * 6 + 2 == (k - 1) * 6 + 2;
  }

  lemma ShlWholeHiLo(lo: bv64, hi: bv64, shift: bv8, k: bv8, j: bv8)
    requires shift == k * 6 && 1 <= k <= 10 && j < k - 1
    ensures GetN(lo << shift, (hi << shift) | (lo >> (64 - shift)), j + 11) == ShiftedLeftCode(lo, hi, k, j + 11)
  {
    assert ((hi << shift) >> (j * 6 + 2)) & 63 == 0;
    assert 64 - shift == 6 * (10 - k) + 4;
    ShlLoIntoHi(lo, k, j);
    assert (j + 11 - 11) * 6 + 2 == j * 6 + 2;
  }

  lemma ShlLoIntoHi(lo: bv64, k: bv8, j: bv8)
    requires 1 <= k <= 10 && j < k - 1
    ensures ((lo >> (6 * (10 - k) + 4)) >> (j * 6 + 2)) & 63 == (lo >> ((j + 11 - k) * 6)) & 63
  {
    ShrShr42(lo, 10 - k, j);
    assert 6 * (10 - k + j + 1) == (j + 11 - k) * 6;
  }

  /** A left shift by 6k, 11 <= k <= 21: hi receives what is left of lo. */
  lemma ShlWordCodes(lo: bv64, hi: bv64, shift: bv8, k: bv8, i: bv8)
    requires shift == k * 6 && 11 <= k <= 21 && i < 22
    ensures GetN(0, lo << (shift - 64), i) == ShiftedLeftCode(lo, hi, k, i)
  {
    if i > 10 {
      ShlWordHi(lo, shift, k, i - 11);
      assert (i - 11) * 6 + 2 == (i - 11) * 6 + 2;
    }
  }

  lemma ShlWordHi(lo: bv64, shift: bv8, k: bv8, j: bv8)
    requires shift == k * 6 && 11 <= k <= 21 && j <= 10
    ensures ((lo << (shift - 64)) >> (j * 6 + 2)) & 63
         == if j < k - 11 then 0
            else if j == 10 then (lo >> ((21 - k) * 6)) & 3
            else (lo >> ((j + 11 - k) * 6)) & 63
  {
    assert shift - 64 == 6 * (k - 11) + 2;
  }

  // ---------------------------------------------------------------------
  // Metadata byte

  /** ps_pack_metadata: length in bits 3..7, flags in bits 0..2. */
  function PackMetadata(length: bv8, flags: bv8): (m: bv8)
    ensures length < 32 && flags < 8 ==> m >> 3 == length && m & 7 == flags
  {
    (length << 3) | flags
  }

  /** ps_extract_metadata: hi[56:63]. */
  function ExtractMetadata(hi: bv64): bv8 {
    ((hi >> 56) & 0xFF) as bv8
  }

  /** The metadata byte is codes 20 and 21 read together. */
  lemma MetadataIsTopCodes(lo: bv64, hi: bv64)
    ensures ExtractMetadata(hi) == GetN(lo, hi, 20) | (GetN(lo, hi, 21) << 6)
  {}

  lemma SameTopCodesSameMetadata(lo: bv64, hi: bv64, lo': bv64, hi': bv64)
    requires GetN(lo', hi', 20) == GetN(lo, hi, 20) && GetN(lo', hi', 21) == GetN(lo, hi, 21)
    ensures ExtractMetadata(hi') == ExtractMetadata(hi)
  {
    MetadataIsTopCodes(lo, hi);
    MetadataIsTopCodes(lo', hi');
  }

  /** ps_insert_metadata: overwrite hi[56:63] and keep hi[0:55]. */
  method InsertMetadata(hi: bv64, metadata: bv8) returns (r: bv64)
    ensures ExtractMetadata(r) == metadata
    ensures r & 0x00FF_FFFF_FFFF_FFFF == hi & 0x00FF_FFFF_FFFF_FFFF
  {
    r := (hi & 0x00FF_FFFF_FFFF_FFFF) | ((metadata as bv64) << 56);
  }

  /** Keeping hi[0:55] keeps codes 0..19. */
  lemma SameLowHiKeepsCodes(lo: bv64, hi: bv64, hi': bv64)
    requires hi' & 0x00FF_FFFF_FFFF_FFFF == hi & 0x00FF_FFFF_FFFF_FFFF
    ensures forall i: bv8 | i < 20 :: GetN(lo, hi', i) == GetN(lo, hi, i)
  {
    forall i: bv8 | i < 20 ensures GetN(lo, hi', i) == GetN(lo, hi, i) {
      if i > 10 {
        var s := (i - 11) * 6 + 2;
        assert (hi' >> s) & 0x3F == ((hi' & 0x00FF_FFFF_FFFF_FFFF) >> s) & 0x3F;
        assert (hi >> s) & 0x3F == ((hi & 0x00FF_FFFF_FFFF_FFFF) >> s) & 0x3F;
      } else if i == 10 {
        assert hi' & 3 == (hi' & 0x00FF_FFFF_FFFF_FFFF) & 3;
        assert hi & 3 == (hi & 0x00FF_FFFF_FFFF_FFFF) & 3;
      }
    }
  }

  // ---------------------------------------------------------------------
  // Characters

  /** ps_sixbit_to_char: the symbol of a code, '?' for 64 and above. */
  function SixbitToChar(sixbit: bv8): (c: char)
    ensures sixbit >= 64 ==> c == '?'
    ensures sixbit < 64 ==> InAlphabet(c)
  {
    SixbitToCharLength();
    if sixbit < 64 then
      SixbitToCharInAlphabet(sixbit);
      SixbitToCharTable[sixbit]
    else '?'
  }

  /** ps_char_to_sixbit: the code of a character, UINT8_MAX outside the alphabet. */
  function CharToSixbit(c: char): (k: bv8)
    ensures k == 0xFF <==> !InAlphabet(c)
    ensures k != 0xFF ==> k < 64
  {
    CharToSixbitZero(c);
    var r := CharToSixbitTable(c);
    if r != 0 || c == '0' then r else 0xFF
  }

  /** ps_char_valid. */
  function CharValid(c: char): (b: bool)
    ensures b <==> InAlphabet(c)
    ensures b <==> CharToSixbit(c) != 0xFF
  {
    CharToSixbitZero(c);
    CharToSixbitTable(c) != 0 || c == '0'
  }

  /** Encoding a character and decoding the code gives the character back. */
  lemma CharRoundTrip(c: char)
    requires CharValid(c)
    ensures SixbitToChar(CharToSixbit(c)) == c
  {
    SixbitToCharOfCharToSixbit(c);
  }

  /** Decoding a code and encoding the character gives the code back. */
  lemma SixbitRoundTrip(k: bv8)
    requires k < 64
    ensures CharToSixbit(SixbitToChar(k)) == k
  {
    SixbitToCharLength();
    CharToSixbitOfSixbitToChar(k);
  }

  // ---------------------------------------------------------------------
  // The codes as a sequence

  /** The 22 code slots of hi:lo, in index order. */
  function Codes(lo: bv64, hi: bv64): (c: seq<bv8>)
    ensures |c| == 22
    ensures forall i: bv8 | i < 22 :: c[i] == GetN(lo, hi, i)
  {
    seq(22, i requires 0 <= i < 22 => GetN(lo, hi, i as bv8))
  }
}
