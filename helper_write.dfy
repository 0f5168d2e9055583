/**
 * The helpers of helper.h that build code words bit by bit: write_sixbit
 * (OR a code in at a bit position), fill and limit.
 */
module HelperWrite {
  import opened Helper

  /** The code at index m after OR-ing sixbit in at bit position bitpos. */
  function OrAt(lo: bv64, hi: bv64, sixbit: bv8, bitpos: bv8, m: bv8): bv8
    requires m < 22
  {
    if m * 6 != bitpos then GetN(lo, hi, m)
    else if m == 21 then GetN(lo, hi, m) | (sixbit & 3)
    else GetN(lo, hi, m) | sixbit
  }

  /** ps_write_sixbit: OR a code into the words at a bit position. */
  method WriteSixbit(lo: bv64, hi: bv64, sixbit: bv8, bitpos: bv8) returns (rlo: bv64, rhi: bv64)
    requires bitpos < 128 && !(61 <= bitpos <= 63)
    ensures bitpos % 6 == 0 && sixbit < 64 ==>
      forall m: bv8 | m < 22 :: GetN(rlo, rhi, m) == OrAt(lo, hi, sixbit, bitpos, m)
  {
    if bitpos < 60 {
      rlo := lo | ((sixbit as bv64) << bitpos);
      rhi := hi;
      if bitpos % 6 == 0 && sixbit < 64 {
        LoBitpos(bitpos);
        WriteLoAll(lo, hi, sixbit, bitpos / 6, rlo);
      }
    } else if bitpos == 60 {
      rlo := lo | (((sixbit & 0xF) as bv64) << 60);
      rhi := hi | ((sixbit >> 4) as bv64);
      if sixbit < 64 {
        WriteMidAll(lo, hi, sixbit, rlo, rhi);
      }
    } else {
      rlo := lo;
      rhi := hi | ((sixbit as bv64) << (bitpos - 64));
      if bitpos % 6 == 0 && sixbit < 64 {
        WriteHiAll(lo, hi, sixbit, bitpos, rhi);
      }
    }
  }

  lemma WriteLoAll(lo: bv64, hi: bv64, s: bv8, n: bv8, rlo: bv64)
    requires n < 10 && s < 64
    requires rlo == lo | ((s as bv64) << (n * 6))
    ensures forall m: bv8 | m < 22 :: GetN(rlo, hi, m) == OrAt(lo, hi, s, n * 6, m)
  {
    forall m: bv8 | m < 22 ensures GetN(rlo, hi, m) == OrAt(lo, hi, s, n * 6, m) {
      WriteLoCode(lo, hi, s, n, rlo, m);
    }
  }

  lemma WriteLoCode(lo: bv64, hi: bv64, s: bv8, n: bv8, rlo: bv64, m: bv8)
    requires n < 10 && s < 64 && m < 22
    requires rlo == lo | ((s as bv64) << (n * 6))
    ensures GetN(rlo, hi, m) == OrAt(lo, hi, s, n * 6, m)
  {
    if m == n {
      WriteLoSame(lo, hi, s, n, rlo, m);
    } else if m < 10 {
      WriteLoOther(lo, hi, s, n, rlo, m);
    } else if m == 10 {
      WriteLoMid(lo, hi, s, n, rlo);
    }
  }

  lemma WriteLoSame(lo: bv64, hi: bv64, s: bv8, n: bv8, rlo: bv64, m: bv8)
    requires n < 10 && s < 64 && m < 22 && m == n
    requires rlo == lo | ((s as bv64) << (n * 6))
    ensures GetN(rlo, hi, m) == OrAt(lo, hi, s, n * 6, m)
  {
    OrLoSame(lo, s, n);
    assert GetN(rlo, hi, m) == GetLo(rlo, m) && GetN(lo, hi, m) == GetLo(lo, m);
  }

  lemma WriteLoOther(lo: bv64, hi: bv64, s: bv8, n: bv8, rlo: bv64, m: bv8)
    requires n < 10 && s < 64 && m < 10 && m != n
    requires rlo == lo | ((s as bv64) << (n * 6))
    ensures GetN(rlo, hi, m) == OrAt(lo, hi, s, n * 6, m)
  {
    OrLoOther(lo, s, n, m);
    assert GetN(rlo, hi, m) == GetLo(rlo, m) && GetN(lo, hi, m) == GetLo(lo, m);
  }

  lemma WriteLoMid(lo: bv64, hi: bv64, s: bv8, n: bv8, rlo: bv64)
    requires n < 10 && s < 64
    requires rlo == lo | ((s as bv64) << (n * 6))
    ensures GetN(rlo, hi, 10) == OrAt(lo, hi, s, n * 6, 10)
  {
    OrLoOther(lo, s, n, 10);
  }

  lemma OrLoSame(x: bv64, s: bv8, n: bv8)
    requires n < 10 && s < 64
    ensures GetLo(x | ((s as bv64) << (n * 6)), n) == GetLo(x, n) | s
  {}

  lemma OrLoOther(x: bv64, s: bv8, n: bv8, m: bv8)
    requires n < 10 && m <= 10 && m != n && s < 64
    ensures m < 10 ==> GetLo(x | ((s as bv64) << (n * 6)), m) == GetLo(x, m)
    ensures (x | ((s as bv64) << (n * 6))) >> 60 == x >> 60
  {}

  lemma WriteMidAll(lo: bv64, hi: bv64, s: bv8, rlo: bv64, rhi: bv64)
    requires s < 64
    requires rlo == lo | (((s & 0xF) as bv64) << 60) && rhi == hi | ((s >> 4) as bv64)
    ensures forall m: bv8 | m < 22 :: GetN(rlo, rhi, m) == OrAt(lo, hi, s, 60, m)
  {
    forall m: bv8 | m < 22 ensures GetN(rlo, rhi, m) == OrAt(lo, hi, s, 60, m) {
      if m < 10 {
        OrTopLo(lo, s, m);
        RegionGettersAgree(lo, hi, m);
        RegionGettersAgree(rlo, rhi, m);
      } else if m > 10 {
        OrBottomHi(hi, s, m - 11);
        RegionGettersAgree(lo, hi, m - 11);
        RegionGettersAgree(rlo, rhi, m - 11);
      }
    }
  }

  lemma OrTopLo(x: bv64, s: bv8, m: bv8)
    requires m < 10
    ensures GetLo(x | (((s & 0xF) as bv64) << 60), m) == GetLo(x, m)
  {}

  lemma OrBottomHi(x: bv64, s: bv8, j: bv8)
    requires j <= 10 && s < 64
    ensures GetHi(x | ((s >> 4) as bv64), j) == GetHi(x, j)
  {}

  lemma WriteHiAll(lo: bv64, hi: bv64, s: bv8, bitpos: bv8, rhi: bv64)
    requires 64 < bitpos < 128 && bitpos % 6 == 0 && s < 64
    requires rhi == hi | ((s as bv64) << (bitpos - 64))
    ensures forall m: bv8 | m < 22 :: GetN(lo, rhi, m) == OrAt(lo, hi, s, bitpos, m)
  {
    HiBitpos(bitpos);
    forall m: bv8 | m < 22 ensures GetN(lo, rhi, m) == OrAt(lo, hi, s, bitpos, m) {
      WriteHiCode(lo, hi, s, bitpos, bitpos / 6 - 11, rhi, m);
    }
  }

  lemma WriteHiCode(lo: bv64, hi: bv64, s: bv8, bitpos: bv8, j: bv8, rhi: bv64, m: bv8)
    requires j <= 10 && bitpos - 64 == j * 6 + 2 && 64 < bitpos < 128 && s < 64 && m < 22
    requires rhi == hi | ((s as bv64) << (j * 6 + 2))
    ensures GetN(lo, rhi, m) == OrAt(lo, hi, s, bitpos, m)
  {
    {
      if m == 10 {
        OrHiMid(hi, s, j);
      } else if m > 10 {
        HiIndex(bitpos, j, m);
        if m - 11 == j {
          OrHiSame(hi, s, j);
        } else {
          OrHiOther(hi, s, j, m - 11);
        }
        RegionGettersAgree(lo, hi, m - 11);
        RegionGettersAgree(lo, rhi, m - 11);
      }
    }
  }

  lemma LoBitpos(bitpos: bv8)
    requires bitpos < 60 && bitpos % 6 == 0
    ensures bitpos / 6 < 10 && bitpos == (bitpos / 6) * 6
  {}

  lemma HiBitpos(bitpos: bv8)
    requires 64 < bitpos < 128 && bitpos % 6 == 0
    ensures bitpos / 6 - 11 <= 10 && bitpos - 64 == (bitpos / 6 - 11) * 6 + 2
  {}

  lemma HiIndex(bitpos: bv8, j: bv8, m: bv8)
    requires j <= 10 && bitpos - 64 == j * 6 + 2 && 64 < bitpos < 128 && 10 < m < 22
    ensures m * 6 == bitpos <==> m - 11 == j
  {}

  lemma OrHiSame(x: bv64, s: bv8, j: bv8)
    requires j <= 10 && s < 64
    ensures GetHi(x | ((s as bv64) << (j * 6 + 2)), j) == GetHi(x, j) | (if j == 10 then s & 3 else s)
  {}

  lemma OrHiOther(x: bv64, s: bv8, j: bv8, i: bv8)
    requires j <= 10 && i <= 10 && i != j && s < 64
    ensures GetHi(x | ((s as bv64) << (j * 6 + 2)), i) == GetHi(x, i)
  {}

  lemma OrHiMid(x: bv64, s: bv8, j: bv8)
    requires j <= 10
    ensures (x | ((s as bv64) << (j * 6 + 2))) & 3 == x & 3
  {}

  // ---------------------------------------------------------------------
  // ps_fill

  /** What ps_fill leaves at index i: the code below the bit length, 0 above. */
  function FilledCode(sixbit: bv8, bitLen: bv8, i: bv8): bv8
    requires i < 22
  {
    if i * 6 >= bitLen then 0
    else if i == 21 then sixbit & 3
    else sixbit
  }

  /**
   * ps_fill: codes 0..length-1 all become sixbit.  The bit length is a u8
   * product, so length * 6 wraps; a bit length above 132 would write past
   * the 128 bits.
   */
  method Fill(sixbit: bv8, length: bv8) returns (lo: bv64, hi: bv64)
    requires length * 6 <= 132
    ensures sixbit < 64 ==> forall i: bv8 | i < 22 :: GetN(lo, hi, i) == FilledCode(sixbit, length * 6, i)
  {
    var bitLen := length * 6;
    lo, hi := 0, 0;
    var pos: bv8 := 0;
    while pos < bitLen
      invariant pos % 6 == 0 && pos <= 132
      invariant pos == 0 || pos - 6 < bitLen
      invariant sixbit < 64 ==> forall i: bv8 | i < 22 :: GetN(lo, hi, i) == FilledCode(sixbit, pos, i)
      decreases 132 - pos as int
    {
      var lo', hi' := WriteSixbit(lo, hi, sixbit, pos);
      if sixbit < 64 {
        forall i: bv8 | i < 22 ensures GetN(lo', hi', i) == FilledCode(sixbit, pos + 6, i) {
          FillStep(lo, hi, sixbit, pos, i);
        }
      }
      lo, hi, pos := lo', hi', pos + 6;
    }
    if sixbit < 64 {
      forall i: bv8 | i < 22 ensures FilledCode(sixbit, pos, i) == FilledCode(sixbit, bitLen, i) {
        FillDone(pos, bitLen, i);
      }
    }
  }

  lemma FillStep(lo: bv64, hi: bv64, s: bv8, pos: bv8, i: bv8)
    requires pos % 6 == 0 && pos <= 126 && i < 22 && s < 64
    requires GetN(lo, hi, i) == FilledCode(s, pos, i)
    ensures OrAt(lo, hi, s, pos, i) == FilledCode(s, pos + 6, i)
  {}

  lemma FillDone(pos: bv8, bitLen: bv8, i: bv8)
    requires pos % 6 == 0 && pos >= bitLen && (pos == 0 || pos - 6 < bitLen) && i < 22 && pos <= 132
    ensures i * 6 >= pos <==> i * 6 >= bitLen
  {}

  // ---------------------------------------------------------------------
  // ps_limit

  /** The code at index i after ps_limit(length): codes at or past length are cleared. */
  function LimitedCode(lo: bv64, hi: bv64, length: bv8, i: bv8): bv8
    requires i < 22
  {
    if i < length then GetN(lo, hi, i)
    else if length <= 10 && i == 10 then GetN(lo, hi, 10) & 0x30
    else if length <= 10 && i > 10 then GetN(lo, hi, i)
    else 0
  }

  /**
   * ps_limit: clear every code at or past length.  Below 11 codes only lo
   * is masked, so code 10 keeps its two bits in hi and codes 11.. are
   * untouched; from 11 codes on only hi is masked.  length <= 21 keeps
   * every shift below 64.
   */
  method Limit(lo: bv64, hi: bv64, length: bv8) returns (rlo: bv64, rhi: bv64)
    requires length <= 21
    ensures forall i: bv8 | i < 22 :: GetN(rlo, rhi, i) == LimitedCode(lo, hi, length, i)
    ensures length <= 10 ==> rhi == hi
    ensures length > 10 ==> rlo == lo
  {
    var bitLen := length * 6;
    BitLength(length);
    if bitLen < 64 {
      rlo := lo & ((1 << bitLen) - 1);
      rhi := hi;
      LimitLoAll(lo, hi, length, rlo);
    } else {
      rlo := lo;
      rhi := hi & ((1 << (bitLen - 64)) - 1);
      HiBitLength(length);
      LimitHiAll(lo, hi, length, length - 11, rhi);
    }
  }

  lemma LimitLoAll(lo: bv64, hi: bv64, length: bv8, rlo: bv64)
    requires length <= 10
    requires rlo == lo & ((1 << (length * 6)) - 1)
    ensures forall i: bv8 | i < 22 :: GetN(rlo, hi, i) == LimitedCode(lo, hi, length, i)
  {
    forall i: bv8 | i < 22 ensures GetN(rlo, hi, i) == LimitedCode(lo, hi, length, i) {
      LimitLoCode(lo, hi, length, rlo, i);
    }
  }

  lemma BitLength(length: bv8)
    requires length <= 21
    ensures length * 6 < 64 <==> length <= 10
    ensures length * 6 <= 126
  {}

  lemma HiBitLength(length: bv8)
    requires 11 <= length <= 21
    ensures length - 11 <= 10 && length * 6 - 64 == (length - 11) * 6 + 2
  {}

  lemma LimitHiAll(lo: bv64, hi: bv64, length: bv8, a: bv8, rhi: bv64)
    requires a <= 10 && length == a + 11
    requires rhi == hi & ((1 << (a * 6 + 2)) - 1)
    ensures forall i: bv8 | i < 22 :: GetN(lo, rhi, i) == LimitedCode(lo, hi, length, i)
  {
    forall i: bv8 | i < 22 ensures GetN(lo, rhi, i) == LimitedCode(lo, hi, length, i) {
      LimitHiCode(lo, hi, length, a, rhi, i);
    }
  }

  lemma LimitLoCode(lo: bv64, hi: bv64, length: bv8, rlo: bv64, i: bv8)
    requires length <= 10 && i < 22
    requires rlo == lo & ((1 << (length * 6)) - 1)
    ensures GetN(rlo, hi, i) == LimitedCode(lo, hi, length, i)
  {
    if i < 10 {
      MaskLo(lo, length, i);
      assert GetN(rlo, hi, i) == GetLo(rlo, i) && GetN(lo, hi, i) == GetLo(lo, i);
    } else if i == 10 {
      MaskLoTop(lo, length);
    }
  }

  lemma MaskLo(x: bv64, length: bv8, i: bv8)
    requires length <= 10 && i < 10
    ensures GetLo(x & ((1 << (length * 6)) - 1), i) == if i < length then GetLo(x, i) else 0
  {}

  lemma MaskLoTop(x: bv64, length: bv8)
    requires length <= 10
    ensures ((x & ((1 << (length * 6)) - 1)) >> 60) & 0xF == 0
  {}

  lemma LimitHiCode(lo: bv64, hi: bv64, length: bv8, a: bv8, rhi: bv64, i: bv8)
    requires a <= 10 && length == a + 11 && i < 22
    requires rhi == hi & ((1 << (a * 6 + 2)) - 1)
    ensures GetN(lo, rhi, i) == LimitedCode(lo, hi, length, i)
  {
    if i == 10 {
      MaskHiBottom(hi, a);
    } else if i > 10 {
      MaskHi(hi, a, i - 11);
      assert GetN(lo, rhi, i) == GetHi(rhi, i - 11) && GetN(lo, hi, i) == GetHi(hi, i - 11);
    }
  }

  lemma MaskHi(x: bv64, a: bv8, j: bv8)
    requires a <= 10 && j <= 10
    ensures GetHi(x & ((1 << (a * 6 + 2)) - 1), j) == if j < a then GetHi(x, j) else 0
  {}

  lemma MaskHiBottom(x: bv64, a: bv8)
    requires a <= 10
    ensures (x & ((1 << (a * 6 + 2)) - 1)) & 3 == x & 3
  {}
}
