/**
 * The word-level helpers restated on code sequences.  A caller that
 * combines several helpers (a shift, a mask, an or, a new metadata byte)
 * reasons about the 22-slot sequence `Codes(lo, hi)` instead of the
 * words, which keeps its proof free of bit-vector terms.
 */
module CodeSeqs {
  import opened Helper
  import opened HelperWrite
  import opened Packed

  /** n zero codes. */
  function Zeros(n: nat): (z: seq<bv8>)
    ensures |z| == n
    ensures forall j | 0 <= j < n :: z[j] == 0
  {
    seq(n, _ => 0)
  }

  /** n copies of one code. */
  function Repeat(k: bv8, n: nat): (z: seq<bv8>)
    ensures |z| == n
    ensures forall j | 0 <= j < n :: z[j] == k
  {
    seq(n, _ => k)
  }

  /** Every element of c from index n on is zero. */
  ghost predicate ZeroFrom(c: seq<bv8>, n: int) {
    forall j | 0 <= j < |c| && n <= j :: c[j] == 0
  }

  /** Slots 0..19 of two words: every code but the metadata byte. */
  function Payload(lo: bv64, hi: bv64): (p: seq<bv8>)
    ensures |p| == 20
  {
    Codes(lo, hi)[..20]
  }

  /** Changing only the metadata byte keeps the payload. */
  lemma PayloadKept(lo: bv64, hi: bv64, hi': bv64)
    requires hi' & PayloadMask == hi & PayloadMask
    ensures Payload(lo, hi') == Payload(lo, hi)
  {
    SameLowHiKeepsCodes(lo, hi, hi');
    forall j | 0 <= j < 20 ensures Payload(lo, hi')[j] == Payload(lo, hi)[j] {
      ByteIndex(j);
    }
  }

  /** A valid value's content is a prefix of its payload. */
  lemma ContentOfPayload(ps: PackedString)
    requires Valid(ps)
    ensures Content(ps) == Payload(ps.lo, ps.hi)[..Length(ps)]
  {
    ValidLength(ps);
  }

  /** Clean is a statement about the payload: zeros past the length. */
  lemma CleanPayload(ps: PackedString)
    ensures Clean(ps) <==> Length(ps) <= MaxLen && ZeroFrom(Payload(ps.lo, ps.hi), Length(ps) as int)
  {
    if Clean(ps) {
      CleanToPayload(ps);
    }
    if Length(ps) <= MaxLen && ZeroFrom(Payload(ps.lo, ps.hi), Length(ps) as int) {
      PayloadToClean(ps);
    }
  }

  lemma CleanToPayload(ps: PackedString)
    requires Clean(ps)
    ensures ZeroFrom(Payload(ps.lo, ps.hi), Length(ps) as int)
  {
    forall j | 0 <= j < 20 && Length(ps) as int <= j ensures Payload(ps.lo, ps.hi)[j] == 0 {
      ByteIndex(j);
      PayloadAt(ps.lo, ps.hi, j as bv8);
    }
  }

  lemma PayloadToClean(ps: PackedString)
    requires Length(ps) <= MaxLen && ZeroFrom(Payload(ps.lo, ps.hi), Length(ps) as int)
    ensures Clean(ps)
  {
    forall i: bv8 | Length(ps) <= i < 20 ensures GetN(ps.lo, ps.hi, i) == 0 {
      PayloadAt(ps.lo, ps.hi, i);
    }
  }

  lemma PayloadAt(lo: bv64, hi: bv64, i: bv8)
    requires i < 20
    ensures Payload(lo, hi)[i] == GetN(lo, hi, i)
  {}

  /** A clean value is valid and its payload is its content and then zeros. */
  lemma CleanPayloadIs(ps: PackedString)
    requires Clean(ps)
    ensures Valid(ps) && Payload(ps.lo, ps.hi) == Content(ps) + Zeros(20 - Length(ps) as int)
  {
    CleanPayload(ps);
    ContentOfPayload(ps);
    ValidLength(ps);
  }

  /** Codes 20 and 21 of a word whose metadata byte is cleared are zero. */
  lemma TopCodesCleared(lo: bv64, hi: bv64)
    ensures Codes(lo, hi & PayloadMask)[20] == 0 && Codes(lo, hi & PayloadMask)[21] == 0
  {
    assert GetN(lo, hi & PayloadMask, 20) == 0;
    assert GetN(lo, hi & PayloadMask, 21) == 0;
  }

  // ---------------------------------------------------------------------
  // Shifts

  /** The codes after a right shift by k codes: k zeros come in at the top. */
  function ShiftRightCodes(c: seq<bv8>, k: nat): (s: seq<bv8>)
    requires |c| == 22 && k <= 22
    ensures |s| == 22
  {
    seq(22, j requires 0 <= j < 22 => if j + k < 22 then c[j + k] else 0)
  }

  /** The codes after a left shift by k codes: k zeros come in at the bottom. */
  function ShiftLeftCodes(c: seq<bv8>, k: nat): (s: seq<bv8>)
    requires |c| == 22 && k <= 22
    ensures |s| == 22
    ensures forall j | 0 <= j < 20 :: s[j] == if j < k then 0 else c[j - k]
  {
    seq(22, j requires 0 <= j < 22 => if j < k then 0 else if j == 21 then c[j - k] & 3 else c[j - k])
  }

  /** The code-by-code statement of a right shift, as a sequence. */
  lemma ShrCodes(lo: bv64, hi: bv64, rlo: bv64, rhi: bv64, k: bv8)
    requires k < 22
    requires forall i: bv8 | i < 22 :: GetN(rlo, rhi, i) == ShiftedRightCode(lo, hi, k, i)
    ensures Codes(rlo, rhi) == ShiftRightCodes(Codes(lo, hi), k as int)
  {
    forall j | 0 <= j < 22 ensures Codes(rlo, rhi)[j] == ShiftRightCodes(Codes(lo, hi), k as int)[j] {
      ByteIndex(j);
      ShrCodeAt(lo, hi, rlo, rhi, k, j as bv8);
    }
  }

  lemma ShrCodeAt(lo: bv64, hi: bv64, rlo: bv64, rhi: bv64, k: bv8, i: bv8)
    requires k < 22 && i < 22
    requires GetN(rlo, rhi, i) == ShiftedRightCode(lo, hi, k, i)
    ensures Codes(rlo, rhi)[i] == ShiftRightCodes(Codes(lo, hi), k as int)[i]
  {
    ShiftedRightCodeAt(lo, hi, k, i);
  }

  lemma ShiftedRightCodeAt(lo: bv64, hi: bv64, k: bv8, i: bv8)
    requires k < 22 && i < 22
    ensures ShiftedRightCode(lo, hi, k, i) == ShiftRightCodes(Codes(lo, hi), k as int)[i]
  {
    var c := Codes(lo, hi);
    var m := i + k;
    IndexSum(i, k);
    if m < 22 {
      CodesAt(lo, hi, m);
    }
  }

  lemma CodesAt(lo: bv64, hi: bv64, m: bv8)
    requires m < 22
    ensures Codes(lo, hi)[m as int] == GetN(lo, hi, m)
  {}

  /** Sum of two code indexes, as an int. */
  lemma IndexSum(i: bv8, k: bv8)
    requires i <= 21 && k <= 21
    ensures (i + k) as int == i as int + k as int
  {}

  /** Difference of two code indexes, as an int. */
  lemma IndexDiff(i: bv8, k: bv8)
    requires k <= i <= 21
    ensures (i - k) as int == i as int - k as int
  {}

  /** The code-by-code statement of a left shift, as a sequence. */
  lemma ShlCodes(lo: bv64, hi: bv64, rlo: bv64, rhi: bv64, k: bv8)
    requires k < 22
    requires forall i: bv8 | i < 22 :: GetN(rlo, rhi, i) == ShiftedLeftCode(lo, hi, k, i)
    ensures Codes(rlo, rhi) == ShiftLeftCodes(Codes(lo, hi), k as int)
  {
    forall j | 0 <= j < 22 ensures Codes(rlo, rhi)[j] == ShiftLeftCodes(Codes(lo, hi), k as int)[j] {
      ByteIndex(j);
      ShlCodeAt(lo, hi, rlo, rhi, k, j as bv8);
    }
  }

  lemma ShlCodeAt(lo: bv64, hi: bv64, rlo: bv64, rhi: bv64, k: bv8, i: bv8)
    requires k < 22 && i < 22
    requires GetN(rlo, rhi, i) == ShiftedLeftCode(lo, hi, k, i)
    ensures Codes(rlo, rhi)[i] == ShiftLeftCodes(Codes(lo, hi), k as int)[i]
  {
    CodesAt(rlo, rhi, i);
    ShiftedLeftCodeAt(lo, hi, k, i);
  }

  lemma ShiftedLeftCodeAt(lo: bv64, hi: bv64, k: bv8, i: bv8)
    requires k < 22 && i < 22
    ensures ShiftedLeftCode(lo, hi, k, i) == ShiftLeftCodes(Codes(lo, hi), k as int)[i]
  {
    var c := Codes(lo, hi);
    IndexOrder(i, k);
    if i >= k {
      var m := i - k;
      IndexDiff(i, k);
      CodesAt(lo, hi, m);
      ShiftLeftCodesAt(c, k as int, i as int);
    }
  }

  lemma IndexOrder(i: bv8, k: bv8)
    ensures i < k <==> i as int < k as int
    ensures i == 21 <==> i as int == 21
  {}

  lemma ShiftLeftCodesAt(c: seq<bv8>, k: nat, j: nat)
    requires |c| == 22 && k <= j < 22
    ensures ShiftLeftCodes(c, k)[j] == if j == 21 then c[j - k] & 3 else c[j - k]
  {}

  /** Shifting by no code at all keeps every code. */
  lemma NoShift(lo: bv64, hi: bv64)
    ensures Codes(lo, hi) == ShiftRightCodes(Codes(lo, hi), 0)
    ensures Codes(lo, hi) == ShiftLeftCodes(Codes(lo, hi), 0)
  {
    assert Codes(lo, hi)[21] < 4;
  }

  // ---------------------------------------------------------------------
  // Or, limit, fill

  /** Two code sequences or-ed slot by slot. */
  function OrCodes(x: seq<bv8>, y: seq<bv8>): (z: seq<bv8>)
    requires |x| == |y|
    ensures |z| == |x|
    ensures forall j | 0 <= j < |x| :: z[j] == x[j] | y[j]
  {
    seq(|x|, j requires 0 <= j < |x| => x[j] | y[j])
  }

  /** Or-ing the words ors the codes. */
  lemma OrWords(lo1: bv64, hi1: bv64, lo2: bv64, hi2: bv64)
    ensures Codes(lo1 | lo2, hi1 | hi2) == OrCodes(Codes(lo1, hi1), Codes(lo2, hi2))
  {
    forall j | 0 <= j < 22 ensures Codes(lo1 | lo2, hi1 | hi2)[j] == Codes(lo1, hi1)[j] | Codes(lo2, hi2)[j] {
      ByteIndex(j);
      OrCodeAt(lo1, hi1, lo2, hi2, j as bv8);
    }
  }

  lemma OrCodeAt(lo1: bv64, hi1: bv64, lo2: bv64, hi2: bv64, i: bv8)
    requires i < 22
    ensures GetN(lo1 | lo2, hi1 | hi2, i) == GetN(lo1, hi1, i) | GetN(lo2, hi2, i)
  {}

  /** ps_limit keeps the codes below the length. */
  lemma LimitKeepsPrefix(lo: bv64, hi: bv64, llo: bv64, lhi: bv64, length: bv8)
    requires length <= 21
    requires forall i: bv8 | i < 22 :: GetN(llo, lhi, i) == LimitedCode(lo, hi, length, i)
    ensures Codes(llo, lhi)[..length] == Codes(lo, hi)[..length]
  {
    forall j | 0 <= j < length as int ensures Codes(llo, lhi)[j] == Codes(lo, hi)[j] {
      ByteIndex(j);
      assert GetN(llo, lhi, j as bv8) == LimitedCode(lo, hi, length, j as bv8);
    }
  }

  /** Below 11 codes ps_limit leaves the codes in hi alone. */
  lemma LimitKeepsHi(lo: bv64, hi: bv64, llo: bv64, lhi: bv64, length: bv8)
    requires length <= 10
    requires forall i: bv8 | i < 22 :: GetN(llo, lhi, i) == LimitedCode(lo, hi, length, i)
    ensures Codes(llo, lhi)[11..20] == Codes(lo, hi)[11..20]
  {
    forall j | 11 <= j < 20 ensures Codes(llo, lhi)[j] == Codes(lo, hi)[j] {
      ByteIndex(j);
      assert GetN(llo, lhi, j as bv8) == LimitedCode(lo, hi, length, j as bv8);
    }
  }

  /** ps_fill with a code and a length up to 21, as a sequence. */
  lemma FillCodes(lo: bv64, hi: bv64, sixbit: bv8, length: bv8)
    requires sixbit < 64 && length <= 21
    requires forall i: bv8 | i < 22 :: GetN(lo, hi, i) == FilledCode(sixbit, length * 6, i)
    ensures Codes(lo, hi) == Repeat(sixbit, length as int) + Zeros(22 - length as int)
  {
    forall j | 0 <= j < 22 ensures Codes(lo, hi)[j] == (Repeat(sixbit, length as int) + Zeros(22 - length as int))[j] {
      ByteIndex(j);
      FillCodeAt(lo, hi, sixbit, length, j as bv8);
    }
  }

  lemma FillCodeAt(lo: bv64, hi: bv64, sixbit: bv8, length: bv8, i: bv8)
    requires length <= 21 && i < 22
    requires GetN(lo, hi, i) == FilledCode(sixbit, length * 6, i)
    ensures Codes(lo, hi)[i] == (Repeat(sixbit, length as int) + Zeros(22 - length as int))[i]
  {
    assert FilledCode(sixbit, length * 6, i) == if i < length then sixbit else 0;
  }

  /** ps_fill, as a code sequence: length copies of the code, then zeros. */
  method FillTo(sixbit: bv8, length: bv8) returns (lo: bv64, hi: bv64)
    requires length <= 21
    ensures sixbit < 64 ==> Codes(lo, hi) == Repeat(sixbit, length as int) + Zeros(22 - length as int)
  {
    lo, hi := Fill(sixbit, length);
    if sixbit < 64 {
      FillCodes(lo, hi, sixbit, length);
    }
  }

  // ---------------------------------------------------------------------
  // The word helpers as operations on code sequences

  /** ps_shr128 by a whole number of codes. */
  method ShiftRightBy(lo: bv64, hi: bv64, shift: bv8) returns (rlo: bv64, rhi: bv64)
    requires 0 < shift < 128 && shift % 6 == 0
    ensures Codes(rlo, rhi) == ShiftRightCodes(Codes(lo, hi), (shift / 6) as int)
  {
    rlo, rhi := Shr128(lo, hi, shift);
    ShrCodes(lo, hi, rlo, rhi, shift / 6);
  }

  /** ps_shl128 by a whole number of codes. */
  method ShiftLeftBy(lo: bv64, hi: bv64, shift: bv8) returns (rlo: bv64, rhi: bv64)
    requires 0 < shift < 128 && shift % 6 == 0
    ensures Codes(rlo, rhi) == ShiftLeftCodes(Codes(lo, hi), (shift / 6) as int)
  {
    rlo, rhi := Shl128(lo, hi, shift);
    ShlCodes(lo, hi, rlo, rhi, shift / 6);
  }

  /** ps_shl128 by k * 6 bits: a shift by k codes, for 1 .. 21 codes. */
  method ShiftLeftCodesBy(lo: bv64, hi: bv64, k: bv8) returns (rlo: bv64, rhi: bv64)
    requires 0 < k <= 21
    ensures Codes(rlo, rhi) == ShiftLeftCodes(Codes(lo, hi), k as int)
  {
    assert (k * 6) % 6 == 0 && (k * 6) / 6 == k;
    rlo, rhi := ShiftLeftBy(lo, hi, k * 6);
  }

  /** A left shift by k codes that leaves the words alone for k == 0. */
  method ShiftLeftUnlessZero(lo: bv64, hi: bv64, k: bv8) returns (rlo: bv64, rhi: bv64)
    requires k <= 21
    ensures Codes(rlo, rhi) == ShiftLeftCodes(Codes(lo, hi), k as int)
  {
    if k == 0 {
      NoShift(lo, hi);
      rlo, rhi := lo, hi;
    } else {
      rlo, rhi := ShiftLeftCodesBy(lo, hi, k);
    }
  }

  /**
   * ps_limit: the first length codes are kept; below 11 codes those in
   * hi are kept too.
   */
  method LimitTo(lo: bv64, hi: bv64, length: bv8) returns (rlo: bv64, rhi: bv64)
    requires length <= 21
    ensures Codes(rlo, rhi)[..length] == Codes(lo, hi)[..length]
    ensures length <= 10 ==> Codes(rlo, rhi)[11..20] == Codes(lo, hi)[11..20]
  {
    rlo, rhi := Limit(lo, hi, length);
    LimitKeepsPrefix(lo, hi, rlo, rhi, length);
    if length <= 10 {
      LimitKeepsHi(lo, hi, rlo, rhi, length);
    }
  }

  /** A new metadata byte over the codes of lo and hi (ps_insert_metadata). */
  method WithMetadata(lo: bv64, hi: bv64, length: bv8, flags: bv8) returns (r: PackedString)
    requires length < 32 && flags < 8
    ensures r.lo == lo && Payload(r.lo, r.hi) == Payload(lo, hi)
    ensures Length(r) == length && Flags(r) == flags
  {
    var hi' := InsertMetadata(hi, PackMetadata(length, flags));
    r := PackedString(lo, hi');
    PayloadKept(lo, hi, hi');
    MetadataFields(r, length, flags);
  }

  /** Two pairs of words or-ed together under a new metadata byte. */
  method OrWithMetadata(lo1: bv64, hi1: bv64, lo2: bv64, hi2: bv64, length: bv8, flags: bv8)
    returns (r: PackedString)
    requires length < 32 && flags < 8
    ensures Payload(r.lo, r.hi) == OrCodes(Codes(lo1, hi1), Codes(lo2, hi2))[..20]
    ensures Length(r) == length && Flags(r) == flags
  {
    OrWords(lo1, hi1, lo2, hi2);
    r := WithMetadata(lo1 | lo2, hi1 | hi2, length, flags);
  }

  /** Three pairs of words or-ed together, lo | (lo2 | lo3), under a new metadata byte. */
  method Or3WithMetadata(lo1: bv64, hi1: bv64, lo2: bv64, hi2: bv64, lo3: bv64, hi3: bv64,
                         length: bv8, flags: bv8) returns (r: PackedString)
    requires length < 32 && flags < 8
    ensures Payload(r.lo, r.hi) == OrCodes(Codes(lo1, hi1), OrCodes(Codes(lo2, hi2), Codes(lo3, hi3)))[..20]
    ensures Length(r) == length && Flags(r) == flags
  {
    OrWords(lo2, hi2, lo3, hi3);
    r := OrWithMetadata(lo1, hi1, lo2 | lo3, hi2 | hi3, length, flags);
  }

  /** A value whose payload is the first 20 codes of z, read as content. */
  lemma ResultOfPayload(r: PackedString, z: seq<bv8>, n: int)
    requires |z| == 22 && 0 <= n <= 20 && Length(r) as int == n
    requires Payload(r.lo, r.hi) == z[..20]
    ensures Valid(r) && Content(r) == z[..20][..n]
    ensures ZeroFrom(z[..20], n) ==> Clean(r)
  {
    ValidLength(r);
    ContentOfPayload(r);
    CleanPayload(r);
  }

  /** A value's content and cleanliness, read off its code sequence c. */
  lemma CodesOfValue(ps: PackedString, c: seq<bv8>)
    requires c == Codes(ps.lo, ps.hi)
    ensures Valid(ps) ==> Content(ps) == c[..Length(ps)]
    ensures Clean(ps) ==> Length(ps) <= MaxLen && ZeroFrom(c[..20], Length(ps) as int)
  {
    ValidLength(ps);
    CleanPayload(ps);
  }

  // ---------------------------------------------------------------------
  // Facts about code sequences

  lemma TakeTake(c: seq<bv8>, m: int, n: int)
    requires 0 <= n <= m <= |c|
    ensures c[..m][..n] == c[..n]
  {}

  lemma TakeSlice(c: seq<bv8>, m: int, i: int, j: int)
    requires 0 <= i <= j <= m <= |c|
    ensures c[..m][i..j] == c[i..j]
  {}

  /** After a right shift by k the first codes are codes k.. of the original. */
  lemma ShiftRightTake(c: seq<bv8>, k: nat, n: nat)
    requires |c| == 22 && k + n <= 20
    ensures ShiftRightCodes(c, k)[..20][..n] == c[..20][k..k + n]
  {}

  /** A right shift moves the zeros from n on down to n - k. */
  lemma ShiftRightZeros(c: seq<bv8>, k: nat, n: nat)
    requires |c| == 22 && k <= n <= 20
    requires ZeroFrom(c[..20], n) && c[20] == 0 && c[21] == 0
    ensures ZeroFrom(ShiftRightCodes(c, k)[..20], n - k)
  {
    var s := ShiftRightCodes(c, k);
    forall j | 0 <= j < 20 && n - k <= j ensures s[..20][j] == 0 {
      assert s[j] == if j + k < 22 then c[j + k] else 0;
      if j + k < 20 {
        assert c[..20][j + k] == 0;
      }
    }
  }

  /**
   * y shifted left past x's la codes and or-ed into x: when x is zero from
   * la on, the codes are x's first la and then y's.
   */
  lemma ShiftLeftOr(x: seq<bv8>, y: seq<bv8>, la: nat, lb: nat, n: nat)
    requires |x| == 22 && |y| == 22 && la <= 20 && lb <= 20
    requires n == if la + lb > 20 then 20 else la + lb
    ensures ZeroFrom(x[..20], la) ==>
      OrCodes(ShiftLeftCodes(y, la), x)[..20][..n] == (x[..la] + y[..lb])[..n]
    ensures ZeroFrom(x[..20], la) && ZeroFrom(y[..20], lb) ==>
      ZeroFrom(OrCodes(ShiftLeftCodes(y, la), x)[..20], n)
  {
    var z := OrCodes(ShiftLeftCodes(y, la), x);
    if ZeroFrom(x[..20], la) {
      forall j | 0 <= j < n ensures z[..20][..n][j] == (x[..la] + y[..lb])[..n][j] {
        assert x[..20][j] == x[j];
        if j < la {
          assert z[j] == 0 | x[j];
        } else {
          assert z[j] == y[j - la] | 0;
        }
      }
      if ZeroFrom(y[..20], lb) {
        forall j | 0 <= j < 20 && n <= j ensures z[..20][j] == 0 {
          assert x[..20][j] == 0;
          assert y[..20][j - la] == 0;
          assert z[j] == y[j - la] | x[j];
        }
      }
    }
  }

  // ---------------------------------------------------------------------
  // The region setters as writes to one slot

  /** ps_set_lo on code i < 10. */
  method WriteLo(lo: bv64, hi: bv64, i: bv8, sixbit: bv8) returns (rlo: bv64)
    requires i < 10 && sixbit < 64
    ensures Codes(rlo, hi) == Codes(lo, hi)[i as int := sixbit]
  {
    rlo := SetLo(lo, i, sixbit);
    forall j | 0 <= j < 22 ensures Codes(rlo, hi)[j] == Codes(lo, hi)[i as int := sixbit][j] {
      ByteIndex(j);
      var m := j as bv8;
      if m <= 10 && m != i {
        assert GetLo(rlo, m) == GetLo(lo, m);
      }
      WriteLoAt(lo, hi, rlo, i, sixbit, m);
    }
  }

  lemma WriteLoAt(lo: bv64, hi: bv64, rlo: bv64, i: bv8, sixbit: bv8, m: bv8)
    requires i < 10 && sixbit < 64 && m < 22
    requires GetLo(rlo, i) == sixbit
    requires m <= 10 && m != i ==> GetLo(rlo, m) == GetLo(lo, m)
    ensures Codes(rlo, hi)[m] == Codes(lo, hi)[i as int := sixbit][m]
  {
    CodesAt(rlo, hi, m);
    CodesAt(lo, hi, m);
    if m < 10 {
      RegionGettersAgree(rlo, hi, m);
      RegionGettersAgree(lo, hi, m);
    } else if m == 10 {
      RegionGettersAgree(rlo, hi, 0);
      RegionGettersAgree(lo, hi, 0);
      MidKeepsLo(lo, rlo, hi);
    }
  }

  /** Code 10 reads lo[60:63], which GetLo(_, 10) covers. */
  lemma MidKeepsLo(lo: bv64, rlo: bv64, hi: bv64)
    requires GetLo(rlo, 10) == GetLo(lo, 10)
    ensures GetMid(rlo, hi) == GetMid(lo, hi)
  {
    assert (rlo >> 60) & 0xF == (lo >> 60) & 0xF;
  }

  /** ps_set_mid: code 10. */
  method WriteMid(lo: bv64, hi: bv64, sixbit: bv8) returns (rlo: bv64, rhi: bv64)
    requires sixbit < 64
    ensures Codes(rlo, rhi) == Codes(lo, hi)[10 := sixbit]
  {
    rlo, rhi := SetMid(lo, hi, sixbit);
    forall j | 0 <= j < 22 ensures Codes(rlo, rhi)[j] == Codes(lo, hi)[10 := sixbit][j] {
      ByteIndex(j);
      var m := j as bv8;
      if m < 10 {
        assert GetLo(rlo, m) == GetLo(lo, m);
      } else if m > 10 {
        assert GetHi(rhi, m - 11) == GetHi(hi, m - 11);
      }
      WriteMidAt(lo, hi, rlo, rhi, sixbit, m);
    }
  }

  lemma WriteMidAt(lo: bv64, hi: bv64, rlo: bv64, rhi: bv64, sixbit: bv8, m: bv8)
    requires sixbit < 64 && m < 22
    requires GetMid(rlo, rhi) == sixbit
    requires m < 10 ==> GetLo(rlo, m) == GetLo(lo, m)
    requires m > 10 ==> GetHi(rhi, m - 11) == GetHi(hi, m - 11)
    ensures Codes(rlo, rhi)[m] == Codes(lo, hi)[10 := sixbit][m]
  {
    CodesAt(rlo, rhi, m);
    CodesAt(lo, hi, m);
    if m < 10 {
      RegionGettersAgree(rlo, rhi, m);
      RegionGettersAgree(lo, hi, m);
    } else if m == 10 {
      RegionGettersAgree(rlo, rhi, 0);
    } else {
      var n := m - 11;
      RegionGettersAgree(rlo, rhi, n);
      RegionGettersAgree(lo, hi, n);
    }
  }

  /** ps_set_hi on code 11 + i, i < 10. */
  method WriteHi(lo: bv64, hi: bv64, i: bv8, sixbit: bv8) returns (rhi: bv64)
    requires i < 10 && sixbit < 64
    ensures Codes(lo, rhi) == Codes(lo, hi)[11 + i as int := sixbit]
  {
    rhi := SetHi(hi, i, sixbit);
    forall j | 0 <= j < 22 ensures Codes(lo, rhi)[j] == Codes(lo, hi)[11 + i as int := sixbit][j] {
      ByteIndex(j);
      var m := j as bv8;
      if m > 10 && m - 11 != i {
        assert GetHi(rhi, m - 11) == GetHi(hi, m - 11);
      }
      WriteHiAt(lo, hi, rhi, i, sixbit, m);
    }
  }

  lemma WriteHiAt(lo: bv64, hi: bv64, rhi: bv64, i: bv8, sixbit: bv8, m: bv8)
    requires i < 10 && sixbit < 64 && m < 22
    requires GetHi(rhi, i) == sixbit && rhi & 3 == hi & 3
    requires m > 10 && m - 11 != i ==> GetHi(rhi, m - 11) == GetHi(hi, m - 11)
    ensures Codes(lo, rhi)[m] == Codes(lo, hi)[11 + i as int := sixbit][m]
  {
    CodesAt(lo, rhi, m);
    CodesAt(lo, hi, m);
    if m > 10 {
      var n := m - 11;
      RegionGettersAgree(lo, rhi, n);
      RegionGettersAgree(lo, hi, n);
      IndexSum(n, 11);
    }
  }
}
