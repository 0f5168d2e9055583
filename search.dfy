/**
 * Prefix and suffix tests (packed16/packed-string.c): ps_starts_with,
 * ps_ends_with, ps_starts_with_at and ps_ends_with_at.  Code search,
 * ps_contains and the identifier test are in module Finding.
 *
 * The window tests go through ps_is_at as written (IsAtAsWritten), so
 * each is defined only where ps_is_at does not shift by 64: the corrected
 * IsAt covers the rest, and HelperScan.IsAtAsWrittenAgrees shows the two
 * agree wherever the code as written is defined.
 */
module Searching {
  import opened Helper
  import opened HelperScan
  import opened HelperWrite
  import opened Packed

  /** Subtraction of two u8 values, wrapping modulo 256. */
  function ByteSub(x: bv8, y: bv8): bv8 {
    x - y
  }

  // ---------------------------------------------------------------------
  // Windows of codes against slices of the content

  /** A code window of two valid values is a slice of the first's content. */
  lemma WindowContent(a: PackedString, b: PackedString, idx: bv8)
    requires Valid(a) && Valid(b) && idx as int + Length(b) as int <= Length(a) as int
    ensures WindowAt(a.lo, a.hi, b.lo, b.hi, Length(b), idx)
        <==> Content(a)[idx..idx as int + Length(b) as int] == Content(b)
  {
    var n := Length(b);
    LengthBound(a);
    WindowCodes(a.lo, a.hi, b.lo, b.hi, n, idx);
    SliceAt(Codes(a.lo, a.hi), Codes(b.lo, b.hi), Length(a) as int, n as int, idx as int);
  }

  /** WindowContent with the window's bounds given as ints. */
  lemma WindowContentFits(a: PackedString, b: PackedString, idx: bv8, k: int, e: int)
    requires Valid(a) && Valid(b) && k == idx as int && e == k + Length(b) as int && e <= Length(a) as int
    ensures WindowAt(a.lo, a.hi, b.lo, b.hi, Length(b), idx) <==> Content(a)[k..e] == Content(b)
  {
    WindowContent(a, b, idx);
  }

  lemma LengthBound(ps: PackedString)
    requires Valid(ps)
    ensures Length(ps) as int <= 20
  {
    ValidLength(ps);
  }

  /** Elementwise agreement at an offset is equality of slices. */
  lemma SliceAt(ca: seq<bv8>, cb: seq<bv8>, la: int, n: int, idx: int)
    requires 0 <= idx && 0 <= n && idx + n <= la <= |ca| && n <= |cb|
    ensures (forall k | 0 <= k < n :: ca[idx + k] == cb[k]) <==> ca[..la][idx..idx + n] == cb[..n]
  {
    if forall k | 0 <= k < n :: ca[idx + k] == cb[k] {
      assert forall k | 0 <= k < n :: ca[..la][idx..idx + n][k] == cb[..n][k];
    }
    if ca[..la][idx..idx + n] == cb[..n] {
      forall k | 0 <= k < n ensures ca[idx + k] == cb[k] {
        assert ca[..la][idx..idx + n][k] == cb[..n][k];
      }
    }
  }

  /** WindowAt on the code sequences, with integer indices. */
  lemma WindowCodes(lo1: bv64, hi1: bv64, lo2: bv64, hi2: bv64, n: bv8, idx: bv8)
    requires idx as int + n as int <= 20
    ensures WindowAt(lo1, hi1, lo2, hi2, n, idx)
        <==> forall k | 0 <= k < n as int :: Codes(lo1, hi1)[idx as int + k] == Codes(lo2, hi2)[k]
  {
    WindowCodesTo(lo1, hi1, lo2, hi2, n, idx);
    WindowCodesFrom(lo1, hi1, lo2, hi2, n, idx);
  }

  lemma WindowCodesTo(lo1: bv64, hi1: bv64, lo2: bv64, hi2: bv64, n: bv8, idx: bv8)
    requires idx as int + n as int <= 20
    ensures WindowAt(lo1, hi1, lo2, hi2, n, idx)
        ==> forall k | 0 <= k < n as int :: Codes(lo1, hi1)[idx as int + k] == Codes(lo2, hi2)[k]
  {
    ByteBounds(idx, n);
    if WindowAt(lo1, hi1, lo2, hi2, n, idx) {
      WindowBytes(lo1, hi1, lo2, hi2, n, idx);
      ByteIndices(Codes(lo1, hi1), Codes(lo2, hi2), idx as int, n);
    }
  }

  lemma WindowBytes(lo1: bv64, hi1: bv64, lo2: bv64, hi2: bv64, n: bv8, idx: bv8)
    requires idx <= 20 && n <= 20 && idx + n <= 20
    requires WindowAt(lo1, hi1, lo2, hi2, n, idx)
    ensures AgreeBytes(Codes(lo1, hi1), Codes(lo2, hi2), idx as int, n)
  {
    forall j: bv8 | j < n ensures Codes(lo1, hi1)[idx as int + j as int] == Codes(lo2, hi2)[j] {
      WindowElementTo(lo1, hi1, lo2, hi2, n, idx, j);
    }
  }

  /** Codes idx.. of ca agree with codes 0.. of cb below the byte bound n. */
  ghost predicate AgreeBytes(ca: seq<bv8>, cb: seq<bv8>, idx: int, n: bv8)
    requires 0 <= idx && idx + n as int <= |ca| && n as int <= |cb|
  {
    forall j: bv8 | j < n :: ca[idx + j as int] == cb[j]
  }

  /** A property of all byte indices below n holds at all integer indices below n. */
  lemma ByteIndices(ca: seq<bv8>, cb: seq<bv8>, idx: int, n: bv8)
    requires 0 <= idx && n <= 20 && idx + n as int <= 20 && |ca| == |cb| == 22
    requires AgreeBytes(ca, cb, idx, n)
    ensures forall k | 0 <= k < n as int :: ca[idx + k] == cb[k]
  {
    forall k | 0 <= k < n as int ensures ca[idx + k] == cb[k] {
      IntToByte(k, n);
      assert ca[idx + (k as bv8) as int] == cb[k as bv8];
    }
  }

  lemma WindowCodesFrom(lo1: bv64, hi1: bv64, lo2: bv64, hi2: bv64, n: bv8, idx: bv8)
    requires idx as int + n as int <= 20
    ensures (forall k | 0 <= k < n as int :: Codes(lo1, hi1)[idx as int + k] == Codes(lo2, hi2)[k])
        ==> WindowAt(lo1, hi1, lo2, hi2, n, idx)
  {
    ByteBounds(idx, n);
    if forall k | 0 <= k < n as int :: Codes(lo1, hi1)[idx as int + k] == Codes(lo2, hi2)[k] {
      forall j: bv8 | j < n ensures GetN(lo1, hi1, idx + j) == GetN(lo2, hi2, j) {
        WindowElement(lo1, hi1, lo2, hi2, n, idx, j);
      }
    }
  }

  /** Element j of a window, as a code of each value. */
  lemma WindowElement(lo1: bv64, hi1: bv64, lo2: bv64, hi2: bv64, n: bv8, idx: bv8, j: bv8)
    requires idx <= 20 && n <= 20 && idx + n <= 20 && j < n
    ensures idx as int + j as int < 22 && j as int < n as int
    ensures Codes(lo1, hi1)[idx as int + j as int] == GetN(lo1, hi1, idx + j)
    ensures Codes(lo2, hi2)[j] == GetN(lo2, hi2, j)
  {
    ShiftedElement(lo1, hi1, idx, j);
  }

  lemma ShiftedElement(lo: bv64, hi: bv64, idx: bv8, j: bv8)
    requires idx <= 20 && j <= 20 && idx + j < 22
    ensures idx as int + j as int < 22
    ensures Codes(lo, hi)[idx as int + j as int] == GetN(lo, hi, idx + j)
  {
    AddNoWrap(idx, j);
    assert Codes(lo, hi)[idx + j] == GetN(lo, hi, idx + j);
  }

  lemma WindowElementTo(lo1: bv64, hi1: bv64, lo2: bv64, hi2: bv64, n: bv8, idx: bv8, j: bv8)
    requires idx <= 20 && n <= 20 && idx + n <= 20 && j < n
    requires WindowAt(lo1, hi1, lo2, hi2, n, idx)
    ensures idx as int + j as int < 22
    ensures Codes(lo1, hi1)[idx as int + j as int] == Codes(lo2, hi2)[j]
  {
    WindowElement(lo1, hi1, lo2, hi2, n, idx, j);
  }

  /** An integer window bound on bytes, as byte comparisons. */
  lemma ByteBounds(idx: bv8, n: bv8)
    requires idx as int + n as int <= 20
    ensures idx <= 20 && n <= 20 && idx + n <= 20
  {
    AddNoWrap(idx, n);
  }

  lemma IntToByte(k: int, n: bv8)
    requires 0 <= k < n as int && n <= 20
    ensures (k as bv8) as int == k && k as bv8 < n
  {
    ByteIndex(k);
  }

  lemma AddNoWrap(x: bv8, y: bv8)
    requires x <= 21 && y <= 21
    ensures (x + y) as int == x as int + y as int
  {}

  /** The corrected ps_is_at on two valid values is a slice test on their contents. */
  lemma IsAtContent(a: PackedString, b: PackedString, idx: bv8)
    requires Valid(a) && Valid(b)
    ensures IsAtDefined(Length(a), Length(b), idx)
    ensures IsAt(a.lo, a.hi, Length(a), b.lo, b.hi, Length(b), idx)
        <==> idx as int + Length(b) as int <= Length(a) as int
             && Content(a)[idx..idx as int + Length(b) as int] == Content(b)
  {
    IsAtWindow(a.lo, a.hi, Length(a), b.lo, b.hi, Length(b), idx);
    if idx as int + Length(b) as int <= Length(a) as int {
      WindowContent(a, b, idx);
    }
  }

  // ---------------------------------------------------------------------
  // ps_starts_with

  /**
   * ps_starts_with: below 11 codes, lo masked to the prefix's length
   * against the prefix's lo as it stands; from 11 codes on, the whole of
   * lo and then hi masked to code 10's top bits and the codes above.
   */
  function StartsWith(ps: PackedString, prefix: PackedString): bool
    requires Length(prefix) > Length(ps) || Length(prefix) <= 21
  {
    var lp, lx := Length(ps), Length(prefix);
    if lx > lp then false
    else if lx < 11 then StartsWithLow(ps.lo, prefix.lo, lx)
    else StartsWithHigh(ps.lo, ps.hi, prefix.lo, prefix.hi, lx)
  }

  /** A prefix of fewer than 11 codes: lo masked to its length against its lo. */
  function StartsWithLow(lo: bv64, prefixLo: bv64, lx: bv8): bool
    requires lx < 11
  {
    lo & LowMask(lx * 6) == prefixLo
  }

  /** A prefix of 11 to 21 codes: the whole of lo, then the masked hi. */
  function StartsWithHigh(lo: bv64, hi: bv64, prefixLo: bv64, prefixHi: bv64, lx: bv8): bool
    requires 11 <= lx <= 21
  {
    if lo == prefixLo then
      if lx == 11 then hi & 3 == prefixHi & 3
      else hi & LowMask((lx - 11) * 6 + 2) == prefixHi & LowMask((lx - 11) * 6 + 2)
    else false
  }

  /** On a prefix whose lo holds nothing past its length, ps_starts_with compares codes 0.. of both. */
  lemma StartsWithWindow(ps: PackedString, prefix: PackedString)
    requires Length(ps) <= 20
    requires Length(prefix) < 11 ==> prefix.lo & LowMask(Length(prefix) * 6) == prefix.lo
    ensures StartsWith(ps, prefix)
        <==> Length(prefix) <= Length(ps) && WindowAt(ps.lo, ps.hi, prefix.lo, prefix.hi, Length(prefix), 0)
  {
    var lp, lx := Length(ps), Length(prefix);
    if lx > lp {
    } else if lx < 11 {
      StartsWithLowWindow(ps.lo, ps.hi, prefix.lo, prefix.hi, lx);
    } else {
      StartsWithHighWindow(ps.lo, ps.hi, prefix.lo, prefix.hi, lx);
    }
  }

  lemma StartsWithLowWindow(lo1: bv64, hi1: bv64, lo2: bv64, hi2: bv64, n: bv8)
    requires n < 11 && lo2 & LowMask(n * 6) == lo2
    ensures StartsWithLow(lo1, lo2, n) <==> WindowAt(lo1, hi1, lo2, hi2, n, 0)
  {
    StartsWithLo(lo1, lo2, n);
    LoCase(lo1, hi1, lo2, hi2, 0, n);
  }

  lemma StartsWithHighWindow(lo1: bv64, hi1: bv64, lo2: bv64, hi2: bv64, n: bv8)
    requires 11 <= n <= 20
    ensures StartsWithHigh(lo1, hi1, lo2, hi2, n) <==> WindowAt(lo1, hi1, lo2, hi2, n, 0)
  {
    StartsWithWhole(lo1, hi1, lo2, hi2, n);
    WholeLoCase(lo1, hi1, lo2, hi2, n);
  }

  /** On a prefix whose lo holds nothing past its length, ps_starts_with is the corrected ps_is_at at 0. */
  lemma StartsWithIsAt(ps: PackedString, prefix: PackedString)
    requires Length(ps) <= 20
    requires Length(prefix) < 11 ==> prefix.lo & LowMask(Length(prefix) * 6) == prefix.lo
    ensures IsAtDefined(Length(ps), Length(prefix), 0)
    ensures StartsWith(ps, prefix) == IsAt(ps.lo, ps.hi, Length(ps), prefix.lo, prefix.hi, Length(prefix), 0)
  {
    StartsWithWindow(ps, prefix);
    IsAtWindow(ps.lo, ps.hi, Length(ps), prefix.lo, prefix.hi, Length(prefix), 0);
  }

  lemma StartsWithLo(lo1: bv64, lo2: bv64, n: bv8)
    requires n < 11 && lo2 & LowMask(n * 6) == lo2
    ensures StartsWithLow(lo1, lo2, n) == IsAtLo(lo1, lo2, 0 * 6, n * 6)
  {
    StartsWithLoA(lo1, lo2, n);
    StartsWithLoB(lo1, lo2, n);
  }

  lemma StartsWithLoA(lo1: bv64, lo2: bv64, n: bv8)
    requires n < 11 && lo2 & LowMask(n * 6) == lo2
    ensures StartsWithLow(lo1, lo2, n) ==> IsAtLo(lo1, lo2, 0 * 6, n * 6)
  {
  }

  lemma StartsWithLoB(lo1: bv64, lo2: bv64, n: bv8)
    requires n < 11 && lo2 & LowMask(n * 6) == lo2
    ensures IsAtLo(lo1, lo2, 0 * 6, n * 6) ==> StartsWithLow(lo1, lo2, n)
  {
  }

  lemma StartsWithWhole(lo1: bv64, hi1: bv64, lo2: bv64, hi2: bv64, n: bv8)
    requires 11 <= n <= 20
    ensures StartsWithHigh(lo1, hi1, lo2, hi2, n) == IsAtCross(lo1, hi1, lo2, hi2, 0 * 6, n * 6)
  {
    assert (n - 11) * 6 + 2 == n * 6 - 64;
  }

  /** A clean value of at most 10 codes has nothing in lo past its length. */
  lemma CleanLoFits(ps: PackedString)
    requires Clean(ps) && Length(ps) <= 10
    ensures ps.lo & LowMask(Length(ps) * 6) == ps.lo
  {
    var rlo := ps.lo & LowMask(Length(ps) * 6);
    CleanLimitAgree(ps, rlo);
    LoAgreeSameLo(rlo, ps.hi, ps.lo, ps.hi);
  }

  lemma CleanLimitAgree(ps: PackedString, rlo: bv64)
    requires Clean(ps) && Length(ps) <= 10 && rlo == ps.lo & LowMask(Length(ps) * 6)
    ensures LoAgree(rlo, ps.hi, ps.lo, ps.hi)
  {
    LimitLoAll(ps.lo, ps.hi, Length(ps), rlo);
    forall i: bv8 | i <= 10 ensures GetN(rlo, ps.hi, i) == GetN(ps.lo, ps.hi, i) {
      CleanLimitCode(ps, rlo, i);
    }
  }

  lemma CleanLimitCode(ps: PackedString, rlo: bv64, i: bv8)
    requires Clean(ps) && Length(ps) <= 10 && i <= 10
    requires GetN(rlo, ps.hi, i) == LimitedCode(ps.lo, ps.hi, Length(ps), i)
    ensures GetN(rlo, ps.hi, i) == GetN(ps.lo, ps.hi, i)
  {}

  /** Codes 0..10 of two values agree. */
  ghost predicate LoAgree(lo: bv64, hi: bv64, lo': bv64, hi': bv64) {
    forall i: bv8 | i <= 10 :: GetN(lo, hi, i) == GetN(lo', hi', i)
  }

  lemma LoAgreeSameLo(lo: bv64, hi: bv64, lo': bv64, hi': bv64)
    requires LoAgree(lo, hi, lo', hi')
    ensures lo == lo'
  {
    CodesDetermineLo(lo, hi, lo', hi');
  }

  /** ps_starts_with on a valid value and a clean prefix is a prefix test on the contents. */
  lemma StartsWithContent(ps: PackedString, prefix: PackedString)
    requires Valid(ps) && Clean(prefix)
    ensures Valid(prefix) && Length(prefix) <= 20
    ensures StartsWith(ps, prefix)
        <==> Length(prefix) <= Length(ps) && Content(ps)[..Length(prefix)] == Content(prefix)
  {
    ValidLength(ps);
    ValidLength(prefix);
    if Length(prefix) < 11 {
      CleanLoFits(prefix);
    }
    StartsWithWindow(ps, prefix);
    if Length(prefix) <= Length(ps) {
      WindowContent(ps, prefix, 0);
    }
  }

  // ---------------------------------------------------------------------
  // ps_ends_with, ps_starts_with_at, ps_ends_with_at

  /**
   * ps_ends_with: ps_is_at at `len_ps - len_suffix`, a u8 that wraps for a
   * longer suffix.  It is defined unless both lengths are equal and at
   * least 11 (EndsWithDefinedAsWritten).
   */
  function EndsWith(ps: PackedString, suffix: PackedString): bool
    requires IsAtDefinedAsWritten(Length(ps), Length(suffix), ByteSub(Length(ps), Length(suffix)))
  {
    IsAtAsWritten(ps.lo, ps.hi, Length(ps), suffix.lo, suffix.hi, Length(suffix), ByteSub(Length(ps), Length(suffix)))
  }

  /** On valid values ps_ends_with shifts by 64 exactly when both have the same length of 11 or more. */
  lemma EndsWithDefinedAsWritten(ps: PackedString, suffix: PackedString)
    requires Valid(ps) && Valid(suffix)
    ensures IsAtDefinedAsWritten(Length(ps), Length(suffix), ByteSub(Length(ps), Length(suffix)))
        <==> Length(suffix) != Length(ps) || Length(suffix) <= 10
  {
    LengthBound(ps);
    LengthBound(suffix);
    SuffixIndex(Length(ps), Length(suffix));
  }

  /** ps_ends_with on valid values, wherever it is defined, is a suffix test on the contents. */
  lemma EndsWithContent(ps: PackedString, suffix: PackedString)
    requires Valid(ps) && Valid(suffix)
    requires IsAtDefinedAsWritten(Length(ps), Length(suffix), ByteSub(Length(ps), Length(suffix)))
    ensures EndsWith(ps, suffix)
        <==> Length(suffix) <= Length(ps)
             && Content(ps)[Length(ps) as int - Length(suffix) as int..] == Content(suffix)
  {
    if Length(suffix) <= Length(ps) {
      EndsWithFits(ps, suffix);
    } else {
      EndsWithLonger(ps, suffix);
    }
  }

  lemma EndsWithFits(ps: PackedString, suffix: PackedString)
    requires Valid(ps) && Valid(suffix) && Length(suffix) <= Length(ps)
    requires IsAtDefinedAsWritten(Length(ps), Length(suffix), ByteSub(Length(ps), Length(suffix)))
    ensures EndsWith(ps, suffix)
        <==> Content(ps)[Length(ps) as int - Length(suffix) as int..] == Content(suffix)
  {
    var lp, ls := Length(ps), Length(suffix);
    LengthBound(ps);
    LengthBound(suffix);
    SuffixIndex(lp, ls);
    IsAtAsWrittenWindow(ps.lo, ps.hi, lp, suffix.lo, suffix.hi, ls, ByteSub(lp, ls));
    WindowContentFits(ps, suffix, ByteSub(lp, ls), lp as int - ls as int, lp as int);
    TailSlice(Content(ps), lp as int - ls as int, ls as int);
  }

  lemma EndsWithLonger(ps: PackedString, suffix: PackedString)
    requires Valid(ps) && Valid(suffix) && Length(suffix) > Length(ps)
    ensures IsAtDefinedAsWritten(Length(ps), Length(suffix), ByteSub(Length(ps), Length(suffix)))
    ensures !EndsWith(ps, suffix)
  {
    LengthBound(ps);
    LengthBound(suffix);
    SuffixIndex(Length(ps), Length(suffix));
  }

  lemma TailSlice(c: seq<bv8>, k: int, n: int)
    requires 0 <= k && 0 <= n && k + n == |c|
    ensures c[k..] == c[k..k + n]
  {}

  /** The wrapped start index of a suffix: exact when it fits, past the end when it does not. */
  lemma SuffixIndex(lp: bv8, ls: bv8)
    requires lp <= 20 && ls <= 20
    ensures ls <= lp ==> ByteSub(lp, ls) as int == lp as int - ls as int
    ensures ls > lp ==> ByteSub(lp, ls) as int + ls as int > lp as int
  {}

  /**
   * ps_starts_with_at: false when the window passes the end (int
   * arithmetic), else ps_is_at as written at start.
   */
  function StartsWithAt(ps: PackedString, prefix: PackedString, start: bv8): bool
    requires start as int + Length(prefix) as int > Length(ps) as int
             || IsAtDefinedAsWritten(Length(ps), Length(prefix), start)
  {
    if start as int + Length(prefix) as int > Length(ps) as int then false
    else IsAtAsWritten(ps.lo, ps.hi, Length(ps), prefix.lo, prefix.hi, Length(prefix), start)
  }

  /** ps_starts_with_at on valid values, wherever it is defined, is a slice test at start. */
  lemma StartsWithAtContent(ps: PackedString, prefix: PackedString, start: bv8)
    requires Valid(ps) && Valid(prefix)
    requires start as int + Length(prefix) as int > Length(ps) as int
             || IsAtDefinedAsWritten(Length(ps), Length(prefix), start)
    ensures StartsWithAt(ps, prefix, start)
        <==> start as int + Length(prefix) as int <= Length(ps) as int
             && Content(ps)[start..start as int + Length(prefix) as int] == Content(prefix)
  {
    if start as int + Length(prefix) as int <= Length(ps) as int {
      LengthBound(ps);
      IsAtAsWrittenWindow(ps.lo, ps.hi, Length(ps), prefix.lo, prefix.hi, Length(prefix), start);
      WindowContentFits(ps, prefix, start, start as int, start as int + Length(prefix) as int);
    }
  }

  /** On valid values ps_starts_with_at shifts by 64 exactly at start 0 with a fitting prefix of 11 or more codes. */
  lemma StartsWithAtDefinedAsWritten(ps: PackedString, prefix: PackedString, start: bv8)
    requires Valid(ps) && Valid(prefix) && start as int + Length(prefix) as int <= Length(ps) as int
    ensures IsAtDefinedAsWritten(Length(ps), Length(prefix), start) <==> start > 0 || Length(prefix) <= 10
  {
    LengthBound(ps);
  }

  /**
   * ps_ends_with_at: false when `len_ps - end < len_suffix` (int
   * arithmetic), else ps_is_at as written at `len_ps - len_suffix - end`.
   */
  function EndsWithAt(ps: PackedString, suffix: PackedString, end: bv8): bool
    requires Length(ps) as int - end as int < Length(suffix) as int
             || IsAtDefinedAsWritten(Length(ps), Length(suffix), ByteSub(ByteSub(Length(ps), Length(suffix)), end))
  {
    if Length(ps) as int - end as int < Length(suffix) as int then false
    else IsAtAsWritten(ps.lo, ps.hi, Length(ps), suffix.lo, suffix.hi, Length(suffix), ByteSub(ByteSub(Length(ps), Length(suffix)), end))
  }

  /** ps_ends_with_at on valid values, wherever it is defined: the suffix ends `end` codes before the end of ps. */
  lemma EndsWithAtContent(ps: PackedString, suffix: PackedString, end: bv8)
    requires Valid(ps) && Valid(suffix)
    requires Length(ps) as int - end as int < Length(suffix) as int
             || IsAtDefinedAsWritten(Length(ps), Length(suffix), ByteSub(ByteSub(Length(ps), Length(suffix)), end))
    ensures EndsWithAt(ps, suffix, end)
        <==> end as int + Length(suffix) as int <= Length(ps) as int
             && Content(ps)[Length(ps) as int - Length(suffix) as int - end as int..Length(ps) as int - end as int]
                == Content(suffix)
  {
    if Length(ps) as int - end as int >= Length(suffix) as int {
      EndsWithAtFits(ps, suffix, end);
    }
  }

  /**
   * On valid values with a suffix that fits `end` codes before the end,
   * ps_ends_with_at shifts by 64 exactly when it tests at index 0 a suffix
   * of 11 or more codes.
   */
  lemma EndsWithAtDefinedAsWritten(ps: PackedString, suffix: PackedString, end: bv8)
    requires Valid(ps) && Valid(suffix) && Length(ps) as int - end as int >= Length(suffix) as int
    ensures IsAtDefinedAsWritten(Length(ps), Length(suffix), ByteSub(ByteSub(Length(ps), Length(suffix)), end))
        <==> Length(ps) as int - Length(suffix) as int - end as int > 0 || Length(suffix) <= 10
  {
    LengthBound(ps);
    LengthBound(suffix);
    EndIndex(Length(ps), Length(suffix), end);
  }

  lemma EndsWithAtFits(ps: PackedString, suffix: PackedString, end: bv8)
    requires Valid(ps) && Valid(suffix) && Length(ps) as int - end as int >= Length(suffix) as int
    requires IsAtDefinedAsWritten(Length(ps), Length(suffix), ByteSub(ByteSub(Length(ps), Length(suffix)), end))
    ensures EndsWithAt(ps, suffix, end)
        <==> Content(ps)[Length(ps) as int - Length(suffix) as int - end as int..Length(ps) as int - end as int]
             == Content(suffix)
  {
    var lp, ls := Length(ps), Length(suffix);
    var idx := ByteSub(ByteSub(lp, ls), end);
    LengthBound(ps);
    LengthBound(suffix);
    EndIndex(lp, ls, end);
    IsAtAsWrittenWindow(ps.lo, ps.hi, lp, suffix.lo, suffix.hi, ls, idx);
    WindowContentFits(ps, suffix, idx, lp as int - ls as int - end as int, lp as int - end as int);
  }

  /** ps_is_at as written, at a window that fits and wherever it is defined, is a window test. */
  lemma IsAtAsWrittenWindow(lo1: bv64, hi1: bv64, len1: bv8, lo2: bv64, hi2: bv64, len2: bv8, idx: bv8)
    requires len1 <= 20 && idx as int + len2 as int <= len1 as int && IsAtDefinedAsWritten(len1, len2, idx)
    ensures IsAtAsWritten(lo1, hi1, len1, lo2, hi2, len2, idx) <==> WindowAt(lo1, hi1, lo2, hi2, len2, idx)
  {
    IsAtAsWrittenAgrees(lo1, hi1, len1, lo2, hi2, len2, idx);
    IsAtWindow(lo1, hi1, len1, lo2, hi2, len2, idx);
  }

  lemma EndIndex(lp: bv8, ls: bv8, end: bv8)
    requires lp <= 20 && ls <= 20 && lp as int - end as int >= ls as int
    ensures ByteSub(ByteSub(lp, ls), end) as int == lp as int - ls as int - end as int
  {
    EndBounds(lp, ls, end);
    SubNoWrap(lp, ls);
    SubNoWrap(ByteSub(lp, ls), end);
  }

  lemma EndBounds(lp: bv8, ls: bv8, end: bv8)
    requires lp <= 20 && ls <= 20 && lp as int - end as int >= ls as int
    ensures ls <= lp && end <= ByteSub(lp, ls)
  {}

  lemma SubNoWrap(x: bv8, y: bv8)
    requires y <= x && x <= 21
    ensures ByteSub(x, y) as int == x as int - y as int
  {}
}
