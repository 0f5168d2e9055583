/**
 * Cutting and joining packed strings: ps_skip, ps_trunc, ps_substring
 * and ps_concat (packed16/packed-string.c).  Each is a method, because
 * the helpers it calls (the 128-bit shifts, ps_limit, the metadata
 * insertion) update words through pointers and are methods here.
 *
 * Every operation is specified by the content it leaves: the codes
 * below the new length.  Where the C leaves stale codes past the new
 * length (so that the result is not Clean and word equality with the
 * packed form of the same text fails), the method says which codes
 * those are, and a corrected variant is given next to it.
 */
module Slicing {
  import opened Helper
  import opened HelperWrite
  import opened Packed
  import opened CodeSeqs

  // ---------------------------------------------------------------------
  // ps_skip

  /**
   * ps_skip as written: the metadata mask 0x00FFFFFFFFFFFFFFFF has
   * eighteen hex digits, so it keeps all 64 bits of hi and the old
   * metadata byte is shifted down with the codes.  The content is right;
   * the old metadata's low six bits land at code 20 - start, past the
   * new length.  A start of 22 or more (only an invalid length lets it
   * through) would shift hi by 64 or more.
   */
  method SkipAsWritten(ps: PackedString, start: bv8) returns (r: PackedString)
    requires start == 0 || start > Length(ps) || start <= 21
    ensures start == 0 ==> r == ps
    ensures start > Length(ps) ==> r == Empty()
    ensures 0 < start <= Length(ps) ==> Length(r) == Length(ps) - start && Flags(r) == 0
    ensures 0 < start <= Length(ps) && Valid(ps) ==> Valid(r) && Content(r) == Content(ps)[start..]
    ensures 0 < start <= Length(ps) && start <= 20 ==>
      Codes(r.lo, r.hi)[20 - start as int] == Codes(ps.lo, ps.hi)[20]
  {
    if start == 0 {
      return ps;
    }
    var len := Length(ps);
    if start > len {
      return Empty();
    }
    var hi := ps.hi & 0x00FFFFFFFFFFFFFFFF;
    assert hi == ps.hi;
    r := ShiftOut(ps, hi, start);
    if start <= 20 {
      SkipLeavesCode(Codes(ps.lo, ps.hi), r, start);
    }
  }

  /**
   * ps_skip with the mask it evidently means (PayloadMask, fourteen
   * significant hex digits): the same content, and a clean value stays
   * clean.
   */
  method Skip(ps: PackedString, start: bv8) returns (r: PackedString)
    requires start == 0 || start > Length(ps) || start <= 21
    ensures start == 0 ==> r == ps
    ensures start > Length(ps) ==> r == Empty()
    ensures 0 < start <= Length(ps) ==> Length(r) == Length(ps) - start && Flags(r) == 0
    ensures 0 < start <= Length(ps) && Valid(ps) ==> Valid(r) && Content(r) == Content(ps)[start..]
    ensures Clean(ps) ==> Clean(r)
  {
    if start == 0 {
      return ps;
    }
    var len := Length(ps);
    if start > len {
      EmptyValue();
      RepresentsClean(Empty(), [], 0);
      return Empty();
    }
    r := SkipMasked(ps, start);
  }

  /** The corrected ps_skip past its early returns. */
  method SkipMasked(ps: PackedString, start: bv8) returns (r: PackedString)
    requires 0 < start <= Length(ps) && start <= 21
    ensures Length(r) == Length(ps) - start && Flags(r) == 0
    ensures Valid(ps) ==> Valid(r) && Content(r) == Content(ps)[start..]
    ensures Clean(ps) ==> Clean(r)
  {
    var hi := ps.hi & PayloadMask;
    TopCodesCleared(ps.lo, ps.hi);
    PayloadKept(ps.lo, ps.hi, hi);
    r := ShiftOut(ps, hi, start);
    if Clean(ps) {
      SkipClean(ps, Codes(ps.lo, hi), r, start);
    }
  }

  /**
   * The rest of ps_skip once hi is masked: shift right by start codes and
   * write the new length without flags.
   */
  method ShiftOut(ps: PackedString, hi: bv64, start: bv8) returns (r: PackedString)
    requires 0 < start <= Length(ps) && start <= 21
    requires Payload(ps.lo, hi) == Payload(ps.lo, ps.hi)
    ensures Payload(r.lo, r.hi) == ShiftRightCodes(Codes(ps.lo, hi), start as int)[..20]
    ensures Length(r) == Length(ps) - start && Flags(r) == 0
    ensures Valid(ps) ==> Valid(r) && Content(r) == Content(ps)[start..]
  {
    var shift := start * 6;
    assert shift % 6 == 0 && shift / 6 == start;
    var slo, shi := ShiftRightBy(ps.lo, hi, shift);
    r := WithMetadata(slo, shi, Length(ps) - start, 0);
    SkipContent(ps, Codes(ps.lo, hi), Codes(slo, shi), r, start);
  }

  /** Both versions of ps_skip keep the codes from start on. */
  lemma SkipContent(ps: PackedString, c: seq<bv8>, sc: seq<bv8>, r: PackedString, start: bv8)
    requires 0 < start <= Length(ps) && start <= 21
    requires |c| == 22 && c[..20] == Payload(ps.lo, ps.hi)
    requires sc == ShiftRightCodes(c, start as int)
    requires Payload(r.lo, r.hi) == sc[..20] && Length(r) == Length(ps) - start
    ensures Valid(ps) ==> Valid(r) && Content(r) == Content(ps)[start..]
  {
    if Valid(ps) {
      ValidLength(ps);
      ValidLength(r);
      ContentOfPayload(ps);
      ContentOfPayload(r);
      var s, n := start as int, Length(r) as int;
      ShiftRightTake(c, s, n);
      assert Content(ps)[start..] == c[..20][..s + n][s..];
    }
  }

  /** The as-written ps_skip leaves the old code 20 at 20 - start. */
  lemma SkipLeavesCode(c: seq<bv8>, r: PackedString, start: bv8)
    requires 0 < start <= 20 && |c| == 22
    requires Payload(r.lo, r.hi) == ShiftRightCodes(c, start as int)[..20]
    ensures Codes(r.lo, r.hi)[20 - start as int] == c[20]
  {
    assert Codes(r.lo, r.hi)[20 - start as int] == Payload(r.lo, r.hi)[20 - start as int];
  }

  /** The corrected ps_skip leaves zeros past the new length. */
  lemma SkipClean(ps: PackedString, c: seq<bv8>, r: PackedString, start: bv8)
    requires Clean(ps) && 0 < start <= Length(ps) && start <= 21
    requires |c| == 22 && c[..20] == Payload(ps.lo, ps.hi) && c[20] == 0 && c[21] == 0
    requires Payload(r.lo, r.hi) == ShiftRightCodes(c, start as int)[..20]
    requires Length(r) == Length(ps) - start
    ensures Clean(r)
  {
    CleanPayload(ps);
    ShiftRightZeros(c, start as int, Length(ps) as int);
    CleanPayload(r);
  }

  /**
   * The as-written ps_skip on a 15-code value skipping 10 codes: the old
   * length field's low bits (15 << 3 & 63 = 56) show up as code 10 of a
   * 5-code result, so the result is not clean and is not equal to the
   * packed form of its own content.
   */
  lemma SkipAsWrittenLeavesMetadata(r: PackedString)
    requires Length(r) == 5 && Codes(r.lo, r.hi)[10] == Codes(0, 15 << 59)[20]
    ensures !Clean(r)
  {
    assert GetN(0, 15 << 59, 20) == 56;
    assert GetN(r.lo, r.hi, 10) == 56;
  }

  // ---------------------------------------------------------------------
  // ps_trunc

  /**
   * ps_trunc: the empty value for length 0, the value itself when length
   * is not below its length, otherwise ps_limit and a new metadata byte
   * without flags.  ps_limit below 11 codes masks only lo, so codes 11..19
   * survive past the new length.  A length of 22 or more (only an invalid
   * value lets it through) would shift by 64 or more inside ps_limit.
   */
  method Trunc(ps: PackedString, length: bv8) returns (r: PackedString)
    requires length == 0 || length >= Length(ps) || length <= 21
    ensures length == 0 ==> r == Empty()
    ensures 0 < length && length >= Length(ps) ==> r == ps
    ensures 0 < length < Length(ps) ==> Length(r) == length && Flags(r) == 0
    ensures 0 < length < Length(ps) && Valid(ps) ==> Valid(r) && Content(r) == Content(ps)[..length]
    ensures 0 < length < Length(ps) && length <= 10 ==> Codes(r.lo, r.hi)[11..20] == Codes(ps.lo, ps.hi)[11..20]
  {
    if length == 0 {
      return Empty();
    }
    if length >= Length(ps) {
      return ps;
    }
    var lo, hi := LimitTo(ps.lo, ps.hi, length);
    r := WithMetadata(lo, hi, length, 0);
    TruncContent(ps, Codes(lo, hi), r, length);
    if length <= 10 {
      TruncLeavesCodes(Codes(ps.lo, ps.hi), Codes(lo, hi), r);
    }
  }

  /** Codes 0..length-1 kept and a payload from them: the truncated content. */
  lemma TruncContent(ps: PackedString, lc: seq<bv8>, r: PackedString, length: bv8)
    requires 0 < length < Length(ps) && length <= 21 && |lc| == 22
    requires lc[..length] == Codes(ps.lo, ps.hi)[..length]
    requires Payload(r.lo, r.hi) == lc[..20] && Length(r) == length
    ensures Valid(ps) ==> Valid(r) && Content(r) == Content(ps)[..length]
  {
    if Valid(ps) {
      ValidLength(ps);
      ValidLength(r);
      ContentOfPayload(r);
      TakeTake(lc, 20, length as int);
      TakeTake(Codes(ps.lo, ps.hi), Length(ps) as int, length as int);
    }
  }

  /** Codes 11..19 of a payload taken from lc are lc's. */
  lemma TruncLeavesCodes(c: seq<bv8>, lc: seq<bv8>, r: PackedString)
    requires |c| == 22 && |lc| == 22 && lc[11..20] == c[11..20]
    requires Payload(r.lo, r.hi) == lc[..20]
    ensures Codes(r.lo, r.hi)[11..20] == c[11..20]
  {
    TakeSlice(Codes(r.lo, r.hi), 20, 11, 20);
    TakeSlice(lc, 20, 11, 20);
  }

  /**
   * ps_limit as its callers need it: every code at or past length is
   * cleared, including code 10's two bits in hi and the codes in hi when
   * the length is below 11 (the fix is `*hi = 0` in that branch).
   */
  method LimitCleared(lo: bv64, hi: bv64, length: bv8) returns (rlo: bv64, rhi: bv64)
    requires length <= 21
    ensures Codes(rlo, rhi) == Codes(lo, hi)[..length] + Zeros(22 - length as int)
  {
    rlo, rhi := Limit(lo, hi, length);
    if length <= 10 {
      ClearedLow(lo, hi, rlo, rhi, length);
      rhi := 0;
    } else {
      ClearedHigh(lo, hi, rlo, rhi, length);
    }
  }

  /** Below 11 codes, ps_limit's lo with a zero hi holds exactly the kept codes. */
  lemma ClearedLow(lo: bv64, hi: bv64, rlo: bv64, rhi: bv64, length: bv8)
    requires length <= 10 && rhi == hi
    requires forall i: bv8 | i < 22 :: GetN(rlo, rhi, i) == LimitedCode(lo, hi, length, i)
    ensures Codes(rlo, 0) == Codes(lo, hi)[..length] + Zeros(22 - length as int)
  {
    forall j | 0 <= j < 22 ensures Codes(rlo, 0)[j] == (Codes(lo, hi)[..length] + Zeros(22 - length as int))[j] {
      ByteIndex(j);
      ClearedHiCode(lo, hi, rlo, rhi, length, j as bv8);
      ClearedCodeAt(lo, hi, rlo, 0, length, j as bv8);
    }
  }

  /** From 11 codes on, ps_limit clears every code past the length. */
  lemma ClearedHigh(lo: bv64, hi: bv64, rlo: bv64, rhi: bv64, length: bv8)
    requires 10 < length <= 21
    requires forall i: bv8 | i < 22 :: GetN(rlo, rhi, i) == LimitedCode(lo, hi, length, i)
    ensures Codes(rlo, rhi) == Codes(lo, hi)[..length] + Zeros(22 - length as int)
  {
    forall j | 0 <= j < 22 ensures Codes(rlo, rhi)[j] == (Codes(lo, hi)[..length] + Zeros(22 - length as int))[j] {
      ByteIndex(j);
      ClearedCodeAt(lo, hi, rlo, rhi, length, j as bv8);
    }
  }

  lemma ClearedHiCode(lo: bv64, hi: bv64, rlo: bv64, rhi: bv64, length: bv8, i: bv8)
    requires length <= 10 && i < 22 && rhi == hi
    requires GetN(rlo, rhi, i) == LimitedCode(lo, hi, length, i)
    ensures GetN(rlo, 0, i) == if i < length then GetN(lo, hi, i) else 0
  {}

  lemma ClearedCodeAt(lo: bv64, hi: bv64, rlo: bv64, rhi: bv64, length: bv8, i: bv8)
    requires length <= 21 && i < 22
    requires GetN(rlo, rhi, i) == if i < length then GetN(lo, hi, i) else 0
    ensures Codes(rlo, rhi)[i] == (Codes(lo, hi)[..length] + Zeros(22 - length as int))[i]
  {
    CodesAt(rlo, rhi, i);
    if i < length {
      CodesAt(lo, hi, i);
    }
  }

  /** ps_trunc on the corrected ps_limit: the result is clean. */
  method TruncCleared(ps: PackedString, length: bv8) returns (r: PackedString)
    requires length == 0 || length >= Length(ps) || length <= 21
    ensures length == 0 ==> r == Empty()
    ensures 0 < length && length >= Length(ps) ==> r == ps
    ensures 0 < length < Length(ps) ==> Length(r) == length && Flags(r) == 0
    ensures 0 < length < Length(ps) && Valid(ps) ==> Valid(r) && Content(r) == Content(ps)[..length] && Clean(r)
  {
    if length == 0 {
      return Empty();
    }
    if length >= Length(ps) {
      return ps;
    }
    var lo, hi := LimitCleared(ps.lo, ps.hi, length);
    r := WithMetadata(lo, hi, length, 0);
    if Valid(ps) {
      ValidLength(ps);
      ClearedResult(Codes(ps.lo, ps.hi), Codes(lo, hi), r, length);
      TakeTake(Codes(ps.lo, ps.hi), Length(ps) as int, length as int);
    }
  }

  /** A payload of c's first length codes and zeros: content c[..length], clean. */
  lemma ClearedResult(c: seq<bv8>, lc: seq<bv8>, r: PackedString, length: bv8)
    requires 0 < length <= 20 && |c| >= 20
    requires lc == c[..length] + Zeros(22 - length as int)
    requires Payload(r.lo, r.hi) == lc[..20] && Length(r) == length
    ensures Valid(r) && Content(r) == c[..length] && Clean(r)
  {
    ValidLength(r);
    ContentOfPayload(r);
    assert lc[..20] == c[..length] + Zeros(20 - length as int);
    CleanPayload(r);
  }

  /**
   * The as-written ps_trunc cutting a value whose code 11 is set to 5
   * codes: code 11 is still there, so the result is not clean.
   */
  lemma TruncKeepsHighCodes(ps: PackedString, r: PackedString)
    requires Codes(ps.lo, ps.hi)[11] != 0
    requires Length(r) == 5 && Codes(r.lo, r.hi)[11..20] == Codes(ps.lo, ps.hi)[11..20]
    ensures !Clean(r)
  {
    assert Codes(r.lo, r.hi)[11] != 0;
    CleanPayload(r);
  }

  // ---------------------------------------------------------------------
  // ps_substring

  /**
   * The right shift ps_substring does, by start codes, skipped for start 0
   * (the C tests the bit count, which is 0 exactly then).
   */
  method ShiftToStart(ps: PackedString, start: bv8) returns (lo: bv64, hi: bv64)
    requires start <= 21
    ensures Codes(lo, hi) == ShiftRightCodes(Codes(ps.lo, ps.hi), start as int)
  {
    lo, hi := ps.lo, ps.hi;
    var bitStart := start * 6;
    if bitStart != 0 {
      assert bitStart % 6 == 0 && bitStart / 6 == start;
      lo, hi := ShiftRightBy(lo, hi, bitStart);
    } else {
      NoShift(lo, hi);
    }
  }

  /**
   * ps_substring: the empty value for length 0 or a range past the end
   * (start + length is an int sum in C and cannot wrap); otherwise a
   * right shift by start codes, ps_limit, and a new metadata byte without
   * flags.  Below 11 codes ps_limit leaves the shifted codes in hi.
   */
  method Substring(ps: PackedString, start: bv8, length: bv8) returns (r: PackedString)
    requires length == 0 || start as int + length as int > Length(ps) as int || (start <= 21 && length <= 21)
    ensures length == 0 || start as int + length as int > Length(ps) as int ==> r == Empty()
    ensures 0 < length && start as int + length as int <= Length(ps) as int ==>
      Length(r) == length && Flags(r) == 0
    ensures 0 < length && start as int + length as int <= Length(ps) as int && Valid(ps) ==>
      Valid(r) && Content(r) == Content(ps)[start..start as int + length as int]
    ensures 0 < length <= 10 && start as int + length as int <= Length(ps) as int ==>
      Codes(r.lo, r.hi)[11..20] == ShiftRightCodes(Codes(ps.lo, ps.hi), start as int)[11..20]
  {
    var total := Length(ps);
    if length == 0 || start as int + length as int > total as int {
      return Empty();
    }
    var lo, hi := ShiftToStart(ps, start);
    var llo, lhi := LimitTo(lo, hi, length);
    r := WithMetadata(llo, lhi, length, 0);
    if Valid(ps) {
      ValidLength(ps);
      ShiftedSlice(ps, Codes(lo, hi), start, length);
      SubstringContent(Codes(lo, hi), Codes(llo, lhi), r, length);
    }
    if length <= 10 {
      TruncLeavesCodes(Codes(lo, hi), Codes(llo, lhi), r);
    }
  }

  /** A payload whose first length codes are sc's: content sc[..length]. */
  lemma SubstringContent(sc: seq<bv8>, lc: seq<bv8>, r: PackedString, length: bv8)
    requires 0 < length <= 20 && |sc| == 22 && |lc| == 22
    requires lc[..length] == sc[..length]
    requires Payload(r.lo, r.hi) == lc[..20] && Length(r) == length
    ensures Valid(r) && Content(r) == sc[..length]
  {
    ValidLength(r);
    ContentOfPayload(r);
    TakeTake(lc, 20, length as int);
  }

  /** ps_substring on the corrected ps_limit: the result is clean. */
  method SubstringCleared(ps: PackedString, start: bv8, length: bv8) returns (r: PackedString)
    requires length == 0 || start as int + length as int > Length(ps) as int || (start <= 21 && length <= 21)
    ensures length == 0 || start as int + length as int > Length(ps) as int ==> r == Empty()
    ensures 0 < length && start as int + length as int <= Length(ps) as int ==>
      Length(r) == length && Flags(r) == 0
    ensures 0 < length && start as int + length as int <= Length(ps) as int && Valid(ps) ==>
      Valid(r) && Content(r) == Content(ps)[start..start as int + length as int] && Clean(r)
  {
    var total := Length(ps);
    if length == 0 || start as int + length as int > total as int {
      return Empty();
    }
    var lo, hi := ShiftToStart(ps, start);
    var llo, lhi := LimitCleared(lo, hi, length);
    r := WithMetadata(llo, lhi, length, 0);
    if Valid(ps) {
      ValidLength(ps);
      ClearedResult(Codes(lo, hi), Codes(llo, lhi), r, length);
      ShiftedSlice(ps, Codes(lo, hi), start, length);
    }
  }

  /** The first codes after the right shift are the slice of the content. */
  lemma ShiftedSlice(ps: PackedString, sc: seq<bv8>, start: bv8, length: bv8)
    requires Valid(ps) && start as int + length as int <= Length(ps) as int
    requires sc == ShiftRightCodes(Codes(ps.lo, ps.hi), start as int)
    ensures sc[..length] == Content(ps)[start..start as int + length as int]
  {
    ValidLength(ps);
    var c := Codes(ps.lo, ps.hi);
    var s, n := start as int, length as int;
    ShiftRightTake(c, s, n);
    TakeTake(sc, 20, n);
    TakeSlice(c, 20, s, s + n);
    TakeSlice(c, Length(ps) as int, s, s + n);
  }

  // ---------------------------------------------------------------------
  // ps_concat

  /** The length ps_concat gives: the sum, capped at 20. */
  function ConcatLength(a: PackedString, b: PackedString): (n: bv8)
    ensures n as int == if Length(a) as int + Length(b) as int > 20 then 20 else Length(a) as int + Length(b) as int
  {
    if Length(a) + Length(b) > 20 then 20 else Length(a) + Length(b)
  }

  /**
   * ps_concat: a itself when it already has 20 codes; otherwise b shifted
   * left by a's codes and or-ed into a, with the capped length and the
   * union of the flags.  An empty a makes ps_shl128 shift by 0, which
   * shifts lo right by 64 (C undefined behaviour), as does a length
   * field of 22 or more.  For a clean a and a valid b the content is
   * a's followed by b's, cut at 20; two clean values give a clean value.
   */
  method Concat(a: PackedString, b: PackedString) returns (r: PackedString)
    requires Length(a) == 20 || 0 < Length(a) <= 21
    ensures Length(a) == 20 ==> r == a
    ensures Length(a) != 20 ==> Length(r) == ConcatLength(a, b) && Flags(r) == Flags(a) | Flags(b)
    ensures Length(a) != 20 && Clean(a) && Valid(b) ==>
      Valid(r) && Content(r) == (Content(a) + Content(b))[..ConcatLength(a, b)]
    ensures Length(a) != 20 && Clean(a) && Clean(b) ==> Clean(r)
  {
    var lenA := Length(a);
    if lenA == 20 {
      return a;
    }
    var aBits := lenA * 6;
    assert aBits % 6 == 0 && aBits / 6 == lenA;
    var lo, hi := ShiftLeftBy(b.lo, b.hi, aBits);
    r := Join(a, b, lo, hi);
  }

  /**
   * ps_concat with the shift skipped for an empty a, which is what the C
   * evidently means: the same result wherever the C is defined, and for
   * an empty a the codes of b with the joined flags.
   */
  method ConcatGuarded(a: PackedString, b: PackedString) returns (r: PackedString)
    requires Length(a) <= 21
    ensures Length(a) == 20 ==> r == a
    ensures Length(a) != 20 ==> Length(r) == ConcatLength(a, b) && Flags(r) == Flags(a) | Flags(b)
    ensures Length(a) != 20 && Clean(a) && Valid(b) ==>
      Valid(r) && Content(r) == (Content(a) + Content(b))[..ConcatLength(a, b)]
    ensures Length(a) != 20 && Clean(a) && Clean(b) ==> Clean(r)
  {
    var lenA := Length(a);
    if lenA == 20 {
      return a;
    }
    var aBits := lenA * 6;
    var lo, hi := b.lo, b.hi;
    if aBits != 0 {
      assert aBits % 6 == 0 && aBits / 6 == lenA;
      lo, hi := ShiftLeftBy(b.lo, b.hi, aBits);
    } else {
      NoShift(lo, hi);
    }
    r := Join(a, b, lo, hi);
  }

  /**
   * The rest of ps_concat once b's codes are shifted past a's: or the
   * words together and write the capped length and the joined flags.
   */
  method Join(a: PackedString, b: PackedString, lo: bv64, hi: bv64) returns (r: PackedString)
    requires Length(a) != 20 && Length(a) <= 21
    requires Codes(lo, hi) == ShiftLeftCodes(Codes(b.lo, b.hi), Length(a) as int)
    ensures Length(r) == ConcatLength(a, b) && Flags(r) == Flags(a) | Flags(b)
    ensures Clean(a) && Valid(b) ==>
      Valid(r) && Content(r) == (Content(a) + Content(b))[..ConcatLength(a, b)]
    ensures Clean(a) && Clean(b) ==> Clean(r)
  {
    OrWords(lo, hi, a.lo, a.hi);
    r := WithMetadata(lo | a.lo, hi | a.hi, ConcatLength(a, b), Flags(a) | Flags(b));
    if Length(a) < 20 {
      ConcatContent(a, b, r);
      ConcatClean(a, b, r);
    }
  }

  /** The as-written ps_concat reaches ps_shl128 with shift 0 exactly when a is empty. */
  lemma ConcatShiftZeroWhenEmpty(a: PackedString)
    requires Length(a) <= 21
    ensures Length(a) * 6 == 0 <==> Length(a) == 0
  {}

  /** The content ps_concat leaves, given the or of a and b's shifted codes. */
  lemma ConcatContent(a: PackedString, b: PackedString, r: PackedString)
    requires Length(a) < 20
    requires Payload(r.lo, r.hi) ==
      OrCodes(ShiftLeftCodes(Codes(b.lo, b.hi), Length(a) as int), Codes(a.lo, a.hi))[..20]
    requires Length(r) == ConcatLength(a, b)
    ensures Clean(a) && Valid(b) ==>
      Valid(r) && Content(r) == (Content(a) + Content(b))[..ConcatLength(a, b)]
  {
    var lb := Length(b) as int;
    CleanPayload(a);
    ValidLength(b);
    ValidLength(r);
    ContentOfPayload(r);
    if lb <= 20 {
      ShiftLeftOr(Codes(a.lo, a.hi), Codes(b.lo, b.hi), Length(a) as int, lb, ConcatLength(a, b) as int);
    }
  }

  /** Two clean values concatenate to a clean value. */
  lemma ConcatClean(a: PackedString, b: PackedString, r: PackedString)
    requires Length(a) < 20
    requires Payload(r.lo, r.hi) ==
      OrCodes(ShiftLeftCodes(Codes(b.lo, b.hi), Length(a) as int), Codes(a.lo, a.hi))[..20]
    requires Length(r) == ConcatLength(a, b)
    ensures Clean(a) && Clean(b) ==> Clean(r)
  {
    var lb := Length(b) as int;
    CleanPayload(a);
    CleanPayload(b);
    CleanPayload(r);
    if lb <= 20 {
      ShiftLeftOr(Codes(a.lo, a.hi), Codes(b.lo, b.hi), Length(a) as int, lb, ConcatLength(a, b) as int);
    }
  }
}
