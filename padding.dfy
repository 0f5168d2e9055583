/**
 * ps_pad_left, ps_pad_right and ps_pad_center (packed16/packed-string.c).
 * Each fills a run of one code with ps_fill, shifts either the value or
 * the run into place with ps_shl128, ors the words together and writes a
 * new metadata byte with the target length.
 *
 * The flag rule the three share is ps_scan's (Access.ScanCodeFlag): an
 * upper-case pad code is flagged CONTAINS_DIGIT.  The target length is
 * never compared with 20, and ps_pad_right on an empty value and
 * ps_pad_center with a one-code pad shift by 0 bits, which ps_shl128
 * turns into a shift of a word by 64.  The methods named *Intended fix
 * those three points and keep the rest.
 */
module Padding {
  import opened Helper
  import opened Encoding
  import opened Packed
  import opened Access
  import opened CodeSeqs

  // ---------------------------------------------------------------------
  // The code sequences the pads build

  /** Or-ing code sequences slot by slot commutes. */
  lemma OrCodesCommute(x: seq<bv8>, y: seq<bv8>)
    requires |x| == |y|
    ensures OrCodes(x, y) == OrCodes(y, x)
  {
    assert forall j | 0 <= j < |x| :: OrCodes(x, y)[j] == OrCodes(y, x)[j];
  }

  /** A fill f of p codes or-ed under c shifted up by p: p pad codes, then c's first len. */
  lemma PadLeftCodes(c: seq<bv8>, f: seq<bv8>, s: bv8, p: int, len: int)
    requires |c| == 22 && 0 <= p && 0 <= len && p + len <= 20
    requires f == Repeat(s, p) + Zeros(22 - p)
    ensures OrCodes(ShiftLeftCodes(c, p), f)[..20][..p + len] == Repeat(s, p) + c[..len]
    ensures ZeroFrom(c[..20], len) ==> ZeroFrom(OrCodes(ShiftLeftCodes(c, p), f)[..20], p + len)
  {
    assert f[..p] == Repeat(s, p);
    assert ZeroFrom(f[..20], p);
    ShiftLeftOr(f, c, p, len, p + len);
  }

  /** A fill f of p codes shifted above c's first len codes and or-ed with c. */
  lemma PadRightCodes(c: seq<bv8>, f: seq<bv8>, s: bv8, p: int, len: int)
    requires |c| == 22 && 0 <= p && 0 <= len && p + len <= 20
    requires f == Repeat(s, p) + Zeros(22 - p)
    requires ZeroFrom(c[..20], len)
    ensures OrCodes(c, ShiftLeftCodes(f, len))[..20][..len + p] == c[..len] + Repeat(s, p)
    ensures ZeroFrom(OrCodes(c, ShiftLeftCodes(f, len))[..20], len + p)
  {
    assert f[..p] == Repeat(s, p);
    assert ZeroFrom(f[..20], p);
    OrCodesCommute(c, ShiftLeftCodes(f, len));
    ShiftLeftOr(c, f, len, p, len + p);
  }

  /**
   * The two fills of ps_pad_center: c shifted up by pl, or-ed with the
   * left fill and with the right fill shifted above the first pl + len.
   */
  lemma PadCenterCodes(c: seq<bv8>, fl: seq<bv8>, fr: seq<bv8>, s: bv8, pl: int, pr: int, len: int, k: int)
    requires |c| == 22 && 0 <= pl && 0 <= pr && 0 <= len && pl + len + pr <= 20 && k == pl + len
    requires fl == Repeat(s, pl) + Zeros(22 - pl) && fr == Repeat(s, pr) + Zeros(22 - pr)
    ensures ZeroFrom(c[..20], len) ==>
      OrCodes(ShiftLeftCodes(c, pl), OrCodes(fl, ShiftLeftCodes(fr, k)))[..20][..pl + len + pr]
        == Repeat(s, pl) + c[..len] + Repeat(s, pr)
    ensures ZeroFrom(c[..20], len) ==>
      ZeroFrom(OrCodes(ShiftLeftCodes(c, pl), OrCodes(fl, ShiftLeftCodes(fr, k)))[..20], pl + len + pr)
  {
    if ZeroFrom(c[..20], len) {
      PadCenterZeroFrom(c, fl, fr, s, pl, pr, len, k);
    }
  }

  lemma PadCenterZeroFrom(c: seq<bv8>, fl: seq<bv8>, fr: seq<bv8>, s: bv8, pl: int, pr: int, len: int, k: int)
    requires |c| == 22 && 0 <= pl && 0 <= pr && 0 <= len && pl + len + pr <= 20 && k == pl + len
    requires fl == Repeat(s, pl) + Zeros(22 - pl) && fr == Repeat(s, pr) + Zeros(22 - pr)
    requires ZeroFrom(c[..20], len)
    ensures OrCodes(ShiftLeftCodes(c, pl), OrCodes(fl, ShiftLeftCodes(fr, k)))[..20][..pl + len + pr]
      == Repeat(s, pl) + c[..len] + Repeat(s, pr)
    ensures ZeroFrom(OrCodes(ShiftLeftCodes(c, pl), OrCodes(fl, ShiftLeftCodes(fr, k)))[..20], pl + len + pr)
  {
    var t := OrCodes(ShiftLeftCodes(c, pl), fl);
    var g := ShiftLeftCodes(fr, k);
    assert OrCodes(ShiftLeftCodes(c, pl), OrCodes(fl, g)) == OrCodes(t, g) by {
      assert forall j | 0 <= j < 22 :: OrCodes(ShiftLeftCodes(c, pl), OrCodes(fl, g))[j] == OrCodes(t, g)[j];
    }
    PadLeftCodes(c, fl, s, pl, len);
    assert t[..20][..k] == t[..k];
    PadRightCodes(t, fr, s, pr, k);
  }

  // ---------------------------------------------------------------------
  // Flags of padded content

  /** The flags of a concatenation are the union of the parts' flags. */
  lemma {:induction false} CodesFlagsAppend(a: seq<bv8>, b: seq<bv8>)
    ensures CodesFlags(a + b) == CodesFlags(a) | CodesFlags(b)
    decreases |b|
  {
    if |b| == 0 {
      assert a + b == a;
    } else {
      var n := |b| - 1;
      assert (a + b)[..|a + b| - 1] == a + b[..n];
      CodesFlagsAppend(a, b[..n]);
    }
  }

  /** A run of one code has that code's flag, or none when it is empty. */
  lemma {:induction false} CodesFlagsRepeat(s: bv8, k: nat)
    ensures CodesFlags(Repeat(s, k)) == if k == 0 then 0 else CodeFlag(s)
  {
    if k > 0 {
      assert Repeat(s, k)[..k - 1] == Repeat(s, k - 1);
      CodesFlagsRepeat(s, k - 1);
    }
  }

  /**
   * The intended pads keep accurate flags: when r holds ps's content
   * between two runs of the code s (not both empty) and r's flags are
   * ps's with CodeFlag(s) added, flags that match ps's content match r's.
   */
  lemma PaddedFlags(ps: PackedString, r: PackedString, s: bv8, pl: nat, pr: nat)
    requires Valid(ps) && Valid(r) && pl + pr > 0
    requires Content(r) == Repeat(s, pl) + Content(ps) + Repeat(s, pr)
    requires Flags(r) == Flags(ps) | CodeFlag(s)
    ensures Flags(ps) == CodesFlags(Content(ps)) ==> Flags(r) == CodesFlags(Content(r))
  {
    var c := Content(ps);
    CodesFlagsAppend(Repeat(s, pl), c);
    CodesFlagsAppend(Repeat(s, pl) + c, Repeat(s, pr));
    CodesFlagsRepeat(s, pl);
    CodesFlagsRepeat(s, pr);
  }

  /**
   * The pads' flag rule as written (ps_scan's) marks an upper-case pad
   * code as a digit; the flag a run of it carries is case-sensitive.
   */
  lemma PadFlagMisflagsUpperCase(s: bv8, p: nat)
    requires IsUpperCode(s) && p > 0
    ensures ScanCodeFlag(s) == ContainsDigit
    ensures CodesFlags(Repeat(s, p)) == CaseSensitive
  {
    CodesFlagsRepeat(s, p);
  }

  /** The target the pads evidently mean: the requested length, at most 20. */
  function TargetOf(length: bv8): (t: bv8)
    ensures t <= MaxLen && (length <= MaxLen ==> t == length)
    ensures length > MaxLen ==> t == MaxLen
  {
    if length > MaxLen then MaxLen else length
  }

  // ---------------------------------------------------------------------
  // ps_pad_left

  /**
   * ps_pad_left as written.  Below the target the value gets
   * length - len copies of sixbit in front, the target as its length and
   * ps_scan's flag for sixbit (the pad's if-chain is ScanCodeFlag).
   */
  method PadLeft(ps: PackedString, sixbit: bv8, length: bv8) returns (r: PackedString)
    requires Length(ps) < length ==> length <= 21
    ensures Length(ps) >= length ==> r == ps
    ensures Length(ps) < length ==> Length(r) == length && Flags(r) == Flags(ps) | ScanCodeFlag(sixbit)
    ensures Length(ps) < length <= MaxLen && sixbit < 64 ==>
      Valid(r) && Content(r) == Repeat(sixbit, (length - Length(ps)) as int) + Content(ps)
    ensures Length(ps) < length <= MaxLen && sixbit < 64 && Clean(ps) ==> Clean(r)
  {
    if Length(ps) >= length {
      return ps;
    }
    r := PadLeftWith(ps, sixbit, length, Flags(ps) | ScanCodeFlag(sixbit));
  }

  /**
   * ps_pad_left with the flag the pad code carries and the target capped
   * at 20: the result stays valid, and accurate flags stay accurate.
   */
  method PadLeftIntended(ps: PackedString, sixbit: bv8, length: bv8) returns (r: PackedString)
    ensures Length(ps) >= TargetOf(length) ==> r == ps
    ensures Length(ps) < TargetOf(length) ==>
      Length(r) == TargetOf(length) && Flags(r) == Flags(ps) | CodeFlag(sixbit)
    ensures Length(ps) < TargetOf(length) && sixbit < 64 ==>
      Valid(r) && Content(r) == Repeat(sixbit, (TargetOf(length) - Length(ps)) as int) + Content(ps)
    ensures Length(ps) < TargetOf(length) && sixbit < 64 && Clean(ps) ==> Clean(r)
  {
    var target := TargetOf(length);
    if Length(ps) >= target {
      return ps;
    }
    r := PadLeftWith(ps, sixbit, target, Flags(ps) | CodeFlag(sixbit));
  }

  /** The body of ps_pad_left below the target, with the flags computed. */
  method PadLeftWith(ps: PackedString, sixbit: bv8, length: bv8, flags: bv8) returns (r: PackedString)
    requires Length(ps) < length <= 21 && flags < 8
    ensures Length(r) == length && Flags(r) == flags
    ensures length <= MaxLen && sixbit < 64 ==>
      Valid(r) && Content(r) == Repeat(sixbit, (length - Length(ps)) as int) + Content(ps)
    ensures length <= MaxLen && sixbit < 64 && Clean(ps) ==> Clean(r)
  {
    ghost var c := Codes(ps.lo, ps.hi);
    var padLen := length - Length(ps);
    var padLo, padHi := FillTo(sixbit, padLen);
    ghost var f := Codes(padLo, padHi);
    assert (padLen * 6) % 6 == 0 && (padLen * 6) / 6 == padLen;
    var lo, hi := ShiftLeftBy(ps.lo, ps.hi, padLen * 6);
    r := OrWithMetadata(lo, hi, padLo, padHi, length, flags);
    if length <= MaxLen && sixbit < 64 {
      PadLeftResult(ps, r, c, f, sixbit, padLen as int);
    }
  }

  /** What the or of PadLeftWith leaves, as content and cleanliness. */
  lemma PadLeftResult(ps: PackedString, r: PackedString, c: seq<bv8>, f: seq<bv8>, s: bv8, p: int)
    requires c == Codes(ps.lo, ps.hi) && 0 < p && Length(ps) as int + p <= 20
    requires f == Repeat(s, p) + Zeros(22 - p)
    requires Length(r) as int == Length(ps) as int + p
    requires Payload(r.lo, r.hi) == OrCodes(ShiftLeftCodes(c, p), f)[..20]
    ensures Valid(r) && Content(r) == Repeat(s, p) + Content(ps)
    ensures Clean(ps) ==> Clean(r)
  {
    CodesOfValue(ps, c);
    ResultOfPayload(r, OrCodes(ShiftLeftCodes(c, p), f), Length(r) as int);
    PadLeftCodes(c, f, s, p, Length(ps) as int);
  }

  // ---------------------------------------------------------------------
  // ps_pad_right

  /**
   * ps_pad_right as written.  The fill is shifted by len * 6 bits, which
   * for an empty value is a shift by 0 (excluded here); a clean value gets
   * length - len copies of sixbit after its codes.
   */
  method PadRight(ps: PackedString, sixbit: bv8, length: bv8) returns (r: PackedString)
    requires Length(ps) < length ==> length <= 21 && Length(ps) > 0
    ensures Length(ps) >= length ==> r == ps
    ensures Length(ps) < length ==> Length(r) == length && Flags(r) == Flags(ps) | ScanCodeFlag(sixbit)
    ensures Length(ps) < length <= MaxLen && sixbit < 64 && Clean(ps) ==>
      Clean(r) && Content(r) == Content(ps) + Repeat(sixbit, (length - Length(ps)) as int)
  {
    var len := Length(ps);
    if len >= length {
      return ps;
    }
    var padLen := length - len;
    var padLo, padHi := FillTo(sixbit, padLen);
    ghost var f := Codes(padLo, padHi);
    assert (len * 6) % 6 == 0 && (len * 6) / 6 == len;
    padLo, padHi := ShiftLeftBy(padLo, padHi, len * 6);
    r := PadRightJoin(ps, sixbit, length, Flags(ps) | ScanCodeFlag(sixbit), padLo, padHi, f);
  }

  /**
   * ps_pad_right with the flag the pad code carries, the target capped at
   * 20 and no shift for an empty value.
   */
  method PadRightIntended(ps: PackedString, sixbit: bv8, length: bv8) returns (r: PackedString)
    ensures Length(ps) >= TargetOf(length) ==> r == ps
    ensures Length(ps) < TargetOf(length) ==>
      Length(r) == TargetOf(length) && Flags(r) == Flags(ps) | CodeFlag(sixbit)
    ensures Length(ps) < TargetOf(length) && sixbit < 64 && Clean(ps) ==>
      Clean(r) && Content(r) == Content(ps) + Repeat(sixbit, (TargetOf(length) - Length(ps)) as int)
  {
    var len := Length(ps);
    var target := TargetOf(length);
    if len >= target {
      return ps;
    }
    var padLen := target - len;
    var padLo, padHi := FillTo(sixbit, padLen);
    ghost var f := Codes(padLo, padHi);
    padLo, padHi := ShiftLeftUnlessZero(padLo, padHi, len);
    r := PadRightJoin(ps, sixbit, target, Flags(ps) | CodeFlag(sixbit), padLo, padHi, f);
  }

  /** The rest of ps_pad_right once the fill f sits above the value's codes. */
  method PadRightJoin(ps: PackedString, sixbit: bv8, length: bv8, flags: bv8,
                      padLo: bv64, padHi: bv64, ghost f: seq<bv8>) returns (r: PackedString)
    requires Length(ps) < length <= 21 && flags < 8 && |f| == 22
    requires sixbit < 64 ==> f == Repeat(sixbit, (length - Length(ps)) as int) + Zeros(22 - (length - Length(ps)) as int)
    requires Codes(padLo, padHi) == ShiftLeftCodes(f, Length(ps) as int)
    ensures Length(r) == length && Flags(r) == flags
    ensures length <= MaxLen && sixbit < 64 && Clean(ps) ==>
      Clean(r) && Content(r) == Content(ps) + Repeat(sixbit, (length - Length(ps)) as int)
  {
    ghost var c := Codes(ps.lo, ps.hi);
    r := OrWithMetadata(ps.lo, ps.hi, padLo, padHi, length, flags);
    if length <= MaxLen && sixbit < 64 {
      PadRightResult(ps, r, c, f, sixbit, (length - Length(ps)) as int);
    }
  }

  /** What the or of PadRightJoin leaves for a clean value. */
  lemma PadRightResult(ps: PackedString, r: PackedString, c: seq<bv8>, f: seq<bv8>, s: bv8, p: int)
    requires c == Codes(ps.lo, ps.hi) && 0 < p && Length(ps) as int + p <= 20
    requires f == Repeat(s, p) + Zeros(22 - p)
    requires Length(r) as int == Length(ps) as int + p
    requires Payload(r.lo, r.hi) == OrCodes(c, ShiftLeftCodes(f, Length(ps) as int))[..20]
    ensures Clean(ps) ==> Clean(r) && Content(r) == Content(ps) + Repeat(s, p)
  {
    CodesOfValue(ps, c);
    ResultOfPayload(r, OrCodes(c, ShiftLeftCodes(f, Length(ps) as int)), Length(r) as int);
    if Clean(ps) {
      PadRightCodes(c, f, s, p, Length(ps) as int);
    }
  }

  // ---------------------------------------------------------------------
  // ps_pad_center

  /**
   * ps_pad_center as written: pad_len / 2 codes before, the rest after.
   * The value is shifted by (pad_len / 2) * 6 bits, a shift by 0 when the
   * pad is one code (excluded here).
   */
  method PadCenter(ps: PackedString, sixbit: bv8, length: bv8) returns (r: PackedString)
    requires Length(ps) < length ==> length <= 21 && length - Length(ps) >= 2
    ensures Length(ps) >= length ==> r == ps
    ensures Length(ps) < length ==> Length(r) == length && Flags(r) == Flags(ps) | ScanCodeFlag(sixbit)
    ensures Length(ps) < length <= MaxLen && sixbit < 64 && Clean(ps) ==>
      Clean(r) && Content(r) == Repeat(sixbit, ((length - Length(ps)) / 2) as int) + Content(ps)
        + Repeat(sixbit, ((length - Length(ps)) - (length - Length(ps)) / 2) as int)
  {
    if Length(ps) >= length {
      return ps;
    }
    r := PadCenterWith(ps, sixbit, length, Flags(ps) | ScanCodeFlag(sixbit));
  }

  /** The body of ps_pad_center below the target, with the flags computed. */
  method PadCenterWith(ps: PackedString, sixbit: bv8, length: bv8, flags: bv8) returns (r: PackedString)
    requires Length(ps) < length <= 21 && length - Length(ps) >= 2 && flags < 8
    ensures Length(r) == length && Flags(r) == flags
    ensures length <= MaxLen && sixbit < 64 && Clean(ps) ==>
      Clean(r) && Content(r) == Repeat(sixbit, ((length - Length(ps)) / 2) as int) + Content(ps)
        + Repeat(sixbit, ((length - Length(ps)) - (length - Length(ps)) / 2) as int)
  {
    var len := Length(ps);
    var padLen := length - len;
    var padlLen := padLen / 2;
    var padrLen := padLen - padlLen;
    var fillLo, fillHi := FillTo(sixbit, padrLen);
    var padlLo, padlHi := FillTo(sixbit, padlLen);
    var lo, hi := ShiftLeftCodesBy(ps.lo, ps.hi, padlLen);
    var padrLo, padrHi := ShiftLeftCodesBy(fillLo, fillHi, padlLen + len);
    r := Or3WithMetadata(lo, hi, padlLo, padlHi, padrLo, padrHi, length, flags);
    CenterSplit(len, length, padlLen, padrLen);
    if length <= MaxLen && sixbit < 64 {
      PadCenterWords(ps, r, sixbit, length, padlLen, padrLen, lo, hi, padlLo, padlHi, padrLo, padrHi, fillLo, fillHi);
    }
  }

  /**
   * ps_pad_center with the flag the pad code carries, the target capped
   * at 20 and no shift by 0 codes.
   */
  method PadCenterIntended(ps: PackedString, sixbit: bv8, length: bv8) returns (r: PackedString)
    ensures Length(ps) >= TargetOf(length) ==> r == ps
    ensures Length(ps) < TargetOf(length) ==>
      Length(r) == TargetOf(length) && Flags(r) == Flags(ps) | CodeFlag(sixbit)
    ensures Length(ps) < TargetOf(length) && sixbit < 64 && Clean(ps) ==>
      Clean(r) && Content(r) == Repeat(sixbit, ((TargetOf(length) - Length(ps)) / 2) as int) + Content(ps)
        + Repeat(sixbit, ((TargetOf(length) - Length(ps)) - (TargetOf(length) - Length(ps)) / 2) as int)
  {
    var target := TargetOf(length);
    if Length(ps) >= target {
      return ps;
    }
    r := PadCenterWithIntended(ps, sixbit, target, Flags(ps) | CodeFlag(sixbit));
  }

  /** PadCenterWith with no shift by 0 codes. */
  method PadCenterWithIntended(ps: PackedString, sixbit: bv8, length: bv8, flags: bv8) returns (r: PackedString)
    requires Length(ps) < length <= MaxLen && flags < 8
    ensures Length(r) == length && Flags(r) == flags
    ensures sixbit < 64 && Clean(ps) ==>
      Clean(r) && Content(r) == Repeat(sixbit, ((length - Length(ps)) / 2) as int) + Content(ps)
        + Repeat(sixbit, ((length - Length(ps)) - (length - Length(ps)) / 2) as int)
  {
    var len := Length(ps);
    var padLen := length - len;
    var padlLen := padLen / 2;
    var padrLen := padLen - padlLen;
    var fillLo, fillHi := FillTo(sixbit, padrLen);
    var padlLo, padlHi := FillTo(sixbit, padlLen);
    var lo, hi := ShiftLeftUnlessZero(ps.lo, ps.hi, padlLen);
    var padrLo, padrHi := ShiftLeftUnlessZero(fillLo, fillHi, padlLen + len);
    r := Or3WithMetadata(lo, hi, padlLo, padlHi, padrLo, padrHi, length, flags);
    CenterSplit(len, length, padlLen, padrLen);
    if sixbit < 64 {
      PadCenterWords(ps, r, sixbit, length, padlLen, padrLen, lo, hi, padlLo, padlHi, padrLo, padrHi, fillLo, fillHi);
    }
  }

  /**
   * The words of ps_pad_center read back: the value shifted up by pl
   * codes, the left fill of pl codes, and the right fill (fillLo, fillHi)
   * of pr codes shifted above the value, or-ed together, hold the padded
   * content.
   */
  lemma PadCenterWords(ps: PackedString, r: PackedString, s: bv8, length: bv8, pl: bv8, pr: bv8,
                       lo: bv64, hi: bv64, padlLo: bv64, padlHi: bv64, padrLo: bv64, padrHi: bv64,
                       fillLo: bv64, fillHi: bv64)
    requires Length(ps) as int + pl as int + pr as int == length as int <= 20 && 0 < pr && s < 64
    requires s < 64 ==> Codes(fillLo, fillHi) == Repeat(s, pr as int) + Zeros(22 - pr as int)
    requires s < 64 ==> Codes(padlLo, padlHi) == Repeat(s, pl as int) + Zeros(22 - pl as int)
    requires Codes(lo, hi) == ShiftLeftCodes(Codes(ps.lo, ps.hi), pl as int)
    requires (pl + Length(ps)) as int == pl as int + Length(ps) as int
    requires Codes(padrLo, padrHi) == ShiftLeftCodes(Codes(fillLo, fillHi), (pl + Length(ps)) as int)
    requires Payload(r.lo, r.hi) == OrCodes(Codes(lo, hi), OrCodes(Codes(padlLo, padlHi), Codes(padrLo, padrHi)))[..20]
    requires Length(r) == length
    ensures Clean(ps) ==> Clean(r) && Content(r) == Repeat(s, pl as int) + Content(ps) + Repeat(s, pr as int)
  {
    PadCenterGlue(ps, r, Codes(ps.lo, ps.hi), Codes(padlLo, padlHi), Codes(fillLo, fillHi),
                  s, Length(ps) as int, pl as int, pr as int, (pl + Length(ps)) as int);
  }

  /** The u8 arithmetic of ps_pad_center's split, read as integers. */
  lemma CenterSplit(len: bv8, length: bv8, padlLen: bv8, padrLen: bv8)
    requires len < length <= 21
    requires padlLen == (length - len) / 2 && padrLen == (length - len) - padlLen
    ensures 0 < padrLen && len as int + padlLen as int + padrLen as int == length as int
    ensures (padlLen + len) as int == padlLen as int + len as int
    ensures length <= MaxLen ==> length as int <= 20
  {}

  /** The codes of ps_pad_center's or, read back as the padded value. */
  lemma PadCenterGlue(ps: PackedString, r: PackedString, c: seq<bv8>, fl: seq<bv8>, fr: seq<bv8>,
                      s: bv8, len: int, pl: int, pr: int, k: int)
    requires c == Codes(ps.lo, ps.hi) && len == Length(ps) as int && 0 <= pl && 0 < pr && len + pl + pr <= 20
    requires k == pl + len
    requires fl == Repeat(s, pl) + Zeros(22 - pl) && fr == Repeat(s, pr) + Zeros(22 - pr)
    requires Length(r) as int == len + pl + pr
    requires Payload(r.lo, r.hi) == OrCodes(ShiftLeftCodes(c, pl), OrCodes(fl, ShiftLeftCodes(fr, k)))[..20]
    ensures Clean(ps) ==> Clean(r) && Content(r) == Repeat(s, pl) + Content(ps) + Repeat(s, pr)
  {
    var z := OrCodes(ShiftLeftCodes(c, pl), OrCodes(fl, ShiftLeftCodes(fr, k)));
    PadCenterCodes(c, fl, fr, s, pl, pr, len, k);
    PadCenterResult(ps, r, c, z, s, pl, pr);
  }

  /**
   * What the ors of PadCenterJoin leave for a clean value, given what
   * PadCenterCodes says about the or z of the codes.
   */
  lemma PadCenterResult(ps: PackedString, r: PackedString, c: seq<bv8>, z: seq<bv8>,
                        s: bv8, pl: int, pr: int)
    requires c == Codes(ps.lo, ps.hi) && |z| == 22 && 0 <= pl && 0 < pr && Length(ps) as int + pl + pr <= 20
    requires Length(r) as int == pl + Length(ps) as int + pr
    requires Payload(r.lo, r.hi) == z[..20]
    requires ZeroFrom(c[..20], Length(ps) as int) ==>
      z[..20][..pl + Length(ps) as int + pr] == Repeat(s, pl) + c[..Length(ps) as int] + Repeat(s, pr)
      && ZeroFrom(z[..20], pl + Length(ps) as int + pr)
    ensures Clean(ps) ==> Clean(r) && Content(r) == Repeat(s, pl) + Content(ps) + Repeat(s, pr)
  {
    CodesOfValue(ps, c);
    ResultOfPayload(r, z, Length(r) as int);
  }
}
