/**
 * Case-insensitive equality and lexicographic comparison
 * (packed16/packed-string.c): ps_equal_nocase and ps_compare.
 *
 * Both start with the payload-equality fast path of ps_equal_nometa,
 * which ignores the length field; since '0' is code 0, a value and the
 * same value followed by '0's have the same payload.
 */
module Comparing {
  import opened Encoding
  import opened Helper
  import opened HelperScan
  import opened Packed

  /** TO_LOWER_TABLE[k]. */
  function ToLowerCode(k: bv8): (r: bv8)
    requires k < 64
    ensures r == LowerOf(k)
  {
    ToLowerTableSpec();
    ToLowerTable[k]
  }

  // ---------------------------------------------------------------------
  // ps_equal_nocase

  /** Codes 0..n-1 of ca and cb agree after case folding, code `skip` aside. */
  ghost predicate FoldedAgree(ca: seq<bv8>, cb: seq<bv8>, n: int, skip: int)
    requires |ca| == 22 && |cb| == 22 && n <= 22
  {
    forall i | 0 <= i < n && i != skip :: LowerOf(ca[i]) == LowerOf(cb[i])
  }

  /**
   * What ps_equal_nocase computes: payload equality, or equal lengths and
   * every code below the length equal after folding, except code 10,
   * whose two reads both come from a.lo and b.lo.
   */
  ghost predicate NocaseAsWritten(a: PackedString, b: PackedString)
    requires EqualNometa(a, b) || Length(a) != Length(b) || Length(a) <= 22
  {
    EqualNometa(a, b)
    || (Length(a) == Length(b) && FoldedAgree(Codes(a.lo, a.hi), Codes(b.lo, b.hi), Length(a) as int, 10))
  }

  /**
   * ps_equal_nocase.  A length field over 22 would make the C shift the
   * high word by 64 or more.
   */
  method EqualNocase(a: PackedString, b: PackedString) returns (r: bool)
    requires EqualNometa(a, b) || Length(a) != Length(b) || Length(a) <= 22
    ensures r == NocaseAsWritten(a, b)
  {
    if EqualNometa(a, b) {
      return true;
    }
    var lenA := Length(a);
    var lenB := Length(b);
    if lenA != lenB {
      return false;
    }
    ghost var ca := Codes(a.lo, a.hi);
    ghost var cb := Codes(b.lo, b.hi);
    var loLen: bv8 := if lenA > 10 then 10 else lenA;
    r := NocaseLoCodes(a, b, ca, cb, loLen);
    if !r {
      NocaseSplit(ca, cb, lenA as int, loLen as int, if lenA > 11 then lenA as int - 11 else 0);
      return;
    }
    if lenA > 10 {
      // Both reads take their bits from a.lo and b.lo: they always agree.
      var aChar10 := GetMid(a.lo, b.lo);
      var bChar10 := GetMid(a.lo, b.lo);
      r := ToLowerCode(aChar10) == ToLowerCode(bChar10);
    }
    if lenA <= 11 {
      NocaseSplit(ca, cb, lenA as int, loLen as int, 0);
      return;
    }
    var hiLen := lenA - 11;
    var hiOk := NocaseHiCodes(a, b, ca, cb, hiLen);
    NocaseSplit(ca, cb, lenA as int, loLen as int, hiLen as int);
    r := r && hiOk;
  }

  /** ps_equal_nocase's first loop: codes 0..loLen-1. */
  method NocaseLoCodes(a: PackedString, b: PackedString, ghost ca: seq<bv8>, ghost cb: seq<bv8>, loLen: bv8)
    returns (ok: bool)
    requires ca == Codes(a.lo, a.hi) && cb == Codes(b.lo, b.hi) && loLen <= 10
    ensures ok <==> FoldedRun(ca, cb, 0, loLen as int)
  {
    var i: bv8 := 0;
    while i < loLen
      invariant i <= loLen && FoldedRun(ca, cb, 0, i as int)
    {
      var aSixbit := ReadLo(a, ca, i);
      var bSixbit := ReadLo(b, cb, i);
      IncIndex(i, loLen);
      FoldedStep(ca, cb, 0, i as int, loLen as int, aSixbit, bSixbit);
      if ToLowerCode(aSixbit) != ToLowerCode(bSixbit) {
        return false;
      }
      i := i + 1;
    }
    return true;
  }

  /** ps_equal_nocase's second loop: codes 11..11+hiLen-1. */
  method NocaseHiCodes(a: PackedString, b: PackedString, ghost ca: seq<bv8>, ghost cb: seq<bv8>, hiLen: bv8)
    returns (ok: bool)
    requires ca == Codes(a.lo, a.hi) && cb == Codes(b.lo, b.hi) && hiLen <= 11
    ensures ok <==> FoldedRun(ca, cb, 11, 11 + hiLen as int)
  {
    var i: bv8 := 0;
    while i < hiLen
      invariant i <= hiLen && FoldedRun(ca, cb, 11, 11 + i as int)
    {
      var aSixbit := ReadHi(a, ca, i);
      var bSixbit := ReadHi(b, cb, i);
      IncIndex(i, hiLen);
      FoldedStep(ca, cb, 11, 11 + i as int, 11 + hiLen as int, aSixbit, bSixbit);
      if ToLowerCode(aSixbit) != ToLowerCode(bSixbit) {
        return false;
      }
      i := i + 1;
    }
    return true;
  }

  /** Codes from..to-1 of ca and cb agree after folding. */
  ghost predicate FoldedRun(ca: seq<bv8>, cb: seq<bv8>, from: int, to: int)
    requires |ca| == 22 && |cb| == 22 && 0 <= from && to <= 22
  {
    forall i | from <= i < to :: LowerOf(ca[i]) == LowerOf(cb[i])
  }

  /** One more code of a run: the run grows iff the two codes fold alike. */
  lemma FoldedStep(ca: seq<bv8>, cb: seq<bv8>, from: int, i: int, n: int, x: bv8, y: bv8)
    requires |ca| == 22 && |cb| == 22 && 0 <= from <= i < n <= 22
    requires x == ca[i] && y == cb[i] && x < 64 && y < 64
    requires FoldedRun(ca, cb, from, i)
    ensures ToLowerCode(x) == ToLowerCode(y) ==> FoldedRun(ca, cb, from, i + 1)
    ensures ToLowerCode(x) != ToLowerCode(y) ==> !FoldedRun(ca, cb, from, n)
  {}

  /** The codes below len other than 10 are those of the two loops. */
  lemma NocaseSplit(ca: seq<bv8>, cb: seq<bv8>, len: int, loLen: int, hiLen: int)
    requires |ca| == 22 && |cb| == 22 && 0 <= len <= 22
    requires loLen == if len > 10 then 10 else len
    requires hiLen == if len > 11 then len - 11 else 0
    ensures FoldedAgree(ca, cb, len, 10) <==> FoldedRun(ca, cb, 0, loLen) && FoldedRun(ca, cb, 11, 11 + hiLen)
  {}

  /**
   * The intended case-insensitive equality: the same length and the same
   * codes after folding.
   */
  predicate NocaseEqual(ca: seq<bv8>, cb: seq<bv8>) {
    |ca| == |cb| && forall i | 0 <= i < |ca| :: LowerOf(ca[i]) == LowerOf(cb[i])
  }

  /** The code sequence folded to lower case. */
  function Folded(c: seq<bv8>): (f: seq<bv8>)
    ensures |f| == |c|
    ensures forall i | 0 <= i < |c| :: f[i] == LowerOf(c[i])
  {
    seq(|c|, i requires 0 <= i < |c| => LowerOf(c[i]))
  }

  /**
   * The intended equality is equality of the folded codes, and so an
   * equivalence.
   */
  lemma NocaseEqualFolded(ca: seq<bv8>, cb: seq<bv8>, cc: seq<bv8>)
    ensures NocaseEqual(ca, cb) <==> Folded(ca) == Folded(cb)
    ensures NocaseEqual(ca, ca)
    ensures NocaseEqual(ca, cb) ==> NocaseEqual(cb, ca)
    ensures NocaseEqual(ca, cb) && NocaseEqual(cb, cc) ==> NocaseEqual(ca, cc)
  {
    if Folded(ca) == Folded(cb) {
      forall i | 0 <= i < |ca| ensures LowerOf(ca[i]) == LowerOf(cb[i]) {
        assert Folded(ca)[i] == Folded(cb)[i];
      }
    }
  }

  /**
   * On values of equal valid length whose codes 10 agree after folding,
   * ps_equal_nocase answers the intended question whenever its fast path
   * does not fire.
   */
  lemma NocaseAsWrittenIntended(a: PackedString, b: PackedString)
    requires Valid(a) && Valid(b) && !EqualNometa(a, b)
    requires Length(a) > 10 && Length(a) == Length(b) ==> LowerOf(Content(a)[10]) == LowerOf(Content(b)[10])
    ensures NocaseAsWritten(a, b) <==> NocaseEqual(Content(a), Content(b))
  {
    ValidLength(a);
    ValidLength(b);
    if Length(a) == Length(b) {
      var n := Length(a) as int;
      assert forall i | 0 <= i < n :: Content(a)[i] == Codes(a.lo, a.hi)[i];
      assert forall i | 0 <= i < n :: Content(b)[i] == Codes(b.lo, b.hi)[i];
    }
  }

  /**
   * Payload equality holds for values whose codes agree and whose lengths
   * differ, so the fast path says yes to "a" against "a0".
   */
  lemma NocaseFastPathIgnoresLength()
    ensures NocaseAsWritten(PackedString(10, 1 << 59), PackedString(10, 2 << 59))
    ensures Valid(PackedString(10, 1 << 59)) && Valid(PackedString(10, 2 << 59))
    ensures Content(PackedString(10, 1 << 59)) == [10]
    ensures Content(PackedString(10, 2 << 59)) == [10, 0]
    ensures !NocaseEqual(Content(PackedString(10, 1 << 59)), Content(PackedString(10, 2 << 59)))
  {
    var a := PackedString(10, 1 << 59);
    var b := PackedString(10, 2 << 59);
    assert Content(a)[0] == GetN(a.lo, a.hi, 0) == 10;
    assert Content(b)[0] == GetN(b.lo, b.hi, 0) == 10;
    assert Content(b)[1] == GetN(b.lo, b.hi, 1) == 0;
  }

  /**
   * Code 10 is never compared: two values of length 11 that differ only
   * there ("aaaaaaaaaaa" and "aaaaaaaaaab") are reported equal.
   */
  lemma NocaseSkipsCode10(a: PackedString, b: PackedString)
    requires Valid(a) && Valid(b) && Length(a) == 11 && Length(b) == 11
    requires Content(a)[..10] == Content(b)[..10]
    requires LowerOf(Content(a)[10]) != LowerOf(Content(b)[10])
    ensures NocaseAsWritten(a, b)
    ensures !NocaseEqual(Content(a), Content(b))
  {
    forall i | 0 <= i < 10 ensures LowerOf(Codes(a.lo, a.hi)[i]) == LowerOf(Codes(b.lo, b.hi)[i]) {
      assert Content(a)[..10][i] == Content(b)[..10][i];
    }
  }

  // ---------------------------------------------------------------------
  // ps_compare

  /** C's u64 comparison result. */
  function Order(x: bv64, y: bv64): int {
    if x as int < y as int then -1 else 1
  }

  /**
   * ps_compare as written: the payload fast path, then the fields of the
   * two values compared as listed in CompareFields.
   */
  function CompareWords(a: PackedString, b: PackedString): (r: int)
    requires EqualNometa(a, b) || Length(a) <= 21 || Length(b) <= 21
  {
    if EqualNometa(a, b) then 0
    else CompareFields(a.lo, a.hi, Length(a), b.lo, b.hi, Length(b))
  }

  /** The shorter of two lengths. */
  function MinLength(la: bv8, lb: bv8): bv8 {
    if la < lb then la else lb
  }

  /**
   * The comparisons after the fast path: below 10 codes the low words
   * masked to the shorter length; otherwise the whole low words, code 10
   * from hi[0:1], and the high codes masked to the shorter length, each
   * as an unsigned number; the length difference breaks ties.  A shorter
   * length above 21 would shift by 64 or more.
   */
  function CompareFields(alo: bv64, ahi: bv64, la: bv8, blo: bv64, bhi: bv64, lb: bv8): int
    requires MinLength(la, lb) <= 21
  {
    var m := MinLength(la, lb);
    if m < 10 then CompareLow(alo, la, blo, lb, m)
    else if alo != blo then Order(alo, blo)
    else CompareUpper(ahi, la, bhi, lb, m, GetMid(alo, ahi), GetMid(blo, bhi))
  }

  /** Below 10 codes: the low words masked to the shorter length. */
  function CompareLow(alo: bv64, la: bv8, blo: bv64, lb: bv8, m: bv8): int
    requires m < 10
  {
    CompareMasked(alo & LowMask(m * 6), blo & LowMask(m * 6), la, lb)
  }

  /** Masked words compared as numbers, the lengths breaking a tie. */
  function CompareMasked(da: bv64, db: bv64, la: bv8, lb: bv8): int {
    if da != db then Order(da, db) else la as int - lb as int
  }

  /** After equal low words: code 10, then the high codes up to m. */
  function CompareUpper(ahi: bv64, la: bv8, bhi: bv64, lb: bv8, m: bv8, ma: bv8, mb: bv8): int
    requires 10 <= m <= 21
  {
    if m > 10 && ma != mb then Order(ma as bv64, mb as bv64)
    else if m == 10 then la as int - lb as int
    else if m > 11 && HiPrefix(ahi, m) != HiPrefix(bhi, m) then Order(HiPrefix(ahi, m), HiPrefix(bhi, m))
    else la as int - lb as int
  }

  /** Codes 11..m-1: `(hi >> 2) & ((1 << (m - 11) * 6) - 1)`. */
  function HiPrefix(hi: bv64, m: bv8): bv64
    requires 11 <= m <= 21
  {
    (hi >> 2) & LowMask((m - 11) * 6)
  }

  /** ps_compare is antisymmetric. */
  lemma CompareWordsAntisymmetric(a: PackedString, b: PackedString)
    requires EqualNometa(a, b) || Length(a) <= 21 || Length(b) <= 21
    ensures CompareWords(a, b) == -CompareWords(b, a)
  {
    if !EqualNometa(a, b) {
      CompareFieldsAntisymmetric(a.lo, a.hi, Length(a), b.lo, b.hi, Length(b));
    }
  }

  lemma CompareFieldsAntisymmetric(alo: bv64, ahi: bv64, la: bv8, blo: bv64, bhi: bv64, lb: bv8)
    requires MinLength(la, lb) <= 21
    ensures MinLength(lb, la) == MinLength(la, lb)
    ensures CompareFields(alo, ahi, la, blo, bhi, lb) == -CompareFields(blo, bhi, lb, alo, ahi, la)
  {
    var m := MinLength(la, lb);
    assert MinLength(lb, la) == m;
    if m < 10 {
      CompareFieldsLo(alo, ahi, la, blo, bhi, lb, m);
    } else if alo != blo {
      CompareFieldsWord(alo, ahi, la, blo, bhi, lb, m);
    } else {
      CompareFieldsUpper(alo, ahi, la, blo, bhi, lb, m);
    }
  }

  lemma CompareFieldsLo(alo: bv64, ahi: bv64, la: bv8, blo: bv64, bhi: bv64, lb: bv8, m: bv8)
    requires m == MinLength(la, lb) == MinLength(lb, la) && m < 10
    ensures CompareFields(alo, ahi, la, blo, bhi, lb) == -CompareFields(blo, bhi, lb, alo, ahi, la)
  {
    CompareLowAntisymmetric(alo, la, blo, lb, m);
  }

  lemma CompareLowAntisymmetric(alo: bv64, la: bv8, blo: bv64, lb: bv8, m: bv8)
    requires m < 10
    ensures CompareLow(alo, la, blo, lb, m) == -CompareLow(blo, lb, alo, la, m)
  {
    CompareMaskedAntisymmetric(alo & LowMask(m * 6), blo & LowMask(m * 6), la, lb);
  }

  lemma CompareFieldsWord(alo: bv64, ahi: bv64, la: bv8, blo: bv64, bhi: bv64, lb: bv8, m: bv8)
    requires m == MinLength(la, lb) == MinLength(lb, la) && 10 <= m <= 21 && alo != blo
    ensures CompareFields(alo, ahi, la, blo, bhi, lb) == -CompareFields(blo, bhi, lb, alo, ahi, la)
  {
    OrderAntisymmetric(alo, blo);
    assert CompareFields(alo, ahi, la, blo, bhi, lb) == Order(alo, blo);
    assert CompareFields(blo, bhi, lb, alo, ahi, la) == Order(blo, alo);
  }

  lemma CompareFieldsUpper(alo: bv64, ahi: bv64, la: bv8, blo: bv64, bhi: bv64, lb: bv8, m: bv8)
    requires m == MinLength(la, lb) == MinLength(lb, la) && 10 <= m <= 21 && alo == blo
    ensures CompareFields(alo, ahi, la, blo, bhi, lb) == -CompareFields(blo, bhi, lb, alo, ahi, la)
  {
    var ma, mb := GetMid(alo, ahi), GetMid(blo, bhi);
    CompareUpperAntisymmetric(ahi, la, bhi, lb, m, ma, mb);
    assert CompareFields(alo, ahi, la, blo, bhi, lb) == CompareUpper(ahi, la, bhi, lb, m, ma, mb);
    assert CompareFields(blo, bhi, lb, alo, ahi, la) == CompareUpper(bhi, lb, ahi, la, m, mb, ma);
  }

  lemma CompareMaskedAntisymmetric(da: bv64, db: bv64, la: bv8, lb: bv8)
    ensures CompareMasked(da, db, la, lb) == -CompareMasked(db, da, lb, la)
  {
    if da != db {
      OrderAntisymmetric(da, db);
    }
  }

  lemma CompareUpperAntisymmetric(ahi: bv64, la: bv8, bhi: bv64, lb: bv8, m: bv8, ma: bv8, mb: bv8)
    requires 10 <= m <= 21
    ensures CompareUpper(ahi, la, bhi, lb, m, ma, mb) == -CompareUpper(bhi, lb, ahi, la, m, mb, ma)
  {
    if m > 10 && ma != mb {
      OrderAntisymmetric(ma as bv64, mb as bv64);
    } else if m > 11 && HiPrefix(ahi, m) != HiPrefix(bhi, m) {
      OrderAntisymmetric(HiPrefix(ahi, m), HiPrefix(bhi, m));
    }
  }

  lemma OrderAntisymmetric(x: bv64, y: bv64)
    requires x != y
    ensures Order(x, y) == -Order(y, x)
  {
    if x as int == y as int {
      WordAsInt(x, y);
    }
  }

  /**
   * The intended order: the first differing code decides, and a proper
   * prefix comes first.
   */
  function LexCompare(ca: seq<bv8>, cb: seq<bv8>): (r: int)
    ensures -1 <= r <= 1
  {
    if |ca| == 0 || |cb| == 0 then (if |ca| < |cb| then -1 else if |ca| > |cb| then 1 else 0)
    else if ca[0] != cb[0] then (if ca[0] < cb[0] then -1 else 1)
    else LexCompare(ca[1..], cb[1..])
  }

  /** LexCompare is zero exactly on equal sequences, and antisymmetric. */
  lemma {:induction false} LexCompareSpec(ca: seq<bv8>, cb: seq<bv8>)
    ensures LexCompare(ca, cb) == 0 <==> ca == cb
    ensures LexCompare(ca, cb) == -LexCompare(cb, ca)
  {
    if |ca| > 0 && |cb| > 0 && ca[0] == cb[0] {
      LexCompareSpec(ca[1..], cb[1..]);
      assert ca == [ca[0]] + ca[1..];
      assert cb == [cb[0]] + cb[1..];
    }
  }

  /** LexCompare is transitive. */
  lemma {:induction false} LexCompareTransitive(ca: seq<bv8>, cb: seq<bv8>, cc: seq<bv8>)
    requires LexCompare(ca, cb) < 0 && LexCompare(cb, cc) < 0
    ensures LexCompare(ca, cc) < 0
  {
    if |ca| > 0 && |cb| > 0 && |cc| > 0 && ca[0] == cb[0] && cb[0] == cc[0] {
      LexCompareTransitive(ca[1..], cb[1..], cc[1..]);
    }
  }

  /** The first differing code decides LexCompare. */
  lemma {:induction false} LexCompareFirstDifference(ca: seq<bv8>, cb: seq<bv8>, k: int)
    requires 0 <= k < |ca| && k < |cb| && ca[..k] == cb[..k] && ca[k] != cb[k]
    ensures LexCompare(ca, cb) == if ca[k] < cb[k] then -1 else 1
  {
    if k > 0 {
      assert ca[0] == ca[..k][0] == cb[..k][0] == cb[0];
      assert ca[1..][..k - 1] == ca[..k][1..] == cb[..k][1..] == cb[1..][..k - 1];
      LexCompareFirstDifference(ca[1..], cb[1..], k - 1);
    }
  }

  /**
   * ps_compare is not lexicographic: code 0 sits in the lowest bits, so
   * for "ab" against "ba" the second code decides and "ab" comes after.
   */
  lemma CompareNotLexicographic()
    ensures Valid(PackedString(0x2CA, 2 << 59)) && Content(PackedString(0x2CA, 2 << 59)) == [10, 11]
    ensures Valid(PackedString(0x28B, 2 << 59)) && Content(PackedString(0x28B, 2 << 59)) == [11, 10]
    ensures CompareWords(PackedString(0x2CA, 2 << 59), PackedString(0x28B, 2 << 59)) == 1
    ensures LexCompare([10, 11], [11, 10]) == -1
  {
    var a := PackedString(0x2CA, 2 << 59);
    var b := PackedString(0x28B, 2 << 59);
    assert Content(a)[0] == GetN(a.lo, a.hi, 0) == 10;
    assert Content(a)[1] == GetN(a.lo, a.hi, 1) == 11;
    assert Content(b)[0] == GetN(b.lo, b.hi, 0) == 11;
    assert Content(b)[1] == GetN(b.lo, b.hi, 1) == 10;
  }

  /** The payload fast path makes "a" and "a0" compare equal. */
  lemma CompareIgnoresTrailingZeroCodes()
    ensures CompareWords(PackedString(10, 1 << 59), PackedString(10, 2 << 59)) == 0
    ensures LexCompare([10], [10, 0]) == -1
  {}
  /**
   * The fast path also breaks the order ps_compare induces: for the codes
   * x = [0, 1], y = [1] and z = [1, 0], x comes before y and y ties with
   * z (equal payloads), yet x comes after z.
   */
  lemma CompareTieNotTransitive()
    ensures Content(PackedString(64, 2 << 59)) == [0, 1]
    ensures Content(PackedString(1, 1 << 59)) == [1]
    ensures Content(PackedString(1, 2 << 59)) == [1, 0]
    ensures CompareWords(PackedString(64, 2 << 59), PackedString(1, 1 << 59)) == -1
    ensures CompareWords(PackedString(1, 1 << 59), PackedString(1, 2 << 59)) == 0
    ensures CompareWords(PackedString(64, 2 << 59), PackedString(1, 2 << 59)) == 1
  {
    var x, y, z := PackedString(64, 2 << 59), PackedString(1, 1 << 59), PackedString(1, 2 << 59);
    assert Content(x)[0] == GetN(x.lo, x.hi, 0) == 0;
    assert Content(x)[1] == GetN(x.lo, x.hi, 1) == 1;
    assert Content(y)[0] == GetN(y.lo, y.hi, 0) == 1;
    assert Content(z)[0] == GetN(z.lo, z.hi, 0) == 1;
    assert Content(z)[1] == GetN(z.lo, z.hi, 1) == 0;
  }
}
