/**
 * ps_to_lower and ps_to_upper (packed16/packed-string.c).  Both walk the
 * codes below the length region by region (lo, the split code 10, hi),
 * look each one up in a 64-entry case table and write it back, then
 * rewrite the metadata byte: to_lower clears the case-sensitive flag,
 * to_upper sets it.  The walk is one method per loop, over the code
 * sequence of the words.
 */
module Casing {
  import opened Helper
  import opened Packed
  import opened Encoding
  import opened CodeSeqs

  /** A case table: 64 entries, each a code. */
  ghost predicate IsTable(t: seq<bv8>) {
    |t| == 64 && forall k: bv8 | k < 64 :: t[k] < 64
  }

  /** c with its first n codes looked up in t (every code is below 64). */
  function MapPrefix(t: seq<bv8>, c: seq<bv8>, n: int): (m: seq<bv8>)
    requires |t| == 64
    ensures |m| == |c|
  {
    seq(|c|, j requires 0 <= j < |c| => if j < n && c[j] < 64 then t[c[j]] else c[j])
  }

  /**
   * Mapping one more code: the code read at n is still the original one,
   * and writing its looked-up value maps the first n + 1 codes.
   */
  lemma MapStep(t: seq<bv8>, c: seq<bv8>, n: int, sixbit: bv8)
    requires |t| == 64 && 0 <= n < |c|
    requires sixbit == MapPrefix(t, c, n)[n] && sixbit < 64
    ensures MapPrefix(t, c, n)[n := t[sixbit]] == MapPrefix(t, c, n + 1)
  {}

  /**
   * The loop over lo: codes 0..9 below len.  ps_get_lo reads the code,
   * the table maps it, ps_set_lo writes it back.
   */
  method MapLo(lo: bv64, hi: bv64, t: seq<bv8>, len: bv8) returns (rlo: bv64)
    requires IsTable(t)
    ensures Codes(rlo, hi) == MapPrefix(t, Codes(lo, hi), if len < 10 then len as int else 10)
  {
    ghost var c := Codes(lo, hi);
    rlo := lo;
    var i: bv8 := 0;
    while i < 10 && i < len
      invariant i <= 10 && i <= len
      invariant Codes(rlo, hi) == MapPrefix(t, c, i as int)
    {
      rlo := MapLoCode(rlo, hi, t, c, i);
      i := i + 1;
    }
  }

  /** One turn of the loop over lo. */
  method MapLoCode(lo: bv64, hi: bv64, t: seq<bv8>, ghost c: seq<bv8>, i: bv8) returns (rlo: bv64)
    requires IsTable(t) && i < 10 && |c| == 22
    requires Codes(lo, hi) == MapPrefix(t, c, i as int)
    ensures Codes(rlo, hi) == MapPrefix(t, c, i as int + 1)
  {
    var sixbit := ReadLo(PackedString(lo, hi), Codes(lo, hi), i);
    MapStep(t, c, i as int, sixbit);
    rlo := WriteLo(lo, hi, i, t[sixbit]);
  }

  /** Code 10, between the two loops: ps_get_mid, the table, ps_set_mid. */
  method MapMid(lo: bv64, hi: bv64, t: seq<bv8>, ghost c: seq<bv8>) returns (rlo: bv64, rhi: bv64)
    requires IsTable(t) && |c| == 22
    requires Codes(lo, hi) == MapPrefix(t, c, 10)
    ensures Codes(rlo, rhi) == MapPrefix(t, c, 11)
  {
    var sixbit := ReadMid(PackedString(lo, hi), Codes(lo, hi));
    MapStep(t, c, 10, sixbit);
    rlo, rhi := WriteMid(lo, hi, t[sixbit]);
  }

  /** The loop over hi: codes 11 .. 11 + count - 1. */
  method MapHi(lo: bv64, hi: bv64, t: seq<bv8>, ghost c: seq<bv8>, count: bv8) returns (rhi: bv64)
    requires IsTable(t) && |c| == 22 && count <= 10
    requires count > 0 ==> Codes(lo, hi) == MapPrefix(t, c, 11)
    ensures count == 0 ==> rhi == hi
    ensures count > 0 ==> Codes(lo, rhi) == MapPrefix(t, c, 11 + count as int)
  {
    rhi := hi;
    var i: bv8 := 0;
    while i < count
      invariant i <= count
      invariant count > 0 ==> Codes(lo, rhi) == MapPrefix(t, c, 11 + i as int)
      invariant count == 0 ==> rhi == hi
    {
      rhi := MapHiCode(lo, rhi, t, c, i);
      i := i + 1;
    }
  }

  /** One turn of the loop over hi. */
  method MapHiCode(lo: bv64, hi: bv64, t: seq<bv8>, ghost c: seq<bv8>, i: bv8) returns (rhi: bv64)
    requires IsTable(t) && i < 10 && |c| == 22
    requires Codes(lo, hi) == MapPrefix(t, c, 11 + i as int)
    ensures Codes(lo, rhi) == MapPrefix(t, c, 12 + i as int)
  {
    var sixbit := ReadHi(PackedString(lo, hi), Codes(lo, hi), i);
    MapStep(t, c, 11 + i as int, sixbit);
    rhi := WriteHi(lo, hi, i, t[sixbit]);
  }

  /**
   * The number of turns of the hi loop, as the C computes it: len - 11 in
   * a u8, which wraps to 245 .. 255 below 11 codes.
   */
  function HiLoopBoundAsWritten(len: bv8): bv8 {
    len - 11
  }

  /**
   * Below 11 codes the as-written bound lets the hi loop reach index 11,
   * where ps_get_hi shifts hi by 11 * 6 + 2 = 68 bits (undefined in C).
   */
  lemma HiLoopBoundWraps(len: bv8)
    requires len < 11
    ensures HiLoopBoundAsWritten(len) > 11
    ensures 11 * 6 + 2 >= 64
  {}

  /** The bound the hi loop evidently means: the codes past 10, none below 11 codes. */
  function HiLoopBound(len: bv8): (count: bv8)
    requires len <= 21
    ensures count <= 10
    ensures 11 + count as int == if len < 11 then 11 else len as int
  {
    if len > 11 then len - 11 else 0
  }

  /**
   * The shared body of ps_to_lower and ps_to_upper: the codes below the
   * length looked up in t, the metadata byte rewritten with flags.  The
   * hi loop runs HiLoopBound(len) times.
   */
  method MapCase(ps: PackedString, t: seq<bv8>, flags: bv8) returns (r: PackedString)
    requires IsTable(t) && Length(ps) <= 21 && flags < 8
    ensures Payload(r.lo, r.hi) == MapPrefix(t, Codes(ps.lo, ps.hi), Length(ps) as int)[..20]
    ensures Length(r) == Length(ps) && Flags(r) == flags
  {
    var len := Length(ps);
    ghost var c := Codes(ps.lo, ps.hi);
    var lo := MapLo(ps.lo, ps.hi, t, len);
    var hi := ps.hi;
    if len > 10 {
      lo, hi := MapMid(lo, hi, t, c);
    }
    hi := MapHi(lo, hi, t, c, HiLoopBound(len));
    r := WithMetadata(lo, hi, len, flags);
  }

  /** Each code of s lower-cased. */
  function LowerCodes(s: seq<bv8>): (r: seq<bv8>)
    ensures |r| == |s|
  {
    seq(|s|, j requires 0 <= j < |s| => LowerOf(s[j]))
  }

  /** Each code of s upper-cased. */
  function UpperCodes(s: seq<bv8>): (r: seq<bv8>)
    ensures |r| == |s|
  {
    seq(|s|, j requires 0 <= j < |s| => UpperOf(s[j]))
  }

  /**
   * ps_to_lower: the same length, the flags without case-sensitive, and
   * every code lower-cased; codes past the length are not touched, so a
   * clean value stays clean.  A length field of 22 or more (a sentinel)
   * makes the loops shift past the words and is excluded.
   */
  method ToLower(ps: PackedString) returns (r: PackedString)
    requires Length(ps) <= 21
    ensures Length(r) == Length(ps) && Flags(r) == Flags(ps) & !CaseSensitive
    ensures Valid(ps) ==> Valid(r) && Content(r) == LowerCodes(Content(ps))
    ensures Clean(ps) ==> Clean(r)
  {
    ToLowerTableSpec();
    r := MapCase(ps, ToLowerTable, Flags(ps) & !CaseSensitive);
    MappedContent(ps, ToLowerTable, r);
    if Valid(ps) {
      LowerTableCodes(Content(ps));
    }
  }

  /**
   * ps_to_upper: the same length, the flags with case-sensitive, and
   * every code upper-cased; a clean value stays clean.
   */
  method ToUpper(ps: PackedString) returns (r: PackedString)
    requires Length(ps) <= 21
    ensures Length(r) == Length(ps) && Flags(r) == Flags(ps) | CaseSensitive
    ensures Valid(ps) ==> Valid(r) && Content(r) == UpperCodes(Content(ps))
    ensures Clean(ps) ==> Clean(r)
  {
    ToUpperTableSpec();
    r := MapCase(ps, ToUpperTable, Flags(ps) | CaseSensitive);
    MappedContent(ps, ToUpperTable, r);
    if Valid(ps) {
      UpperTableCodes(Content(ps));
    }
  }

  /** What MapCase leaves: the content mapped, zeros kept past the length. */
  lemma MappedContent(ps: PackedString, t: seq<bv8>, r: PackedString)
    requires |t| == 64 && Length(ps) <= 21
    requires Payload(r.lo, r.hi) == MapPrefix(t, Codes(ps.lo, ps.hi), Length(ps) as int)[..20]
    requires Length(r) == Length(ps)
    ensures Valid(ps) ==> Valid(r) && Content(r) == MapPrefix(t, Content(ps), Length(ps) as int)
    ensures Clean(ps) ==> Clean(r)
  {
    ValidLength(ps);
    ValidLength(r);
    if Valid(ps) {
      ContentOfPayload(r);
      MapPrefixTake(t, Codes(ps.lo, ps.hi), Length(ps) as int);
    }
    MappedClean(ps, t, r);
  }

  lemma MappedClean(ps: PackedString, t: seq<bv8>, r: PackedString)
    requires |t| == 64 && Length(ps) <= 21
    requires Payload(r.lo, r.hi) == MapPrefix(t, Codes(ps.lo, ps.hi), Length(ps) as int)[..20]
    requires Length(r) == Length(ps)
    ensures Clean(ps) ==> Clean(r)
  {
    if Length(ps) <= 20 {
      CleanPayload(ps);
      CleanPayload(r);
      MapPrefixZeros(t, Codes(ps.lo, ps.hi), Length(ps) as int);
    }
  }

  lemma MapPrefixTake(t: seq<bv8>, c: seq<bv8>, n: int)
    requires |t| == 64 && 0 <= n <= 20 && |c| == 22
    ensures MapPrefix(t, c, n)[..20][..n] == MapPrefix(t, c[..n], n)
  {}

  /** Codes at or past n are not looked up, so zeros there stay. */
  lemma MapPrefixZeros(t: seq<bv8>, c: seq<bv8>, n: int)
    requires |t| == 64 && 0 <= n <= 20 && |c| == 22
    ensures ZeroFrom(c[..20], n) ==> ZeroFrom(MapPrefix(t, c, n)[..20], n)
  {}

  /** Looking every code up in the lower-case table lower-cases it. */
  lemma LowerTableCodes(s: seq<bv8>)
    ensures |ToLowerTable| == 64 && MapPrefix(ToLowerTable, s, |s|) == LowerCodes(s)
  {
    ToLowerTableSpec();
  }

  /** Looking every code up in the upper-case table upper-cases it. */
  lemma UpperTableCodes(s: seq<bv8>)
    ensures |ToUpperTable| == 64 && MapPrefix(ToUpperTable, s, |s|) == UpperCodes(s)
  {
    ToUpperTableSpec();
  }
}
