/**
 * The earlier variant at the repository root (packed-string.c and
 * packed-string.h).  It shares the layout of packed16: codes 0..9 in lo,
 * code 10 split over lo[60:63] and hi[0:1], codes 11..19 in hi, the
 * metadata byte `length << 3 | flags` in hi[56:63].  Its flag bit 1 is
 * STARTS_WITH_DIGIT (the first character is a digit) where packed16 has
 * CONTAINS_DIGIT, and its shifts are the unguarded 64-bit ps_shl/ps_shr.
 * Operations that do the same as in packed16 are not repeated here:
 * ps_sixbit_at is Access.At.  Where packed-string.h disagrees with the
 * .c (it names bit 1 CONTAINS_DIGIT and declares ps_unpack as i32), this
 * module follows the .c.
 */
module Legacy {
  import opened Encoding
  import opened Helper
  import opened HelperWrite
  import opened Packed
  import opened Packing
  import opened CodeSeqs
  import Slicing
  import Access

  /** PACKED_FLAG_STARTS_WITH_DIGIT: flag bit 1. */
  const StartsWithDigit: bv8 := 2

  /** ps_starts_with_digit: the STARTS_WITH_DIGIT bit of the flags. */
  predicate StartsWithDigitFlag(ps: PackedString) {
    Flags(ps) & StartsWithDigit != 0
  }

  // ---------------------------------------------------------------------
  // ps_pack

  predicate HasUpper(s: string) {
    exists i | 0 <= i < |s| :: IsUpper(s[i])
  }

  predicate HasSpecial(s: string) {
    exists i | 0 <= i < |s| :: IsSpecial(s[i])
  }

  predicate LeadingDigit(s: string) {
    |s| > 0 && IsDigit(s[0])
  }

  /**
   * The flags this ps_pack records: CASE_SENSITIVE for an upper-case
   * letter anywhere, STARTS_WITH_DIGIT for a digit in front,
   * CONTAINS_SPECIAL for '_' or '$' anywhere.
   */
  function PackFlags(s: string): bv8 {
    (if HasUpper(s) then CaseSensitive else 0) |
    (if LeadingDigit(s) then StartsWithDigit else 0) |
    (if HasSpecial(s) then ContainsSpecial else 0)
  }

  /** Each flag bit says exactly one thing about the string. */
  lemma PackFlagsSpec(s: string)
    ensures PackFlags(s) < 8
    ensures PackFlags(s) & CaseSensitive != 0 <==> HasUpper(s)
    ensures PackFlags(s) & StartsWithDigit != 0 <==> LeadingDigit(s)
    ensures PackFlags(s) & ContainsSpecial != 0 <==> HasSpecial(s)
  {
    FlagUnion(HasUpper(s), LeadingDigit(s), HasSpecial(s));
  }

  lemma FlagUnion(u: bool, d: bool, p: bool)
    ensures var f := (if u then CaseSensitive else 0) | (if d then StartsWithDigit else 0) | (if p then ContainsSpecial else 0);
      f < 8 && (f & 1 != 0 <==> u) && (f & 2 != 0 <==> d) && (f & 4 != 0 <==> p)
  {}

  /**
   * The two variants agree on CASE_SENSITIVE and CONTAINS_SPECIAL; only
   * bit 1 differs in meaning.
   */
  lemma PackFlagsAgreeWithCharFlags(s: string)
    ensures PackFlags(s) & CaseSensitive == CharFlags(s) & CaseSensitive
    ensures PackFlags(s) & ContainsSpecial == CharFlags(s) & ContainsSpecial
  {
    PackFlagsSpec(s);
    CharFlagsSpec(s);
    BitOne(PackFlags(s), CharFlags(s), CaseSensitive);
    BitOne(PackFlags(s), CharFlags(s), ContainsSpecial);
  }

  lemma BitOne(f: bv8, g: bv8, b: bv8)
    requires b == 1 || b == 4
    requires (f & b != 0) == (g & b != 0)
    ensures f & b == g & b
  {}

  /** What ps_pack's loop keeps: the first `length` characters are coded and classified. */
  ghost predicate PackLoop(s: string, lo: bv64, hi: bv64, length: bv8, hasUpper: bool, hasSpecial: bool) {
    length <= 20 && length as int <= |s| &&
    (forall j | 0 <= j < length as int :: InAlphabet(s[j])) &&
    (hasUpper <==> HasUpper(s[..length])) &&
    (hasSpecial <==> HasSpecial(s[..length])) &&
    PrefixHeld(lo, hi, Encode(s), length)
  }

  /**
   * ps_pack: INVALID for NULL, for a character outside the alphabet and
   * for more than 20 characters; otherwise the clean value holding the
   * string's codes under PackFlags.  Each code goes in through
   * ps_set_n_sixbit.
   */
  method Pack(str: Option<string>) returns (r: PackedString)
    requires str.Some? ==> IsCString(str.value)
    ensures r == InvalidString <==> !Packable(str)
    ensures Packable(str) ==> Represents(r, Encode(str.value), PackFlags(str.value))
  {
    if str.None? {
      return InvalidString;
    }
    var s := str.value;
    var lo: bv64, hi: bv64 := 0, 0;
    var length: bv8 := 0;
    var hasUpper, hasSpecial := false, false;
    PackLoopStart(s);
    while length as int < |s| && length < MaxLen
      invariant PackLoop(s, lo, hi, length, hasUpper, hasSpecial)
      decreases 20 - length as int
    {
      var c := s[length];
      ghost var u, p := hasUpper, hasSpecial;
      if IsUpper(c) {
        hasUpper := true;
      }
      if IsSpecial(c) {
        hasSpecial := true;
      }
      var sixbit := CharToSixbit(c);
      if sixbit == 0xFF {
        NotPackable(s, length as int);
        return InvalidString;
      }
      var lo', hi' := SetNSixbit(lo, hi, length, sixbit);
      PackLoopNext(s, lo, hi, lo', hi', length, u, p);
      lo, hi, length := lo', hi', length + 1;
    }
    if length as int < |s| {
      NotPackable(s, -1);
      return InvalidString;
    }
    var startDigit := length > 0 && IsDigit(s[0]);
    var flags := SetFlags(hasUpper, startDigit, hasSpecial);
    var hi' := InsertMetadata(hi, PackMetadata(length, flags));
    r := PackedString(lo, hi');
    PackLoopResult(s, lo, hi, r, length, hasUpper, hasSpecial, flags);
  }

  /** The flag assignments at the end of ps_pack. */
  method SetFlags(hasUpper: bool, startDigit: bool, hasSpecial: bool) returns (flags: bv8)
    ensures flags == (if hasUpper then CaseSensitive else 0) |
      (if startDigit then StartsWithDigit else 0) | (if hasSpecial then ContainsSpecial else 0)
  {
    flags := 0;
    if hasUpper {
      flags := flags | CaseSensitive;
    }
    if startDigit {
      flags := flags | StartsWithDigit;
    }
    if hasSpecial {
      flags := flags | ContainsSpecial;
    }
  }

  lemma PackLoopStart(s: string)
    ensures PackLoop(s, 0, 0, 0, false, false)
  {}

  /** One character set through ps_set_n_sixbit extends the coded prefix. */
  lemma PackLoopNext(s: string, lo: bv64, hi: bv64, rlo: bv64, rhi: bv64, length: bv8, hasUpper: bool, hasSpecial: bool)
    requires PackLoop(s, lo, hi, length, hasUpper, hasSpecial)
    requires length < 20 && (length as int) < |s| && InAlphabet(s[length])
    requires GetN(rlo, rhi, length) == CharToSixbit(s[length])
    requires forall m: bv8 | m < 22 && m != length :: GetN(rlo, rhi, m) == GetN(lo, hi, m)
    ensures PackLoop(s, rlo, rhi, length + 1, hasUpper || IsUpper(s[length]), hasSpecial || IsSpecial(s[length]))
  {
    var n := length as int;
    assert (length + 1) as int == n + 1;
    assert s[..n + 1] == s[..n] + [s[n]];
    ClassesSnoc(s[..n], s[n]);
    HeldNext(lo, hi, rlo, rhi, Encode(s), length);
  }

  lemma ClassesSnoc(t: string, c: char)
    ensures HasUpper(t + [c]) <==> HasUpper(t) || IsUpper(c)
    ensures HasSpecial(t + [c]) <==> HasSpecial(t) || IsSpecial(c)
  {
    assert (t + [c])[|t|] == c;
    assert forall i | 0 <= i < |t| :: (t + [c])[i] == t[i];
  }

  /** Setting code n to the next entry of c, and nothing else, holds one more entry. */
  lemma HeldNext(lo: bv64, hi: bv64, rlo: bv64, rhi: bv64, c: seq<bv8>, n: bv8)
    requires n < 20 && (n as int) < |c| && PrefixHeld(lo, hi, c, n)
    requires GetN(rlo, rhi, n) == c[n]
    requires forall m: bv8 | m < 22 && m != n :: GetN(rlo, rhi, m) == GetN(lo, hi, m)
    ensures PrefixHeld(rlo, rhi, c, n + 1)
  {
    forall i: bv8 | i < 22 ensures GetN(rlo, rhi, i) == PrefixCode(c, n + 1, i) {
      if i != n {
        assert GetN(lo, hi, i) == PrefixCode(c, n, i);
      }
    }
  }

  /** The metadata byte over the coded characters gives the clean value. */
  lemma PackLoopResult(s: string, lo: bv64, hi: bv64, r: PackedString, length: bv8,
                       hasUpper: bool, hasSpecial: bool, flags: bv8)
    requires PackLoop(s, lo, hi, length, hasUpper, hasSpecial) && length as int == |s|
    requires flags == (if hasUpper then CaseSensitive else 0) |
      (if length > 0 && IsDigit(s[0]) then StartsWithDigit else 0) |
      (if hasSpecial then ContainsSpecial else 0)
    requires r.lo == lo && ExtractMetadata(r.hi) == PackMetadata(length, flags)
    requires r.hi & 0x00FF_FFFF_FFFF_FFFF == hi & 0x00FF_FFFF_FFFF_FFFF
    ensures Packable(Some(s)) && r != InvalidString
    ensures Represents(r, Encode(s), PackFlags(s))
  {
    PackLoopFlags(s, lo, hi, length, hasUpper, hasSpecial, flags);
    PackFlagsSpec(s);
    MetadataFields(r, length, flags);
    Sentinels();
    PackResultCodes(lo, hi, r, Encode(s), length);
  }

  /** The flags the loop collected over the whole string are PackFlags. */
  lemma PackLoopFlags(s: string, lo: bv64, hi: bv64, length: bv8, hasUpper: bool, hasSpecial: bool, flags: bv8)
    requires PackLoop(s, lo, hi, length, hasUpper, hasSpecial) && length as int == |s|
    requires flags == (if hasUpper then CaseSensitive else 0) |
      (if length > 0 && IsDigit(s[0]) then StartsWithDigit else 0) |
      (if hasSpecial then ContainsSpecial else 0)
    ensures flags == PackFlags(s) && Packable(Some(s))
  {
    assert s[..length] == s;
  }

  /** Unpacking what ps_pack built gives the string back. */
  lemma PackThenUnpack(ps: PackedString, s: string)
    requires Packable(Some(s)) && Represents(ps, Encode(s), PackFlags(s))
    ensures Valid(ps) && Decode(Content(ps)) == s
    ensures StartsWithDigitFlag(ps) <==> LeadingDigit(s)
  {
    PackUnpackRoundTrip(ps, s, PackFlags(s));
    PackFlagsSpec(s);
  }

  // ---------------------------------------------------------------------
  // ps_pack_ex

  /**
   * What this ps_pack_ex accepts: a non-NULL string with at least
   * `length <= 20` characters, each of them in the alphabet.  Unlike
   * packed16 it accepts digits, '_' and '$' whatever the flags say.
   */
  predicate ExAccepts(str: Option<string>, length: bv8) {
    str.Some? && length <= 20 && length as int <= |str.value| && AllInAlphabet(str.value[..length])
  }

  /** The codes ps_pack_ex stores: those of the first `length` characters, folded. */
  function ExCodes(s: string, length: bv8, flags: bv8): (c: seq<bv8>)
    requires length as int <= |s|
    ensures |c| == length as int
  {
    Encode(FoldEx(s[..length], flags))
  }

  /**
   * ps_pack_ex: INVALID for NULL, for length over 20 and for a character
   * outside the alphabet (a NUL before `length` included); otherwise the
   * first `length` characters, folded to lower case when CASE_SENSITIVE is
   * absent, under the metadata byte `length << 3 | flags` with the
   * declared flags stored verbatim, whatever their width.
   */
  method PackEx(str: Option<string>, length: bv8, flags: bv8) returns (r: PackedString)
    requires str.Some? ==> IsCString(str.value)
    ensures !ExAccepts(str, length) ==> r == InvalidString
    ensures ExAccepts(str, length) ==>
      ExtractMetadata(r.hi) == PackMetadata(length, flags) &&
      forall i: bv8 | i < 20 :: GetN(r.lo, r.hi, i) == PrefixCode(ExCodes(str.value, length, flags), length, i)
    ensures ExAccepts(str, length) && flags < 8 ==>
      r != InvalidString && Represents(r, ExCodes(str.value, length, flags), flags)
  {
    if str.None? || length > MaxLen {
      return InvalidString;
    }
    var s := str.value;
    var lo: bv64, hi: bv64 := 0, 0;
    var i: bv8 := 0;
    while i < length
      invariant ExLoop(s, flags, length, lo, hi, i)
    {
      var c := ExChar(Packing.CharAt(s, i), flags);
      var sixbit := CharToSixbit(c);
      if sixbit == 0xFF {
        ExRejects(s, flags, length, i);
        return InvalidString;
      }
      var lo', hi' := SetNSixbit(lo, hi, i, sixbit);
      ExLoopNext(s, flags, length, lo, hi, lo', hi', i);
      lo, hi, i := lo', hi', i + 1;
    }
    var hi' := InsertMetadata(hi, PackMetadata(length, flags));
    r := PackedString(lo, hi');
    ExLoopResult(s, flags, length, lo, hi, r);
  }

  /** What ps_pack_ex's loop keeps: the first i characters are accepted and coded. */
  ghost predicate ExLoop(s: string, flags: bv8, length: bv8, lo: bv64, hi: bv64, i: bv8) {
    length <= 20 && i <= length && i as int <= |s| &&
    (forall j | 0 <= j < i as int :: InAlphabet(s[j])) &&
    PrefixHeld(lo, hi, Encode(FoldEx(s, flags)), i)
  }

  /** Folding neither adds nor removes a character from the alphabet. */
  lemma ExCharAlphabet(c: char, flags: bv8)
    ensures InAlphabet(ExChar(c, flags)) <==> InAlphabet(c)
  {}

  lemma ExRejects(s: string, flags: bv8, length: bv8, i: bv8)
    requires ExLoop(s, flags, length, 0, 0, 0) && i < length
    requires CharToSixbit(ExChar(Packing.CharAt(s, i), flags)) == 0xFF
    ensures !ExAccepts(Some(s), length)
  {
    ExCharAlphabet(Packing.CharAt(s, i), flags);
    if i as int < |s| && length as int <= |s| {
      assert s[..length][i] == s[i];
    }
  }

  lemma ExLoopNext(s: string, flags: bv8, length: bv8, lo: bv64, hi: bv64, rlo: bv64, rhi: bv64, i: bv8)
    requires ExLoop(s, flags, length, lo, hi, i) && i < length
    requires CharToSixbit(ExChar(Packing.CharAt(s, i), flags)) != 0xFF
    requires GetN(rlo, rhi, i) == CharToSixbit(ExChar(Packing.CharAt(s, i), flags))
    requires forall m: bv8 | m < 22 && m != i :: GetN(rlo, rhi, m) == GetN(lo, hi, m)
    ensures ExLoop(s, flags, length, rlo, rhi, i + 1)
  {
    ExCharAlphabet(Packing.CharAt(s, i), flags);
    assert (i + 1) as int == i as int + 1;
    HeldNext(lo, hi, rlo, rhi, Encode(FoldEx(s, flags)), i);
  }

  lemma ExLoopResult(s: string, flags: bv8, length: bv8, lo: bv64, hi: bv64, r: PackedString)
    requires ExLoop(s, flags, length, lo, hi, length)
    requires r.lo == lo && ExtractMetadata(r.hi) == PackMetadata(length, flags)
    requires r.hi & 0x00FF_FFFF_FFFF_FFFF == hi & 0x00FF_FFFF_FFFF_FFFF
    ensures ExAccepts(Some(s), length)
    ensures forall i: bv8 | i < 20 :: GetN(r.lo, r.hi, i) == PrefixCode(ExCodes(s, length, flags), length, i)
    ensures flags < 8 ==> r != InvalidString && Represents(r, ExCodes(s, length, flags), flags)
  {
    ExLoopCodes(s, flags, length, lo, hi, r);
    if flags < 8 {
      MetadataFields(r, length, flags);
      Sentinels();
    }
  }

  lemma ExLoopCodes(s: string, flags: bv8, length: bv8, lo: bv64, hi: bv64, r: PackedString)
    requires ExLoop(s, flags, length, lo, hi, length)
    requires r.lo == lo && r.hi & 0x00FF_FFFF_FFFF_FFFF == hi & 0x00FF_FFFF_FFFF_FFFF
    ensures ExAccepts(Some(s), length)
    ensures forall i: bv8 | i < 20 :: GetN(r.lo, r.hi, i) == PrefixCode(ExCodes(s, length, flags), length, i)
  {
    var c := Encode(FoldEx(s, flags));
    ExCodesPrefix(s, flags, length);
    PrefixTake(lo, hi, c, length);
    PackResultCodes(lo, hi, r, c[..length], length);
  }

  lemma ExCodesPrefix(s: string, flags: bv8, length: bv8)
    requires length as int <= |s|
    ensures ExCodes(s, length, flags) == Encode(FoldEx(s, flags))[..length]
  {
    var a, b := ExCodes(s, length, flags), Encode(FoldEx(s, flags))[..length];
    forall j | 0 <= j < length as int ensures a[j] == b[j] {
      assert s[..length][j] == s[j];
    }
  }

  /**
   * Repacking a string with the flags ps_pack gave it folds nothing: a
   * string with an upper-case letter carries CASE_SENSITIVE.
   */
  lemma RepackKeepsString(s: string)
    ensures FoldEx(s, PackFlags(s)) == s
  {
    PackFlagsSpec(s);
    forall i | 0 <= i < |s| ensures ExChar(s[i], PackFlags(s)) == s[i] {
      if IsUpper(s[i]) {
        assert HasUpper(s);
      }
    }
  }

  /** So ps_pack_ex of a whole string under ps_pack's flags builds ps_pack's value. */
  lemma PackExAgreesWithPack(a: PackedString, b: PackedString, s: string)
    requires Packable(Some(s))
    requires Represents(a, Encode(s), PackFlags(s))
    requires Represents(b, ExCodes(s, |s| as bv8, PackFlags(s)), PackFlags(s))
    ensures a == b
  {
    assert s[..|s| as bv8] == s;
    RepackKeepsString(s);
    RepresentsUnique(a, b, Encode(s), PackFlags(s));
  }

  // ---------------------------------------------------------------------
  // ps_unpack

  /**
   * ps_unpack: false for a NULL buffer or a value whose length field is
   * over 20, with nothing written; otherwise the decoded codes and a NUL
   * are written and the result is true.  The loop is packed16's, which
   * returns the length instead.
   */
  method Unpack(ps: PackedString, buffer: array?<char>) returns (ok: bool)
    requires buffer != null && Valid(ps) ==> buffer.Length > Length(ps) as int
    modifies buffer
    ensures ok <==> buffer != null && Valid(ps)
    ensures buffer != null && !ok ==> buffer[..] == old(buffer[..])
    ensures ok ==> Unpacked(buffer[..], old(buffer[..]), Decode(Content(ps)))
  {
    var n := Packing.Unpack(ps, buffer);
    ok := n != -1;
  }

  // ---------------------------------------------------------------------
  // ps_unpack_ex

  /**
   * ps_unpack_ex: false for a NULL buffer, a requested length over 20 or
   * a value whose length field is over 20, with nothing written;
   * otherwise the symbols of the first `length` codes are written
   * whatever the value's own length, then a NUL.  The flags argument is
   * not used: no case is restored.
   */
  method UnpackEx(ps: PackedString, buffer: array?<char>, length: bv8, flags: bv8) returns (ok: bool)
    requires buffer != null && length <= 20 && Valid(ps) ==> buffer.Length > length as int
    modifies buffer
    ensures ok <==> buffer != null && length <= 20 && Valid(ps)
    ensures buffer != null && !ok ==> buffer[..] == old(buffer[..])
    ensures ok ==> Unpacked(buffer[..], old(buffer[..]), Decode(Codes(ps.lo, ps.hi)[..length]))
  {
    if buffer == null || length > 20 || !Valid(ps) {
      return false;
    }
    WriteCodes(ps.lo, ps.hi, buffer, length);
    return true;
  }

  /** The loop of ps_unpack_ex: the symbols of codes 0 .. length-1, then a NUL. */
  method WriteCodes(lo: bv64, hi: bv64, buffer: array<char>, length: bv8)
    requires length <= 20 && buffer.Length > length as int
    modifies buffer
    ensures Unpacked(buffer[..], old(buffer[..]), Decode(Codes(lo, hi)[..length]))
  {
    ghost var text := Decode(Codes(lo, hi)[..length]);
    forall i: bv8 | i < length
      ensures text[i] == SixbitToChar(GetN(lo, hi, i))
    {
      DecodedAt(lo, hi, length, i);
    }
    WriteDecoded(lo, hi, buffer, length, text);
  }

  /** The loop of ps_unpack_ex, writing the symbols of text, which are those of codes 0 .. length - 1. */
  method WriteDecoded(lo: bv64, hi: bv64, buffer: array<char>, length: bv8, ghost text: string)
    requires length <= 20 && buffer.Length > length as int && |text| == length as int
    requires forall i: bv8 | i < length :: text[i] == SixbitToChar(GetN(lo, hi, i))
    modifies buffer
    ensures Unpacked(buffer[..], old(buffer[..]), text)
  {
    var i: bv8 := 0;
    while i < length
      invariant i <= length && Written(buffer[..], old(buffer[..]), text, i as int)
    {
      ghost var b := buffer[..];
      buffer[i] := SixbitToChar(GetN(lo, hi, i));
      assert buffer[..] == b[i as int := SixbitToChar(GetN(lo, hi, i))];
      WrittenNext(b, old(buffer[..]), text, i as int, SixbitToChar(GetN(lo, hi, i)));
      assert (i + 1) as int == i as int + 1;
      i := i + 1;
    }
    ghost var b := buffer[..];
    buffer[length] := '\0';
    assert buffer[..] == b[length as int := '\0'];
    WrittenDone(b, old(buffer[..]), text);
  }

  /** The first k symbols of text are written over before, the rest untouched. */
  ghost predicate Written(b: seq<char>, before: seq<char>, text: string, k: int) {
    0 <= k <= |text| < |b| == |before| && b[..k] == text[..k] && b[k..] == before[k..]
  }

  lemma WrittenNext(b: seq<char>, before: seq<char>, text: string, i: int, x: char)
    requires Written(b, before, text, i) && i < |text| && text[i] == x
    ensures Written(b[i := x], before, text, i + 1)
  {
    WriteStep(b, before, text, i, x);
  }

  /** Symbol i of the decoded prefix is the decoded code i. */
  lemma DecodedAt(lo: bv64, hi: bv64, length: bv8, i: bv8)
    requires i < length <= 20
    ensures Decode(Codes(lo, hi)[..length])[i] == SixbitToChar(GetN(lo, hi, i))
  {
    assert Codes(lo, hi)[..length][i] == Codes(lo, hi)[i] == GetN(lo, hi, i);
  }

  lemma WrittenDone(b: seq<char>, before: seq<char>, text: string)
    requires Written(b, before, text, |text|)
    ensures Unpacked(b[|text| := '\0'], before, text)
  {
    var n := |text|;
    assert b[n := '\0'][..n] == b[..n];
    assert b[n := '\0'][n + 1..] == b[n + 1..] == b[n..][1..];
  }

  // ---------------------------------------------------------------------
  // ps_char_at, ps_first_char, ps_last_char

  /** ps_char_at: NUL at or past the length, otherwise the code's symbol. */
  function CharAt(ps: PackedString, index: bv8): (c: char)
    requires index < Length(ps) ==> index < 22
  {
    if index >= Length(ps) then '\0' else SixbitToChar(GetN(ps.lo, ps.hi, index))
  }

  /** ps_first_char: NUL for an empty value, otherwise the symbol of lo's low six bits. */
  function FirstChar(ps: PackedString): (c: char) {
    if Length(ps) == 0 then '\0' else SixbitToChar((ps.lo & 0x3F) as bv8)
  }

  /** ps_last_char: NUL for an empty value, otherwise the symbol of the last code. */
  function LastChar(ps: PackedString): (c: char)
    requires Length(ps) <= 22
  {
    if Length(ps) == 0 then '\0' else SixbitToChar(GetN(ps.lo, ps.hi, Length(ps) - 1))
  }

  /**
   * On a valid value the three accessors read its text: the character at
   * the index, the first and the last, and NUL past the end or on an
   * empty value.
   */
  lemma CharAccessorsReadText(ps: PackedString, index: bv8)
    requires Valid(ps)
    ensures |Decode(Content(ps))| == Length(ps) as int
    ensures CharAt(ps, index) == if index < Length(ps) then Decode(Content(ps))[index] else '\0'
    ensures FirstChar(ps) == if Length(ps) == 0 then '\0' else Decode(Content(ps))[0]
    ensures LastChar(ps) == if Length(ps) == 0 then '\0' else Decode(Content(ps))[Length(ps) - 1]
  {
    ValidLength(ps);
    Access.AccessorsReadContent(ps, index);
  }

  /** Reading back a packed string character by character gives the string. */
  lemma CharAtOfPacked(ps: PackedString, s: string, f: bv8, index: bv8)
    requires AllInAlphabet(s) && Represents(ps, Encode(s), f)
    ensures CharAt(ps, index) == if (index as int) < |s| then s[index] else '\0'
  {
    PackUnpackRoundTrip(ps, s, f);
    CharAccessorsReadText(ps, index);
  }

  // ---------------------------------------------------------------------
  // ps_has_digit

  /** Some code at index from..to-1 is a digit. */
  ghost predicate DigitIn(codes: seq<bv8>, from: int, to: int)
    requires 0 <= from && to <= |codes|
  {
    exists j | from <= j < to :: IsDigitCode(codes[j])
  }

  /**
   * What ps_has_digit answers: the STARTS_WITH_DIGIT flag, or a digit
   * among codes 1..length-1.  Code 0 is never read; the flag stands for it.
   */
  ghost predicate HasDigitAnswer(ps: PackedString)
    requires Length(ps) <= 22
  {
    StartsWithDigitFlag(ps) || DigitIn(Codes(ps.lo, ps.hi), 1, Length(ps) as int)
  }

  /**
   * ps_has_digit.  A length field over 22 makes the C shift hi by 64 or
   * more.  The digit mask the C builds first is never used.
   */
  method HasDigit(ps: PackedString) returns (r: bool)
    requires Length(ps) <= 22
    ensures r <==> HasDigitAnswer(ps)
  {
    if StartsWithDigitFlag(ps) {
      return true;
    }
    r := ScanDigits(ps, 1);
  }

  /**
   * The three loops of ps_has_digit from code `from` on: codes from..9 in
   * lo, code 10 across the words, codes 11.. in hi, each up to the length.
   */
  method ScanDigits(ps: PackedString, from: bv8) returns (r: bool)
    requires from <= 1 && Length(ps) <= 22
    ensures r <==> DigitIn(Codes(ps.lo, ps.hi), from as int, Length(ps) as int)
  {
    ghost var codes := Codes(ps.lo, ps.hi);
    var len := Length(ps);
    r := ScanLoDigits(ps, codes, from, len);
    if r || len <= 10 {
      return;
    }
    var char10 := ReadMid(ps, codes);
    if char10 < 10 {
      DigitFound(codes, from as int, 10, len as int);
      return true;
    }
    NoDigitStep(codes, from as int, 10);
    r := ScanHiDigits(ps, codes, from, len);
  }

  /** ps_has_digit's first loop: codes from..9 below the length, read from lo. */
  method ScanLoDigits(ps: PackedString, ghost codes: seq<bv8>, from: bv8, len: bv8) returns (r: bool)
    requires codes == Codes(ps.lo, ps.hi) && from <= 1 && len <= 22
    ensures r ==> DigitIn(codes, from as int, len as int)
    ensures !r ==> !DigitIn(codes, from as int, if len < 10 then len as int else 10)
  {
    var i := from;
    while i < len && i < 10
      invariant NoDigitYet(codes, from, i, if from < len then len else from, 10)
      decreases 10 - i as int
    {
      var sixbit := ReadLo(ps, codes, i);
      r := DigitAt(codes, from, i, len, sixbit);
      if r {
        return;
      }
      i := i + 1;
    }
    NoDigitUpTo(codes, from as int, i as int, if len < 10 then len as int else 10);
    return false;
  }

  /** No digit among codes from..i-1, and i has not passed the bounds. */
  ghost predicate NoDigitYet(codes: seq<bv8>, from: bv8, i: bv8, len: bv8, end: bv8) {
    |codes| == 22 && from <= i && i <= len && i <= end && end <= 22 &&
    !DigitIn(codes, from as int, i as int)
  }

  /** One test of ps_has_digit's loops: code i, read as sixbit, is a digit or the scan goes on. */
  method DigitAt(ghost codes: seq<bv8>, from: bv8, i: bv8, len: bv8, sixbit: bv8) returns (r: bool)
    requires |codes| == 22 && from <= i < len <= 22 && sixbit == codes[i]
    requires !DigitIn(codes, from as int, i as int)
    ensures r ==> DigitIn(codes, from as int, len as int)
    ensures !r ==> !DigitIn(codes, from as int, i as int + 1)
  {
    r := sixbit < 10;
    if r {
      DigitFound(codes, from as int, i as int, len as int);
    } else {
      NoDigitStep(codes, from as int, i as int);
    }
  }

  /** ps_has_digit's last loop: codes 11..length-1, read from hi. */
  method ScanHiDigits(ps: PackedString, ghost codes: seq<bv8>, from: bv8, len: bv8) returns (r: bool)
    requires codes == Codes(ps.lo, ps.hi) && from <= 1 && 10 < len <= 22
    requires !DigitIn(codes, from as int, 11)
    ensures r <==> DigitIn(codes, from as int, len as int)
  {
    var i: bv8 := 11;
    while i < len
      invariant NoDigitYet(codes, from, i, len, 22)
    {
      var pos := i - 11;
      var sixbit := ReadHi(ps, codes, pos);
      r := DigitAt(codes, from, i, len, sixbit);
      if r {
        return;
      }
      i := i + 1;
    }
    return false;
  }

  lemma DigitFound(codes: seq<bv8>, from: int, i: int, to: int)
    requires 0 <= from <= i < to <= |codes| && IsDigitCode(codes[i])
    ensures DigitIn(codes, from, to)
  {}

  lemma NoDigitStep(codes: seq<bv8>, from: int, i: int)
    requires 0 <= from && 0 <= i < |codes| && !DigitIn(codes, from, i) && !IsDigitCode(codes[i])
    ensures !DigitIn(codes, from, i + 1)
  {}

  lemma NoDigitUpTo(codes: seq<bv8>, from: int, i: int, to: int)
    requires 0 <= from && 0 <= to <= i <= |codes| && !DigitIn(codes, from, i)
    ensures !DigitIn(codes, from, to)
  {}

  /**
   * On a value ps_pack built, ps_has_digit is exact: the flag stands for
   * the first character and the loops read the rest.
   */
  lemma HasDigitOfPacked(ps: PackedString, s: string)
    requires Packable(Some(s)) && Represents(ps, Encode(s), PackFlags(s))
    ensures Length(ps) <= 20
    ensures HasDigitAnswer(ps) <==> exists i | 0 <= i < |s| :: IsDigit(s[i])
  {
    PackFlagsSpec(s);
    var codes := Codes(ps.lo, ps.hi);
    forall i | 0 <= i < |s| ensures codes[i] == Encode(s)[i] && (IsDigitCode(codes[i]) <==> IsDigit(s[i])) {
      ByteIndex(i);
      CodeClasses(s[i]);
    }
  }

  /**
   * ps_has_digit reading every code, code 0 included, instead of trusting
   * the flag for it.
   */
  method HasDigitByCode(ps: PackedString) returns (r: bool)
    requires Length(ps) <= 22
    ensures r <==> DigitIn(Codes(ps.lo, ps.hi), 0, Length(ps) as int)
  {
    r := ScanDigits(ps, 0);
  }

  /** Reading every code finds a digit exactly when the text has one. */
  lemma DigitInText(ps: PackedString)
    requires Valid(ps)
    ensures Length(ps) <= 20
    ensures DigitIn(Codes(ps.lo, ps.hi), 0, Length(ps) as int) <==>
      exists i | 0 <= i < Length(ps) as int :: IsDigit(Decode(Content(ps))[i])
  {
    ValidLength(ps);
    var codes := Codes(ps.lo, ps.hi);
    forall i | 0 <= i < Length(ps) as int ensures IsDigitCode(codes[i]) <==> IsDigit(Decode(Content(ps))[i]) {
      ByteIndex(i);
      assert Decode(Content(ps))[i] == SixbitToChar(codes[i]);
      SixbitRoundTrip(codes[i]);
      CodeClasses(SixbitToChar(codes[i]));
    }
  }

  // ---------------------------------------------------------------------
  // ps_validate

  /** Codes length..9 are zero and so are the four bits of code 10 held in lo. */
  ghost predicate LoTailClear(ps: PackedString)
    requires Length(ps) <= 10
  {
    LoZeroFrom(ps.lo, ps.hi, Length(ps))
  }

  /** Codes from..9 of the words lo, hi are zero and so are the four bits of code 10 in lo. */
  ghost predicate LoZeroFrom(lo: bv64, hi: bv64, from: bv8) {
    (forall i: bv8 | from <= i < 10 :: GetN(lo, hi, i) == 0) &&
    GetN(lo, hi, 10) & 0xF == 0
  }

  /** Codes length..19 are zero. */
  ghost predicate HiTailClear(ps: PackedString)
    requires Length(ps) <= 20
  {
    ZeroFrom(ps.lo, ps.hi, Length(ps))
  }

  /** Codes from..19 of the words lo, hi are zero. */
  ghost predicate ZeroFrom(lo: bv64, hi: bv64, from: bv8) {
    forall i: bv8 | from <= i < 20 :: GetN(lo, hi, i) == 0
  }

  /**
   * What ps_validate accepts: a length of at most 20 and, past the length,
   * zero bits in lo when the length is at most 10 (hi is not looked at),
   * zero codes in hi's payload otherwise.
   */
  ghost predicate ValidateAccepts(ps: PackedString) {
    Length(ps) <= 20 &&
    (Length(ps) <= 10 ==> LoTailClear(ps)) &&
    (Length(ps) > 10 ==> HiTailClear(ps))
  }

  /**
   * ps_validate.  Its character loop cannot fail: every code has six bits,
   * so ps_sixbit_at never returns more than 63 below the length.
   */
  method Validate(ps: PackedString) returns (ok: bool)
    ensures ok <==> ValidateAccepts(ps)
  {
    var length := Length(ps);
    if length > MaxLen {
      return false;
    }
    if length <= 10 {
      var clear := LoClear(ps, length);
      if !clear {
        return false;
      }
    }
    if length > 10 {
      var clear := HiClear(ps.lo, ps.hi, length);
      if !clear {
        return false;
      }
    }
    ok := CodesAtMost(ps, 0, 63);
  }

  /** ps_validate's test on lo: `(lo & ~lo_mask) == 0`. */
  method LoClear(ps: PackedString, length: bv8) returns (clear: bool)
    requires length == Length(ps) && length <= 10
    ensures clear <==> LoTailClear(ps)
  {
    var loMask := LoMask(length);
    LoCheck(ps.lo, ps.hi, length);
    clear := ps.lo & !loMask == 0;
  }

  /** ps_validate's test on hi: `(hi & ~hi_clear_mask & 0x00FFFFFFFFFFFFFF) == 0`. */
  method HiClear(lo: bv64, hi: bv64, length: bv8) returns (clear: bool)
    requires 11 <= length <= 20
    ensures clear <==> ZeroFrom(lo, hi, length)
  {
    var hiChars := length - 11;
    var hiClearMask := HiClearMask(hiChars);
    HiCheck(lo, hi, length);
    clear := hi & !hiClearMask & 0x00FF_FFFF_FFFF_FFFF == 0;
  }

  /**
   * The per-character loops of ps_validate and ps_is_valid_identifier:
   * stop at the first code from index `from` on, below the length, that
   * is over `bound`.  No code is, so the loop always runs to the end.
   */
  method CodesAtMost(ps: PackedString, from: bv8, bound: bv8) returns (ok: bool)
    requires Length(ps) <= 22 && bound >= 63
    ensures ok
  {
    var length := Length(ps);
    var i := from;
    while i < length && Access.At(ps, i) <= bound
      invariant from <= i && (i > from ==> i <= length)
      decreases length as int - i as int
    {
      i := i + 1;
    }
    ok := i >= length;
  }

  /** `(1 << (length * 6)) - 1`: the bits of the first `length` codes. */
  function LoMask(length: bv8): bv64
    requires length <= 10
  {
    ((1 as bv64) << (length * 6)) - 1
  }

  /** `((1 << (hiChars * 6)) - 1) << 2 | 3`: code 10's two bits and codes 11..10+hiChars. */
  function HiClearMask(hiChars: bv8): bv64
    requires hiChars <= 9
  {
    ((((1 as bv64) << (hiChars * 6)) - 1) << 2) | 3
  }

  lemma MaskedOffTo(x: bv64, m: bv64)
    requires x & !m == 0
    ensures x & m == x
  {}

  lemma MaskedOffFrom(x: bv64, m: bv64)
    requires x & m == x
    ensures x & !m == 0
  {}

  lemma MaskedOffUnderTo(x: bv64, m: bv64, p: bv64)
    requires x & !m & p == 0
    ensures (x & m) & p == x & p
  {}

  lemma MaskedOffUnderFrom(x: bv64, m: bv64, p: bv64)
    requires (x & m) & p == x & p
    ensures x & !m & p == 0
  {}

  /** ps_validate's test on lo, for a length of at most 10. */
  lemma LoCheck(lo: bv64, hi: bv64, length: bv8)
    requires length <= 10
    ensures (lo & !LoMask(length) == 0) <==> LoZeroFrom(lo, hi, length)
  {
    if lo & !LoMask(length) == 0 {
      LoCheckTo(lo, hi, length);
    }
    if LoZeroFrom(lo, hi, length) {
      LoCheckFrom(lo, hi, length);
    }
  }

  lemma LoCheckTo(lo: bv64, hi: bv64, length: bv8)
    requires length <= 10
    requires lo & !LoMask(length) == 0
    ensures LoZeroFrom(lo, hi, length)
  {
    LoMaskKeeps(lo, length);
    LimitLoAll(lo, hi, length, lo);
    LimitedLoTail(lo, hi, length);
  }

  lemma LoMaskKeeps(lo: bv64, length: bv8)
    requires length <= 10 && lo & !LoMask(length) == 0
    ensures lo == lo & ((1 << (length * 6)) - 1)
  {
    MaskedOffTo(lo, LoMask(length));
  }

  /** Codes that ps_limit leaves as they are past a short length are zero. */
  lemma LimitedLoTail(lo: bv64, hi: bv64, length: bv8)
    requires length <= 10
    requires forall i: bv8 | i < 22 :: GetN(lo, hi, i) == LimitedCode(lo, hi, length, i)
    ensures LoZeroFrom(lo, hi, length)
  {
    assert GetN(lo, hi, 10) == LimitedCode(lo, hi, length, 10);
    LowBitsCleared(GetN(lo, hi, 10));
  }

  lemma LoCheckFrom(lo: bv64, hi: bv64, length: bv8)
    requires length <= 10
    requires LoZeroFrom(lo, hi, length)
    ensures lo & !LoMask(length) == 0
  {
    LoKeptWord(lo, hi, length, lo & LoMask(length));
    MaskedOffFrom(lo, LoMask(length));
  }

  /** With a clear tail, ps_limit to a short length gives back lo itself. */
  lemma LoKeptWord(lo: bv64, hi: bv64, length: bv8, rlo: bv64)
    requires length <= 10 && LoZeroFrom(lo, hi, length)
    requires rlo == lo & LoMask(length)
    ensures rlo == lo
  {
    LoMaskIs(lo, length, rlo);
    LimitLoAll(lo, hi, length, rlo);
    LoTailLimited(lo, hi, length, rlo);
    CodesDetermineLo(rlo, hi, lo, hi);
  }

  lemma LoMaskIs(lo: bv64, length: bv8, rlo: bv64)
    requires length <= 10 && rlo == lo & LoMask(length)
    ensures rlo == lo & ((1 << (length * 6)) - 1)
  {}

  /** With a clear tail, ps_limit changes none of codes 0..10. */
  lemma LoTailLimited(lo: bv64, hi: bv64, length: bv8, rlo: bv64)
    requires length <= 10 && LoZeroFrom(lo, hi, length)
    requires forall i: bv8 | i < 22 :: GetN(rlo, hi, i) == LimitedCode(lo, hi, length, i)
    ensures forall i: bv8 | i <= 10 :: GetN(rlo, hi, i) == GetN(lo, hi, i)
  {
    LowBitsCleared(GetN(lo, hi, 10));
  }

  lemma LowBitsCleared(k: bv8)
    requires k < 64
    ensures k & 0x30 == k <==> k & 0xF == 0
  {}

  /** ps_validate's mask for hi is the mask of the low `hiChars * 6 + 2` bits. */
  lemma HiMaskShape(hiChars: bv8)
    requires hiChars <= 9
    ensures HiClearMask(hiChars) == ((1 as bv64) << (hiChars * 6 + 2)) - 1
  {}

  /** ps_validate's test on hi, for a length of 11 to 20. */
  lemma HiCheck(lo: bv64, hi: bv64, length: bv8)
    requires 11 <= length <= 20
    ensures (hi & !HiClearMask(length - 11) & PayloadMask == 0) <==> ZeroFrom(lo, hi, length)
  {
    if hi & !HiClearMask(length - 11) & PayloadMask == 0 {
      HiCheckTo(lo, hi, length);
    }
    if ZeroFrom(lo, hi, length) {
      HiCheckFrom(lo, hi, length);
    }
  }

  lemma HiCheckTo(lo: bv64, hi: bv64, length: bv8)
    requires 11 <= length <= 20
    requires hi & !HiClearMask(length - 11) & PayloadMask == 0
    ensures ZeroFrom(lo, hi, length)
  {
    MaskedOffUnderTo(hi, HiClearMask(length - 11), PayloadMask);
    HiKeptCodes(lo, hi, length, hi & HiClearMask(length - 11));
  }

  lemma HiMaskIs(hi: bv64, a: bv8, rhi: bv64)
    requires a <= 9 && rhi == hi & HiClearMask(a)
    ensures rhi == hi & ((1 << (a * 6 + 2)) - 1)
  {
    HiMaskShape(a);
  }

  /** If ps_limit leaves the payload of hi as it is, codes length..19 are zero. */
  lemma HiKeptCodes(lo: bv64, hi: bv64, length: bv8, rhi: bv64)
    requires 11 <= length <= 20
    requires rhi == hi & HiClearMask(length - 11)
    requires rhi & PayloadMask == hi & PayloadMask
    ensures ZeroFrom(lo, hi, length)
  {
    HiLimited(lo, hi, length, rhi);
    LimitedHiTail(lo, hi, length, rhi);
  }

  /** Masking hi with ps_validate's mask is ps_limit to the length. */
  lemma HiLimited(lo: bv64, hi: bv64, length: bv8, rhi: bv64)
    requires 11 <= length <= 20
    requires rhi == hi & HiClearMask(length - 11)
    ensures forall i: bv8 | i < 22 :: GetN(lo, rhi, i) == LimitedCode(lo, hi, length, i)
  {
    HiMaskIs(hi, length - 11, rhi);
    LimitHiAll(lo, hi, length, length - 11, rhi);
  }

  lemma LimitedHiTail(lo: bv64, hi: bv64, length: bv8, rhi: bv64)
    requires 11 <= length <= 20
    requires forall i: bv8 | i < 22 :: GetN(lo, rhi, i) == LimitedCode(lo, hi, length, i)
    requires rhi & PayloadMask == hi & PayloadMask
    ensures ZeroFrom(lo, hi, length)
  {
    SameLowHiKeepsCodes(lo, hi, rhi);
    forall i: bv8 | length <= i < 20 ensures GetN(lo, hi, i) == 0 {
      assert GetN(lo, rhi, i) == LimitedCode(lo, hi, length, i);
    }
  }

  lemma HiCheckFrom(lo: bv64, hi: bv64, length: bv8)
    requires 11 <= length <= 20
    requires ZeroFrom(lo, hi, length)
    ensures hi & !HiClearMask(length - 11) & PayloadMask == 0
  {
    HiKeptPayload(lo, hi, length, hi & HiClearMask(length - 11));
    MaskedOffUnderFrom(hi, HiClearMask(length - 11), PayloadMask);
  }

  /** With a clear tail, ps_limit leaves the payload of hi as it is. */
  lemma HiKeptPayload(lo: bv64, hi: bv64, length: bv8, rhi: bv64)
    requires 11 <= length <= 20 && ZeroFrom(lo, hi, length)
    requires rhi == hi & HiClearMask(length - 11)
    ensures rhi & PayloadMask == hi & PayloadMask
  {
    HiLimited(lo, hi, length, rhi);
    HiTailLimited(lo, hi, length, rhi);
    CodesDeterminePayload(lo, rhi, lo, hi);
  }

  lemma HiTailLimited(lo: bv64, hi: bv64, length: bv8, rhi: bv64)
    requires 11 <= length <= 20 && ZeroFrom(lo, hi, length)
    requires forall i: bv8 | i < 22 :: GetN(lo, rhi, i) == LimitedCode(lo, hi, length, i)
    ensures forall i: bv8 | 10 <= i < 20 :: GetN(lo, rhi, i) == GetN(lo, hi, i)
  {
    forall i: bv8 | 10 <= i < 20 ensures GetN(lo, rhi, i) == GetN(lo, hi, i) {
      assert GetN(lo, rhi, i) == LimitedCode(lo, hi, length, i);
    }
  }

  // ---------------------------------------------------------------------
  // ps_validate, corrected

  /**
   * ps_validate as evidently intended: for a length of at most 10 the
   * payload of hi must be zero too (code 10's two bits and codes 11..19),
   * so that it accepts exactly the clean values.
   */
  method ValidateIntended(ps: PackedString) returns (ok: bool)
    ensures ok <==> Clean(ps)
  {
    var length := Length(ps);
    if length > MaxLen {
      return false;
    }
    if length <= 10 {
      var clear := ShortClear(ps, length);
      if !clear {
        return false;
      }
    }
    if length > 10 {
      var clear := HiClear(ps.lo, ps.hi, length);
      if !clear {
        return false;
      }
    }
    ok := CodesAtMost(ps, 0, 63);
  }

  /** The corrected test below 11 codes: ps_validate's test on lo, and a zero payload in hi. */
  method ShortClear(ps: PackedString, length: bv8) returns (clear: bool)
    requires length == Length(ps) && length <= 10
    ensures clear <==> ZeroFrom(ps.lo, ps.hi, length)
  {
    var loClear := LoClear(ps, length);
    ShortClean(ps.lo, ps.hi, length);
    clear := loClear && ps.hi & PayloadMask == 0;
  }

  /** Below 11 codes a clean tail is a clear lo tail and a zero payload in hi. */
  lemma ShortClean(lo: bv64, hi: bv64, length: bv8)
    requires length <= 10
    ensures ZeroFrom(lo, hi, length) <==> LoZeroFrom(lo, hi, length) && hi & PayloadMask == 0
  {
    if ZeroFrom(lo, hi, length) {
      ShortCleanTo(lo, hi, length);
    }
    if LoZeroFrom(lo, hi, length) && hi & PayloadMask == 0 {
      ShortCleanFrom(lo, hi, length);
    }
  }

  lemma ShortCleanTo(lo: bv64, hi: bv64, length: bv8)
    requires length <= 10 && ZeroFrom(lo, hi, length)
    ensures LoZeroFrom(lo, hi, length) && hi & PayloadMask == 0
  {
    assert GetN(lo, hi, 10) == 0;
    ZeroCodes(lo, hi);
  }

  /** Zero codes 10..19 leave nothing in the payload of hi. */
  lemma ZeroCodes(lo: bv64, hi: bv64)
    requires forall i: bv8 | 10 <= i < 20 :: GetN(lo, hi, i) == 0
    ensures hi & PayloadMask == 0
  {
    CodesDeterminePayload(lo, hi, 0, 0);
  }

  lemma ShortCleanFrom(lo: bv64, hi: bv64, length: bv8)
    requires length <= 10 && LoZeroFrom(lo, hi, length) && hi & PayloadMask == 0
    ensures ZeroFrom(lo, hi, length)
  {
    SameLowHiKeepsCodes(lo, 0, hi);
    ZeroHiCodes(lo);
    assert GetN(lo, hi, 10) & 0xF == 0;
    Code10OfLo(lo, hi);
  }

  /** With hi zero, codes 11..19 are zero and code 10 is lo's top four bits. */
  lemma ZeroHiCodes(lo: bv64)
    ensures forall i: bv8 | 11 <= i < 20 :: GetN(lo, 0, i) == 0
    ensures GetN(lo, 0, 10) < 16
  {}

  lemma Code10OfLo(lo: bv64, hi: bv64)
    requires GetN(lo, hi, 10) == GetN(lo, 0, 10) && GetN(lo, 0, 10) < 16
    requires GetN(lo, hi, 10) & 0xF == 0
    ensures GetN(lo, hi, 10) == 0
  {}

  /** ps_validate accepts every clean value, and from 11 codes on only those. */
  lemma CleanIsAccepted(ps: PackedString)
    ensures Clean(ps) ==> ValidateAccepts(ps)
    ensures Length(ps) > 10 ==> (ValidateAccepts(ps) <==> Clean(ps))
  {
    if Length(ps) <= 10 {
      ShortClean(ps.lo, ps.hi, Length(ps));
    }
  }

  /**
   * The as-written ps_validate accepts a value with an empty length and a
   * stray code 11 in hi: hi == 4 puts code 1 at index 11.
   */
  lemma ValidateMissesHi()
    ensures ValidateAccepts(PackedString(0, 4)) && !Clean(PackedString(0, 4))
  {
    var ps := PackedString(0, 4);
    assert GetN(0, 4, 11) == 1;
    assert GetN(0, 4, 10) == 0;
    assert forall i: bv8 | i < 10 :: GetN(0, 4, i) == 0;
  }

  // ---------------------------------------------------------------------
  // ps_is_valid_identifier

  /**
   * ps_is_valid_identifier: false when the STARTS_WITH_DIGIT flag is set
   * or the value is empty.  Its tests on the codes (`> 64`) cannot fail,
   * as every code has six bits.
   */
  method IsValidIdentifier(ps: PackedString) returns (r: bool)
    requires Length(ps) <= 22
    ensures r <==> !StartsWithDigitFlag(ps) && Length(ps) > 0
  {
    if StartsWithDigitFlag(ps) {
      return false;
    }
    var len := Length(ps);
    if len == 0 {
      return false;
    }
    var firstSixbit := (ps.lo & 0x3F) as bv8;
    var rest := CodesAtMost(ps, 1, 64);
    r := firstSixbit <= 64 && rest;
  }

  /** On a value ps_pack made, the answer is: non-empty and not starting with a digit. */
  lemma IdentifierOfPacked(ps: PackedString, s: string)
    requires Packable(Some(s)) && Represents(ps, Encode(s), PackFlags(s))
    ensures Length(ps) <= 20
    ensures !StartsWithDigitFlag(ps) && Length(ps) > 0 <==> |s| > 0 && !IsDigit(s[0])
  {
    PackThenUnpack(ps, s);
  }

  /** ps_is_valid_identifier reading code 0 instead of trusting the flag. */
  method IsValidIdentifierByCode(ps: PackedString) returns (r: bool)
    requires Length(ps) <= 22
    ensures r <==> Length(ps) > 0 && !IsDigitCode(Codes(ps.lo, ps.hi)[0])
  {
    var len := Length(ps);
    if len == 0 {
      return false;
    }
    var first := Access.At(ps, 0);
    r := !IsDigitCode(first);
  }

  /** On a valid value the code answer is about the text: non-empty, no leading digit. */
  lemma IdentifierByCodeText(ps: PackedString)
    requires Valid(ps)
    ensures Length(ps) <= 20
    ensures Length(ps) > 0 && !IsDigitCode(Codes(ps.lo, ps.hi)[0]) <==>
      Length(ps) > 0 && !IsDigit(Decode(Content(ps))[0])
  {
    ValidLength(ps);
    if Length(ps) > 0 {
      var k := Codes(ps.lo, ps.hi)[0];
      assert Content(ps)[0] == k;
      SixbitRoundTrip(k);
      CodeClasses(SixbitToChar(k));
    }
  }

  /**
   * ps_substring writes no flags, so the substring "1" of ps_pack("1a")
   * has a clear STARTS_WITH_DIGIT bit: ps_has_digit says it has no digit
   * and ps_is_valid_identifier says it is an identifier.
   */
  lemma FlagLostBySubstring(r: PackedString)
    requires Valid(r) && Flags(r) == 0 && Content(r) == [1]
    ensures Decode(Content(r)) == "1"
    ensures !HasDigitAnswer(r)
    ensures !StartsWithDigitFlag(r) && Length(r) > 0
    ensures DigitIn(Codes(r.lo, r.hi), 0, Length(r) as int)
  {
    assert Encode("1") == [1];
    DecodeEncode("1");
    assert Content(r)[0] == Codes(r.lo, r.hi)[0];
  }

  // ---------------------------------------------------------------------
  // ps_substring and ps_concat, on the 64-bit shifts

  /** ps_shr by a whole number of codes: defined for shifts below 64. */
  method ShiftRightShort(lo: bv64, hi: bv64, shift: bv8) returns (rlo: bv64, rhi: bv64)
    requires 0 < shift < 64 && shift % 6 == 0
    ensures Codes(rlo, rhi) == ShiftRightCodes(Codes(lo, hi), (shift / 6) as int)
  {
    rlo, rhi := Shr(lo, hi, shift);
    ShrCodes(lo, hi, rlo, rhi, shift / 6);
  }

  /** ps_shl by a whole number of codes: defined for shifts below 64. */
  method ShiftLeftShort(lo: bv64, hi: bv64, shift: bv8) returns (rlo: bv64, rhi: bv64)
    requires 0 < shift < 64 && shift % 6 == 0
    ensures Codes(rlo, rhi) == ShiftLeftCodes(Codes(lo, hi), (shift / 6) as int)
  {
    rlo, rhi := Shl(lo, hi, shift);
    ShlCodes(lo, hi, rlo, rhi, shift / 6);
  }

  /** The shift ps_substring does, skipped when bit_start is 0. */
  method ShiftToStart(ps: PackedString, start: bv8) returns (lo: bv64, hi: bv64)
    requires start <= 10
    ensures Codes(lo, hi) == ShiftRightCodes(Codes(ps.lo, ps.hi), start as int)
  {
    lo, hi := ps.lo, ps.hi;
    var bitStart := start * 6;
    if bitStart != 0 {
      assert bitStart % 6 == 0 && bitStart / 6 == start;
      lo, hi := ShiftRightShort(lo, hi, bitStart);
    } else {
      NoShift(lo, hi);
    }
  }

  /**
   * ps_substring at the root: as in packed16 but with the 64-bit ps_shr,
   * which is defined only for a start of at most 10 (a start of 11 or
   * more shifts by 66 bits or more).
   */
  method Substring(ps: PackedString, start: bv8, length: bv8) returns (r: PackedString)
    requires length == 0 || start as int + length as int > Length(ps) as int || (start <= 10 && length <= 21)
    ensures length == 0 || start as int + length as int > Length(ps) as int ==> r == Empty()
    ensures 0 < length && start as int + length as int <= Length(ps) as int ==>
      Length(r) == length && Flags(r) == 0
    ensures 0 < length && start as int + length as int <= Length(ps) as int && Valid(ps) ==>
      Valid(r) && Content(r) == Content(ps)[start..start as int + length as int]
    ensures 0 < length <= 10 && start as int + length as int <= Length(ps) as int ==>
      Codes(r.lo, r.hi)[11..20] == ShiftRightCodes(Codes(ps.lo, ps.hi), start as int)[11..20]
  {
    var total := Length(ps);
    if length == 0 || start as int + length as int > total as int {
      return Empty();
    }
    var lo, hi := ShiftToStart(ps, start);
    var llo, lhi := LimitTo(lo, hi, length);
    r := WithMetadata(llo, lhi, length, 0);
    if Valid(ps) {
      ValidLength(ps);
      Slicing.ShiftedSlice(ps, Codes(lo, hi), start, length);
      Slicing.SubstringContent(Codes(lo, hi), Codes(llo, lhi), r, length);
    }
    if length <= 10 {
      Slicing.TruncLeavesCodes(Codes(lo, hi), Codes(llo, lhi), r);
    }
  }

  /** The ranges ps_substring lets through with a start past code 10: ps_shr shifts by 64 or more. */
  lemma SubstringShiftPastWord(ps: PackedString, start: bv8, length: bv8)
    requires Length(ps) == 20 && start == 11 && length == 1
    ensures !(length == 0 || start as int + length as int > Length(ps) as int)
    ensures start as int * 6 >= 64
  {}

  /**
   * ps_concat at the root: as in packed16 but with the 64-bit ps_shl,
   * which is defined only for 0 < a_bits < 64, so for an a of 1 to 10
   * codes (or of 20, returned as it is).
   */
  method Concat(a: PackedString, b: PackedString) returns (r: PackedString)
    requires Length(a) == 20 || 0 < Length(a) <= 10
    ensures Length(a) == 20 ==> r == a
    ensures Length(a) != 20 ==> Length(r) == Slicing.ConcatLength(a, b) && Flags(r) == Flags(a) | Flags(b)
    ensures Length(a) != 20 && Clean(a) && Valid(b) ==>
      Valid(r) && Content(r) == (Content(a) + Content(b))[..Slicing.ConcatLength(a, b)]
    ensures Length(a) != 20 && Clean(a) && Clean(b) ==> Clean(r)
  {
    var lenA := Length(a);
    if lenA == 20 {
      return a;
    }
    var aBits := lenA * 6;
    assert aBits % 6 == 0 && aBits / 6 == lenA;
    var lo, hi := ShiftLeftShort(b.lo, b.hi, aBits);
    r := Slicing.Join(a, b, lo, hi);
  }

  /** The a that ps_concat shifts by 0 or by 64 bits or more: empty, or 11 to 19 codes. */
  lemma ConcatShiftOutsideWord(a: PackedString)
    requires Length(a) < 20
    ensures Length(a) * 6 == 0 || Length(a) * 6 >= 64 <==> Length(a) == 0 || Length(a) >= 11
  {}
}
