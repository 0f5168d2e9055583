/**
 * Packing and unpacking (packed16/packed-string.c): ps_pack,
 * ps_pack_ex, ps_unpack and ps_unpack_ex.
 *
 * A C string is modelled by the characters before its terminating NUL;
 * a NULL pointer is `None`.
 */
module Packing {
  import opened Encoding
  import opened Helper
  import opened HelperWrite
  import opened Packed

  // ---------------------------------------------------------------------
  // Strings, codes and flags

  /** The characters of a C string: none of them is the terminator. */
  predicate IsCString(s: string) {
    forall i | 0 <= i < |s| :: s[i] != '\0'
  }

  /** The code of each character, UINT8_MAX where there is none. */
  function Encode(s: string): (c: seq<bv8>)
    ensures |c| == |s|
    ensures forall i {:trigger c[i]} | 0 <= i < |s| :: c[i] == CharToSixbit(s[i])
  {
    seq(|s|, i requires 0 <= i < |s| => CharToSixbit(s[i]))
  }

  /** The symbol of each code, '?' from 64 on. */
  function Decode(c: seq<bv8>): (s: string)
    ensures |s| == |c|
    ensures forall i | 0 <= i < |c| :: s[i] == SixbitToChar(c[i])
  {
    seq(|c|, i requires 0 <= i < |c| => SixbitToChar(c[i]))
  }

  /** Every character has a code. */
  predicate AllInAlphabet(s: string) {
    forall i | 0 <= i < |s| :: InAlphabet(s[i])
  }

  /** Every entry is a code. */
  predicate AllCodes(c: seq<bv8>) {
    forall i | 0 <= i < |c| :: c[i] < 64
  }

  /** Decoding undoes encoding on alphabet strings. */
  lemma DecodeEncode(s: string)
    requires AllInAlphabet(s)
    ensures AllCodes(Encode(s))
    ensures Decode(Encode(s)) == s
  {
    forall i | 0 <= i < |s| ensures Decode(Encode(s))[i] == s[i] {
      CharRoundTrip(s[i]);
    }
  }

  /** Encoding undoes decoding on code sequences. */
  lemma EncodeDecode(c: seq<bv8>)
    requires AllCodes(c)
    ensures AllInAlphabet(Decode(c))
    ensures Encode(Decode(c)) == c
  {
    forall i | 0 <= i < |c| ensures Encode(Decode(c))[i] == c[i] {
      SixbitRoundTrip(c[i]);
    }
  }

  /** The flag ps_pack records for one character. */
  function CharFlag(c: char): bv8 {
    if IsUpper(c) then CaseSensitive
    else if IsDigit(c) then ContainsDigit
    else if IsSpecial(c) then ContainsSpecial
    else 0
  }

  /** The union of the flags of the first n characters. */
  function PrefixFlags(s: string, n: nat): bv8
    requires n <= |s|
  {
    if n == 0 then 0 else PrefixFlags(s, n - 1) | CharFlag(s[n - 1])
  }

  /** The flags of a string: the union of its characters' flags. */
  function CharFlags(s: string): bv8 {
    PrefixFlags(s, |s|)
  }

  /**
   * The flags of a prefix say exactly which character classes occur in
   * it: upper case, digit, '_' or '$'.
   */
  lemma {:induction false} PrefixFlagsSpec(s: string, n: nat)
    requires n <= |s|
    ensures PrefixFlags(s, n) < 8
    ensures PrefixFlags(s, n) & CaseSensitive != 0 <==> exists i | 0 <= i < n :: IsUpper(s[i])
    ensures PrefixFlags(s, n) & ContainsDigit != 0 <==> exists i | 0 <= i < n :: IsDigit(s[i])
    ensures PrefixFlags(s, n) & ContainsSpecial != 0 <==> exists i | 0 <= i < n :: IsSpecial(s[i])
  {
    if n > 0 {
      var c := s[n - 1];
      PrefixFlagsSpec(s, n - 1);
      FlagBits(PrefixFlags(s, n - 1), CharFlag(c));
      if IsUpper(c) {
        assert !IsDigit(c) && !IsSpecial(c);
      } else if IsDigit(c) {
        assert !IsSpecial(c);
      }
      ExistsStep(s, n);
    }
  }

  /** The flags of a string say exactly which character classes occur in it. */
  lemma CharFlagsSpec(s: string)
    ensures CharFlags(s) < 8
    ensures CharFlags(s) & CaseSensitive != 0 <==> exists i | 0 <= i < |s| :: IsUpper(s[i])
    ensures CharFlags(s) & ContainsDigit != 0 <==> exists i | 0 <= i < |s| :: IsDigit(s[i])
    ensures CharFlags(s) & ContainsSpecial != 0 <==> exists i | 0 <= i < |s| :: IsSpecial(s[i])
  {
    PrefixFlagsSpec(s, |s|);
  }

  /** One step of the union: each bit is set in the union iff it is in either part. */
  lemma FlagBits(f: bv8, g: bv8)
    requires f < 8 && (g == 0 || g == 1 || g == 2 || g == 4)
    ensures f | g < 8
    ensures (f | g) & 1 != 0 <==> f & 1 != 0 || g == 1
    ensures (f | g) & 2 != 0 <==> f & 2 != 0 || g == 2
    ensures (f | g) & 4 != 0 <==> f & 4 != 0 || g == 4
  {}

  lemma ExistsStep(s: string, n: nat)
    requires 0 < n <= |s|
    ensures (exists i | 0 <= i < n :: IsUpper(s[i])) <==> (exists i | 0 <= i < n - 1 :: IsUpper(s[i])) || IsUpper(s[n - 1])
    ensures (exists i | 0 <= i < n :: IsDigit(s[i])) <==> (exists i | 0 <= i < n - 1 :: IsDigit(s[i])) || IsDigit(s[n - 1])
    ensures (exists i | 0 <= i < n :: IsSpecial(s[i])) <==> (exists i | 0 <= i < n - 1 :: IsSpecial(s[i])) || IsSpecial(s[n - 1])
  {}

  /** The words hold the first n entries of c and zeros after. */
  ghost predicate PrefixHeld(lo: bv64, hi: bv64, c: seq<bv8>, n: bv8)
    requires n as int <= |c|
  {
    forall i: bv8 | i < 22 :: GetN(lo, hi, i) == PrefixCode(c, n, i)
  }

  /** The code at index i of a value holding the first n entries of c and zeros after. */
  function PrefixCode(c: seq<bv8>, n: bv8, i: bv8): bv8
    requires n as int <= |c|
  {
    if i < n then c[i] else 0
  }

  // ---------------------------------------------------------------------
  // ps_pack

  /** What ps_pack accepts: a non-NULL string of at most 20 alphabet characters. */
  predicate Packable(str: Option<string>) {
    str.Some? && |str.value| <= 20 && AllInAlphabet(str.value)
  }

  /**
   * ps_pack: INVALID for NULL, for a character outside the alphabet and
   * for more than 20 characters; otherwise the clean value holding the
   * string's codes and the flags of its character classes.
   */
  method Pack(str: Option<string>) returns (r: PackedString)
    requires str.Some? ==> IsCString(str.value)
    ensures r == InvalidString <==> !Packable(str)
    ensures Packable(str) ==> Represents(r, Encode(str.value), CharFlags(str.value))
  {
    if str.None? {
      return InvalidString;
    }
    var s := str.value;
    var lo: bv64, hi: bv64 := 0, 0;
    var length: bv8, flags: bv8 := 0, 0;
    PackStart(s);
    while length as int < |s| && length < MaxLen
      invariant PackInvariant(s, lo, hi, length, flags)
      decreases 20 - length as int
    {
      ghost var before := flags;
      var c := s[length];
      flags := flags | CharFlag(c);
      var sixbit := CharToSixbit(c);
      if sixbit == 0xFF {
        NotPackable(s, length as int);
        return InvalidString;
      }
      BitPos(length);
      var lo', hi' := WriteSixbit(lo, hi, sixbit, length * 6);
      PackNext(s, lo, hi, lo', hi', length, before);
      lo, hi, length := lo', hi', length + 1;
    }
    if length as int < |s| {
      NotPackable(s, -1);
      return InvalidString;
    }
    var meta := PackMetadata(length, flags);
    var hi' := InsertMetadata(hi, meta);
    r := PackedString(lo, hi');
    PackResult(s, lo, hi, r, length, flags);
  }

  /** What ps_pack's loop keeps: the first `length` characters are packed and flagged. */
  ghost predicate PackInvariant(s: string, lo: bv64, hi: bv64, length: bv8, flags: bv8) {
    length <= 20 && length as int <= |s| &&
    (forall j | 0 <= j < length as int :: InAlphabet(s[j])) &&
    flags == PrefixFlags(s, length as int) &&
    PrefixHeld(lo, hi, Encode(s), length)
  }

  /** A character outside the alphabet, or more than 20 characters, is not packable. */
  lemma NotPackable(s: string, j: int)
    requires j < |s| && (0 <= j ==> !InAlphabet(s[j]))
    requires j < 0 ==> |s| > 20
    ensures !Packable(Some(s))
  {
    if 0 <= j < |s| {
      assert !InAlphabet(s[j]);
    }
  }

  /** Inserting the metadata byte over the packed codes gives the clean value. */
  lemma PackResult(s: string, lo: bv64, hi: bv64, r: PackedString, length: bv8, flags: bv8)
    requires PackInvariant(s, lo, hi, length, flags) && length as int == |s|
    requires r.lo == lo && ExtractMetadata(r.hi) == PackMetadata(length, flags)
    requires r.hi & 0x00FF_FFFF_FFFF_FFFF == hi & 0x00FF_FFFF_FFFF_FFFF
    ensures Packable(Some(s)) && r != InvalidString
    ensures Represents(r, Encode(s), CharFlags(s))
  {
    CharFlagsSpec(s);
    MetadataFields(r, length, flags);
    Sentinels();
    PackResultCodes(lo, hi, r, Encode(s), length);
  }

  lemma PackResultCodes(lo: bv64, hi: bv64, r: PackedString, c: seq<bv8>, length: bv8)
    requires length <= 20 && length as int == |c| && PrefixHeld(lo, hi, c, length)
    requires r.lo == lo && r.hi & 0x00FF_FFFF_FFFF_FFFF == hi & 0x00FF_FFFF_FFFF_FFFF
    ensures forall i: bv8 | i < 20 :: GetN(r.lo, r.hi, i) == if (i as int) < |c| then c[i] else 0
  {
    SameLowHiKeepsCodes(lo, hi, r.hi);
  }

  /** Zero words hold the empty prefix. */
  lemma PackStart(s: string)
    ensures PackInvariant(s, 0, 0, 0, 0)
  {}

  /** One iteration of ps_pack's loop keeps its invariant. */
  lemma PackNext(s: string, lo: bv64, hi: bv64, rlo: bv64, rhi: bv64, n: bv8, flags: bv8)
    requires n < 20 && n as int < |s| && CharToSixbit(s[n]) != 0xFF
    requires PackInvariant(s, lo, hi, n, flags)
    requires forall m: bv8 | m < 22 :: GetN(rlo, rhi, m) == OrAt(lo, hi, CharToSixbit(s[n]), n * 6, m)
    ensures PackInvariant(s, rlo, rhi, n + 1, flags | CharFlag(s[n]))
  {
    var k := n as int;
    assert (n + 1) as int == k + 1;
    assert PrefixFlags(s, k + 1) == flags | CharFlag(s[n]);
    assert forall j | 0 <= j < k + 1 :: InAlphabet(s[j]);
    PackStep(lo, hi, rlo, rhi, Encode(s), n);
  }

  /** Code positions below 20 are whole-code bit positions inside the words. */
  lemma BitPos(n: bv8)
    requires n < 20
    ensures n * 6 < 128 && (n * 6) % 6 == 0 && !(61 <= n * 6 <= 63)
  {}

  /** OR-ing the next code into a zero slot extends the packed prefix. */
  lemma PackStep(lo: bv64, hi: bv64, rlo: bv64, rhi: bv64, c: seq<bv8>, n: bv8)
    requires n < 20 && n as int < |c| && c[n] < 64
    requires PrefixHeld(lo, hi, c, n)
    requires forall m: bv8 | m < 22 :: GetN(rlo, rhi, m) == OrAt(lo, hi, c[n], n * 6, m)
    ensures PrefixHeld(rlo, rhi, c, n + 1)
  {
    forall i: bv8 | i < 22 ensures GetN(rlo, rhi, i) == PrefixCode(c, n + 1, i) {
      PackStepCode(lo, hi, c, n, i);
    }
  }

  lemma PackStepCode(lo: bv64, hi: bv64, c: seq<bv8>, n: bv8, i: bv8)
    requires n < 20 && n as int < |c| && c[n] < 64 && i < 22
    requires GetN(lo, hi, i) == PrefixCode(c, n, i)
    ensures OrAt(lo, hi, c[n], n * 6, i) == PrefixCode(c, n + 1, i)
  {
    if i == n {
      assert GetN(lo, hi, i) == 0;
    } else {
      assert i * 6 != n * 6;
    }
  }

  // ---------------------------------------------------------------------
  // ps_unpack

  /**
   * The buffer holds `text` followed by a NUL, and every byte after the
   * NUL is what it was before.
   */
  ghost predicate Unpacked(b: seq<char>, before: seq<char>, text: string) {
    |b| == |before| > |text| &&
    b[..|text|] == text && b[|text|] == '\0' && b[|text| + 1..] == before[|text| + 1..]
  }

  /**
   * ps_unpack: -1 for a NULL buffer or a value whose length field is over
   * 20, with nothing written; otherwise the decoded codes and a NUL are
   * written and the length is returned.
   */
  method Unpack(ps: PackedString, buffer: array?<char>) returns (r: int)
    requires buffer != null && Valid(ps) ==> buffer.Length > Length(ps) as int
    modifies buffer
    ensures r == -1 <==> buffer == null || !Valid(ps)
    ensures buffer != null && !Valid(ps) ==> buffer[..] == old(buffer[..])
    ensures buffer != null && Valid(ps) ==>
      r == Length(ps) as int && Unpacked(buffer[..], old(buffer[..]), Decode(Content(ps)))
  {
    if buffer == null || !Valid(ps) {
      return -1;
    }
    var length := Length(ps);
    var i: bv8 := 0;
    while i < length
      invariant UnpackInvariant(buffer[..], old(buffer[..]), ps, i)
    {
      var sixbit := GetN(ps.lo, ps.hi, i);
      ghost var b := buffer[..];
      buffer[i] := SixbitToChar(sixbit);
      assert buffer[..] == b[i as int := SixbitToChar(sixbit)];
      UnpackNext(b, old(buffer[..]), ps, i);
      i := i + 1;
    }
    ghost var b := buffer[..];
    buffer[length] := '\0';
    assert buffer[..] == b[length as int := '\0'];
    UnpackDone(b, old(buffer[..]), ps);
    return length as int;
  }

  /** What ps_unpack's loop keeps: the first i symbols are written, the rest untouched. */
  ghost predicate UnpackInvariant(b: seq<char>, before: seq<char>, ps: PackedString, i: bv8) {
    Valid(ps) && i <= Length(ps) && |b| == |before| > Length(ps) as int &&
    b[..i] == Decode(Content(ps))[..i] && b[i..] == before[i..]
  }

  lemma UnpackNext(b: seq<char>, before: seq<char>, ps: PackedString, i: bv8)
    requires UnpackInvariant(b, before, ps, i) && i < Length(ps)
    ensures UnpackInvariant(b[i as int := SixbitToChar(GetN(ps.lo, ps.hi, i))], before, ps, i + 1)
  {
    assert (i + 1) as int == i as int + 1;
    DecodeContentAt(ps, i);
    WriteStep(b, before, Decode(Content(ps)), i as int, SixbitToChar(GetN(ps.lo, ps.hi, i)));
  }

  lemma DecodeContentAt(ps: PackedString, i: bv8)
    requires Valid(ps) && i < Length(ps)
    ensures Decode(Content(ps))[i as int] == SixbitToChar(GetN(ps.lo, ps.hi, i))
  {}

  /** Writing the next symbol of `text` extends the written prefix by one. */
  lemma WriteStep(b: seq<char>, before: seq<char>, text: string, k: int, x: char)
    requires 0 <= k < |text| && |b| == |before| && k < |b|
    requires b[..k] == text[..k] && b[k..] == before[k..] && text[k] == x
    ensures b[k := x][..k + 1] == text[..k + 1] && b[k := x][k + 1..] == before[k + 1..]
  {
    assert b[k := x][..k + 1] == b[..k] + [x];
    assert text[..k + 1] == text[..k] + [x];
    assert b[k := x][k + 1..] == b[k + 1..];
  }

  lemma UnpackDone(b: seq<char>, before: seq<char>, ps: PackedString)
    requires UnpackInvariant(b, before, ps, Length(ps))
    ensures Unpacked(b[Length(ps) as int := '\0'], before, Decode(Content(ps)))
  {
    var n := Length(ps) as int;
    var b' := b[n := '\0'];
    assert |Decode(Content(ps))| == n;
    assert b'[..n] == b[..n];
    assert b'[n + 1..] == b[n + 1..] == b[n..][1..] == before[n..][1..] == before[n + 1..];
  }

  /** Unpacking what ps_pack produced gives the packed string back. */
  lemma PackUnpackRoundTrip(ps: PackedString, s: string, f: bv8)
    requires AllInAlphabet(s) && Represents(ps, Encode(s), f)
    ensures Valid(ps) && Decode(Content(ps)) == s
  {
    RepresentsContent(ps, Encode(s), f);
    DecodeEncode(s);
  }

  /**
   * Packing what ps_unpack wrote gives back the codes of a valid value,
   * and its flags when those were the flags of its characters.
   */
  lemma UnpackPackRoundTrip(ps: PackedString)
    requires Valid(ps)
    ensures AllInAlphabet(Decode(Content(ps))) && |Decode(Content(ps))| <= 20
    ensures Encode(Decode(Content(ps))) == Content(ps)
  {
    ValidLength(ps);
    ContentCodes(ps);
    EncodeDecode(Content(ps));
  }

  lemma ContentCodes(ps: PackedString)
    requires Valid(ps)
    ensures AllCodes(Content(ps))
  {
    forall j | 0 <= j < |Content(ps)| ensures Content(ps)[j] < 64 {
      ByteIndex(j);
      assert Content(ps)[j] == GetN(ps.lo, ps.hi, j as bv8);
    }
  }

  // ---------------------------------------------------------------------
  // ps_pack_ex

  /** A character ps_pack_ex accepts under the declared flags. */
  predicate ExAllowed(c: char, flags: bv8) {
    InAlphabet(c) &&
    !(flags & ContainsDigit == 0 && IsDigit(c)) &&
    !(flags & ContainsSpecial == 0 && IsSpecial(c))
  }

  /** ps_pack_ex folds an upper-case letter to lower case when CASE_SENSITIVE is absent. */
  function ExChar(c: char, flags: bv8): char {
    if flags & CaseSensitive == 0 && IsUpper(c) then (c as int + 32) as char else c
  }

  /** The characters ps_pack_ex encodes. */
  function FoldEx(s: string, flags: bv8): (t: string)
    ensures |t| == |s|
    ensures forall i {:trigger t[i]} | 0 <= i < |s| :: t[i] == ExChar(s[i], flags)
  {
    seq(|s|, i requires 0 <= i < |s| => ExChar(s[i], flags))
  }

  /**
   * What ps_pack_ex accepts: a non-NULL string with at least `length <= 20`
   * characters, each of them in the alphabet, no digit unless
   * CONTAINS_DIGIT is declared and no '_' or '$' unless CONTAINS_SPECIAL is.
   */
  predicate PackExAccepts(str: Option<string>, length: bv8, flags: bv8) {
    str.Some? && length <= 20 && length as int <= |str.value| &&
    forall j | 0 <= j < length as int :: ExAllowed(str.value[j], flags)
  }

  /**
   * ps_pack_ex: INVALID unless the first `length` characters are accepted;
   * otherwise the clean value of length `length` holding their (folded)
   * codes, with the flags computed from the characters as read, not the
   * declared ones.  A string shorter than `length` ends in its NUL, which
   * has no code.
   */
  method PackEx(str: Option<string>, length: bv8, flags: bv8) returns (r: PackedString)
    requires str.Some? ==> IsCString(str.value)
    ensures r == InvalidString <==> !PackExAccepts(str, length, flags)
    ensures PackExAccepts(str, length, flags) ==>
      Represents(r, Encode(FoldEx(str.value[..length], flags)), PrefixFlags(str.value, length as int))
  {
    if str.None? || length > MaxLen {
      return InvalidString;
    }
    var s := str.value;
    var lo: bv64, hi: bv64 := 0, 0;
    var newFlags: bv8 := 0;
    var i: bv8 := 0;
    PackExStart(s, flags, length);
    while i < length
      invariant PackExInvariant(s, flags, length, lo, hi, i, newFlags)
      decreases 20 - i as int
    {
      var c := CharAt(s, i);
      ghost var before := newFlags;
      newFlags := newFlags | CharFlag(c);
      var sixbit := ExCode(c, flags);
      if sixbit == 0xFF {
        PackExRejects(s, flags, length, i);
        return InvalidString;
      }
      BitPos(i);
      var lo', hi' := WriteSixbit(lo, hi, sixbit, i * 6);
      PackExNext(s, flags, length, lo, hi, lo', hi', i, before, c);
      lo, hi, i := lo', hi', i + 1;
    }
    var metadata := PackMetadata(length, newFlags);
    var hi' := InsertMetadata(hi, metadata);
    r := PackedString(lo, hi');
    PackExResult(s, flags, length, lo, hi, r, newFlags);
  }

  /**
   * ps_pack_ex reads the flags from the characters before folding them:
   * ps_pack_ex("A", 1, 0) stores the text "a" with CASE_SENSITIVE set.
   */
  lemma PackExFlagsBeforeFold(r: PackedString)
    requires Represents(r, Encode(FoldEx("A"[..1], 0)), PrefixFlags("A", 1))
    ensures PackExAccepts(Some("A"), 1, 0)
    ensures Decode(Content(r)) == "a" && Flags(r) & CaseSensitive != 0
  {
    assert "A"[..1] == "A";
    assert FoldEx("A", 0)[0] == 'a';
    assert FoldEx("A", 0) == "a";
    RepresentsContent(r, Encode("a"), PrefixFlags("A", 1));
    DecodeEncode("a");
    PrefixFlagsSpec("A", 1);
  }

  function ExCode(c: char, flags: bv8): (k: bv8)
    ensures k == 0xFF <==> !ExAllowed(c, flags)
    ensures k != 0xFF ==> k == CharToSixbit(ExChar(c, flags))
  {
    var isDigit, isUpper, isSpecial := IsDigit(c), IsUpper(c), IsSpecial(c);
    var folded := if flags & CaseSensitive == 0 && isUpper then (c as int + 32) as char else c;
    if flags & ContainsDigit == 0 && isDigit then 0xFF
    else if flags & ContainsSpecial == 0 && isSpecial then 0xFF
    else CharToSixbit(folded)
  }

  /** What ps_pack_ex's loop keeps: the first i characters are accepted, packed and flagged. */
  ghost predicate PackExInvariant(s: string, flags: bv8, length: bv8, lo: bv64, hi: bv64, i: bv8, newFlags: bv8) {
    length <= 20 && i <= length && i as int <= |s| &&
    AllowedPrefix(s, flags, i) && newFlags == PrefixFlags(s, i as int) &&
    PrefixHeld(lo, hi, Encode(FoldEx(s, flags)), i)
  }

  lemma PackExStart(s: string, flags: bv8, length: bv8)
    requires length <= 20
    ensures PackExInvariant(s, flags, length, 0, 0, 0, 0)
  {}

  /** The character a C loop reads at index i: the string's own, or its terminating NUL. */
  function CharAt(s: string, i: bv8): (c: char)
    ensures i as int < |s| ==> c == s[i]
    ensures i as int >= |s| ==> !InAlphabet(c)
  {
    if i as int < |s| then s[i] else '\0'
  }

  /** A refused character at index j, or a NUL before `length`, makes ps_pack_ex refuse. */
  lemma PackExRejects(s: string, flags: bv8, length: bv8, j: bv8)
    requires j < length && j as int <= |s|
    requires !ExAllowed(CharAt(s, j), flags)
    ensures !PackExAccepts(Some(s), length, flags)
  {
    if j as int < |s| {
      assert !ExAllowed(s[j], flags);
    }
  }

  /** The first n characters are accepted under the declared flags. */
  ghost predicate AllowedPrefix(s: string, flags: bv8, n: bv8) {
    n as int <= |s| && forall j | 0 <= j < n as int :: ExAllowed(s[j], flags)
  }

  /** One iteration of ps_pack_ex's loop keeps its invariant. */
  lemma PackExNext(s: string, flags: bv8, length: bv8, lo: bv64, hi: bv64, rlo: bv64, rhi: bv64, i: bv8, newFlags: bv8, c: char)
    requires PackExInvariant(s, flags, length, lo, hi, i, newFlags) && i < length
    requires c == CharAt(s, i) && ExAllowed(c, flags)
    requires forall m: bv8 | m < 22 :: GetN(rlo, rhi, m) == OrAt(lo, hi, CharToSixbit(ExChar(c, flags)), i * 6, m)
    ensures PackExInvariant(s, flags, length, rlo, rhi, i + 1, newFlags | CharFlag(c))
  {
    AllowedStep(s, flags, i);
    FlagsStep(s, i);
    ExCodeStep(s, flags, i);
    PackStep(lo, hi, rlo, rhi, Encode(FoldEx(s, flags)), i);
  }

  lemma AllowedStep(s: string, flags: bv8, i: bv8)
    requires i < 20 && AllowedPrefix(s, flags, i) && i as int < |s| && ExAllowed(s[i], flags)
    ensures AllowedPrefix(s, flags, i + 1)
  {
    assert (i + 1) as int == i as int + 1;
  }

  lemma FlagsStep(s: string, i: bv8)
    requires i < 20 && i as int < |s|
    ensures PrefixFlags(s, (i + 1) as int) == PrefixFlags(s, i as int) | CharFlag(s[i])
  {
    assert (i + 1) as int == i as int + 1;
  }

  lemma ExCodeStep(s: string, flags: bv8, i: bv8)
    requires i as int < |s| && ExAllowed(s[i], flags)
    ensures Encode(FoldEx(s, flags))[i] == CharToSixbit(ExChar(s[i], flags)) < 64
  {
    ExCharInAlphabet(s[i], flags);
  }

  /** Folding keeps an accepted character in the alphabet. */
  lemma ExCharInAlphabet(c: char, flags: bv8)
    requires InAlphabet(c)
    ensures InAlphabet(ExChar(c, flags))
    ensures CharToSixbit(ExChar(c, flags)) < 64
  {}

  lemma PackExResult(s: string, flags: bv8, length: bv8, lo: bv64, hi: bv64, r: PackedString, newFlags: bv8)
    requires PackExInvariant(s, flags, length, lo, hi, length, newFlags)
    requires r.lo == lo && ExtractMetadata(r.hi) == PackMetadata(length, newFlags)
    requires r.hi & 0x00FF_FFFF_FFFF_FFFF == hi & 0x00FF_FFFF_FFFF_FFFF
    ensures PackExAccepts(Some(s), length, flags) && r != InvalidString
    ensures Represents(r, Encode(FoldEx(s[..length], flags)), PrefixFlags(s, length as int))
  {
    PrefixFlagsSpec(s, length as int);
    MetadataFields(r, length, newFlags);
    Sentinels();
    var c := Encode(FoldEx(s, flags));
    assert Encode(FoldEx(s[..length], flags)) == c[..length];
    PrefixTake(lo, hi, c, length);
    PackResultCodes(lo, hi, r, c[..length], length);
  }

  /** Words holding a prefix of c hold the same prefix of c cut at that length. */
  lemma PrefixTake(lo: bv64, hi: bv64, c: seq<bv8>, n: bv8)
    requires n as int <= |c| && PrefixHeld(lo, hi, c, n)
    ensures PrefixHeld(lo, hi, c[..n], n)
  {}

  // ---------------------------------------------------------------------
  // ps_unpack_ex

  /**
   * What ps_unpack_ex does with one code: UINT8_MAX when the declared
   * flags filter it out (a digit without CONTAINS_DIGIT, '_' or '$'
   * without CONTAINS_SPECIAL), otherwise the code to write, lower-cased
   * through the table when CASE_SENSITIVE is absent.
   */
  function UnpackExCode(k: bv8, flags: bv8): (r: bv8)
    requires k < 64
    ensures r != 0xFF ==> r < 64 && r == if flags & CaseSensitive == 0 then LowerOf(k) else k
  {
    ToLowerTableSpec();
    if flags & ContainsDigit == 0 && k <= 9 then 0xFF
    else if flags & ContainsSpecial == 0 && (k == 62 || k == 63) then 0xFF
    else if flags & CaseSensitive == 0 then ToLowerTable[k]
    else k
  }

  /** Which codes ps_unpack_ex drops. */
  lemma UnpackExCodeDropped(k: bv8, flags: bv8)
    requires k < 64
    ensures UnpackExCode(k, flags) == 0xFF <==>
      (flags & ContainsDigit == 0 && IsDigitCode(k)) || (flags & ContainsSpecial == 0 && IsSpecialCode(k))
  {
    ToLowerTableSpec();
  }

  /** The characters ps_unpack_ex writes for one code. */
  function ExSymbols(k: bv8, flags: bv8): (t: string)
    requires k < 64
  {
    var r := UnpackExCode(k, flags);
    if r == 0xFF then [] else [SixbitToChar(r)]
  }

  /** The text ps_unpack_ex writes for the codes c, read in order. */
  function UnpackExText(c: seq<bv8>, flags: bv8): (t: string)
    requires AllCodes(c)
    ensures |t| <= |c|
  {
    if |c| == 0 then []
    else UnpackExText(c[..|c| - 1], flags) + ExSymbols(c[|c| - 1], flags)
  }

  /** Every slot of a value holds a code. */
  lemma CodesAreCodes(lo: bv64, hi: bv64)
    ensures AllCodes(Codes(lo, hi))
  {
    forall j | 0 <= j < 22 ensures Codes(lo, hi)[j] < 64 {
      ByteIndex(j);
      assert Codes(lo, hi)[j] == GetN(lo, hi, j as bv8);
    }
  }

  /** The text ps_unpack_ex writes for the first `length` code slots of ps. */
  function ExText(ps: PackedString, length: bv8, flags: bv8): (t: string)
    requires length <= MaxLen
    ensures |t| <= length as int
  {
    CodesAreCodes(ps.lo, ps.hi);
    UnpackExText(Codes(ps.lo, ps.hi)[..length], flags)
  }

  /**
   * ps_unpack_ex: -1 for a NULL buffer, a `length` over 20 or a value
   * whose length field is over 20, with nothing written; otherwise the
   * symbols of the first `length` code slots that the flags keep are
   * written (lower-cased without CASE_SENSITIVE), then a NUL, and their
   * number is returned.  The value's own length field is not consulted.
   */
  method UnpackEx(ps: PackedString, buffer: array?<char>, length: bv8, flags: bv8) returns (r: int)
    requires buffer != null && length <= MaxLen ==> buffer.Length > length as int
    modifies buffer
    ensures r == -1 <==> buffer == null || length > MaxLen || !Valid(ps)
    ensures buffer != null && r == -1 ==> buffer[..] == old(buffer[..])
    ensures r != -1 ==>
      (buffer != null && length <= MaxLen &&
       r == |ExText(ps, length, flags)| && Unpacked(buffer[..], old(buffer[..]), ExText(ps, length, flags)))
  {
    if buffer == null || length > MaxLen || !Valid(ps) {
      return -1;
    }
    ghost var codes := Codes(ps.lo, ps.hi);
    var len: bv8 := 0;
    var i: bv8 := 0;
    UnpackExStart(buffer[..], codes, ps, length, flags);
    while i < length
      invariant UnpackExInvariant(buffer[..], old(buffer[..]), codes, length as int, flags, i as int, len as int)
    {
      var sixbit := GetN(ps.lo, ps.hi, i);
      NextIndex(i, length, codes, ps);
      len := UnpackExEmit(buffer, sixbit, flags, codes, old(buffer[..]), length, i, len);
      i := i + 1;
    }
    ghost var b := buffer[..];
    buffer[len] := '\0';
    assert buffer[..] == b[len as int := '\0'];
    UnpackExDone(b, old(buffer[..]), codes, ps, length, flags, len as int);
    return len as int;
  }

  /**
   * The body of ps_unpack_ex's loop once the code at index i is read:
   * a code the flags filter out is skipped, any other is lower-cased
   * without CASE_SENSITIVE and its symbol written at `len`, which then
   * advances.
   */
  method UnpackExEmit(buffer: array<char>, sixbit: bv8, flags: bv8, ghost codes: seq<bv8>,
                      ghost before: seq<char>, length: bv8, i: bv8, len: bv8) returns (len': bv8)
    requires UnpackExInvariant(buffer[..], before, codes, length as int, flags, i as int, len as int)
    requires i < length && sixbit == codes[i]
    modifies buffer
    ensures UnpackExInvariant(buffer[..], before, codes, length as int, flags, i as int + 1, len' as int)
  {
    var k := UnpackExCode(sixbit, flags);
    ghost var b := buffer[..];
    UnpackExRoom(b, before, codes, length as int, flags, i as int, len);
    len' := len;
    if k != 0xFF {
      buffer[len] := SixbitToChar(k);
      assert buffer[..] == b[len as int := SixbitToChar(k)];
      len' := len + 1;
    }
    UnpackExNext(b, before, codes, length as int, flags, i as int, len as int, sixbit,
                 buffer[..], i as int + 1, len' as int);
  }

  /** The next write stays inside the buffer, and the counters do not wrap. */
  lemma UnpackExRoom(b: seq<char>, before: seq<char>, codes: seq<bv8>,
                     length: int, flags: bv8, i: int, len: bv8)
    requires UnpackExInvariant(b, before, codes, length, flags, i, len as int) && i < length
    ensures len as int < |b| && (len + 1) as int == len as int + 1
  {}

  /**
   * What ps_unpack_ex's loop keeps: the buffer holds the text of the
   * first i slots, then its old bytes.
   */
  ghost predicate UnpackExInvariant(b: seq<char>, before: seq<char>, codes: seq<bv8>,
                                    length: int, flags: bv8, i: int, len: int) {
    0 <= len <= i <= length <= 20 && |b| == |before| > length && |codes| == 22 && AllCodes(codes) &&
    b == UnpackExText(codes[..i], flags) + before[len..]
  }

  lemma UnpackExStart(b: seq<char>, codes: seq<bv8>, ps: PackedString, length: bv8, flags: bv8)
    requires codes == Codes(ps.lo, ps.hi) && length <= MaxLen && |b| > length as int
    ensures UnpackExInvariant(b, b, codes, length as int, flags, 0, 0)
  {
    CodesAreCodes(ps.lo, ps.hi);
  }

  /** The code read at index i is the i-th slot, and the counter does not wrap. */
  lemma NextIndex(i: bv8, length: bv8, codes: seq<bv8>, ps: PackedString)
    requires i < length <= 20 && codes == Codes(ps.lo, ps.hi)
    ensures (i + 1) as int == i as int + 1
    ensures codes[i as int] == GetN(ps.lo, ps.hi, i)
  {}

  /** Appending one code to the codes read appends its symbols to the text. */
  lemma UnpackExTextSnoc(c: seq<bv8>, flags: bv8, j: int)
    requires AllCodes(c) && 0 <= j < |c|
    ensures UnpackExText(c[..j + 1], flags) == UnpackExText(c[..j], flags) + ExSymbols(c[j], flags)
  {
    assert c[..j + 1][..j] == c[..j];
  }

  /** One iteration of ps_unpack_ex's loop keeps its invariant: it writes the code's symbols, if any. */
  lemma UnpackExNext(b: seq<char>, before: seq<char>, codes: seq<bv8>,
                     length: int, flags: bv8, i: int, len: int, k: bv8,
                     b': seq<char>, i': int, len': int)
    requires UnpackExInvariant(b, before, codes, length, flags, i, len) && i < length
    requires k == codes[i] && i' == i + 1
    requires UnpackExCode(k, flags) != 0xFF ==>
      len' == len + 1 && len < |b| && b' == b[len := SixbitToChar(UnpackExCode(k, flags))]
    requires UnpackExCode(k, flags) == 0xFF ==> len' == len && b' == b
    ensures UnpackExInvariant(b', before, codes, length, flags, i', len')
  {
    if UnpackExCode(k, flags) != 0xFF {
      UnpackExWrite(b, before, codes, length, flags, i, len, k);
    } else {
      UnpackExSkip(b, before, codes, length, flags, i, len, k);
    }
  }

  lemma UnpackExWrite(b: seq<char>, before: seq<char>, codes: seq<bv8>,
                      length: int, flags: bv8, i: int, len: int, k: bv8)
    requires UnpackExInvariant(b, before, codes, length, flags, i, len) && i < length
    requires k == codes[i] && UnpackExCode(k, flags) != 0xFF
    ensures len < |b|
    ensures UnpackExInvariant(b[len := SixbitToChar(UnpackExCode(k, flags))],
                              before, codes, length, flags, i + 1, len + 1)
  {
    var x := SixbitToChar(UnpackExCode(k, flags));
    var text := UnpackExText(codes[..i], flags);
    UnpackExTextSnoc(codes, flags, i);
    assert UnpackExText(codes[..i + 1], flags) == text + [x];
    WriteAfter(b, before, text, x);
  }

  /** Writing x just after text, over the old bytes, extends text by x. */
  lemma WriteAfter(b: seq<char>, before: seq<char>, text: string, x: char)
    requires |b| == |before| > |text| && b == text + before[|text|..]
    ensures b[|text| := x] == (text + [x]) + before[|text| + 1..]
  {
    var n := |text|;
    assert b[n := x][..n] == text;
    assert b[n := x][n + 1..] == before[n + 1..];
  }

  lemma UnpackExSkip(b: seq<char>, before: seq<char>, codes: seq<bv8>,
                     length: int, flags: bv8, i: int, len: int, k: bv8)
    requires UnpackExInvariant(b, before, codes, length, flags, i, len) && i < length
    requires k == codes[i] && UnpackExCode(k, flags) == 0xFF
    ensures UnpackExInvariant(b, before, codes, length, flags, i + 1, len)
  {
    UnpackExTextSnoc(codes, flags, i);
  }

  lemma UnpackExDone(b: seq<char>, before: seq<char>, codes: seq<bv8>, ps: PackedString,
                     length: bv8, flags: bv8, len: int)
    requires codes == Codes(ps.lo, ps.hi)
    requires UnpackExInvariant(b, before, codes, length as int, flags, length as int, len)
    ensures length <= MaxLen && len == |ExText(ps, length, flags)| && len < |b|
    ensures Unpacked(b[len := '\0'], before, ExText(ps, length, flags))
  {
    var text := UnpackExText(codes[..length], flags);
    assert |text| == len;
    var b' := b[len := '\0'];
    assert b'[..len] == text;
    assert b'[len + 1..] == before[len + 1..];
  }

  // ---------------------------------------------------------------------
  // What ps_unpack_ex writes

  /** With all three flags declared nothing is dropped or folded: the text is the plain decoding. */
  lemma {:induction false} UnpackExTextAllFlags(c: seq<bv8>, flags: bv8)
    requires AllCodes(c) && flags & 7 == 7
    ensures UnpackExText(c, flags) == Decode(c)
  {
    if |c| > 0 {
      var k := c[|c| - 1];
      UnpackExTextAllFlags(c[..|c| - 1], flags);
      UnpackExCodeDropped(k, flags);
      assert ExSymbols(k, flags) == [SixbitToChar(k)];
      assert Decode(c) == Decode(c[..|c| - 1]) + [SixbitToChar(k)];
    }
  }

  /** ps_unpack_ex of a valid value at its own length with all flags declared is ps_unpack's text. */
  lemma UnpackExAllFlags(ps: PackedString, flags: bv8)
    requires Valid(ps) && flags & 7 == 7
    ensures Length(ps) <= MaxLen && ExText(ps, Length(ps), flags) == Decode(Content(ps))
  {
    ValidLength(ps);
    CodesAreCodes(ps.lo, ps.hi);
    UnpackExTextAllFlags(Codes(ps.lo, ps.hi)[..Length(ps)], flags);
  }

  /**
   * Every written character is in the alphabet, and no digit, no '_' or
   * '$' and no upper-case letter is written unless the matching flag is
   * declared.
   */
  lemma {:induction false} UnpackExTextFilters(c: seq<bv8>, flags: bv8)
    requires AllCodes(c)
    ensures forall j | 0 <= j < |UnpackExText(c, flags)| :: InAlphabet(UnpackExText(c, flags)[j])
    ensures flags & ContainsDigit == 0 ==>
      forall j | 0 <= j < |UnpackExText(c, flags)| :: !IsDigit(UnpackExText(c, flags)[j])
    ensures flags & ContainsSpecial == 0 ==>
      forall j | 0 <= j < |UnpackExText(c, flags)| :: !IsSpecial(UnpackExText(c, flags)[j])
    ensures flags & CaseSensitive == 0 ==>
      forall j | 0 <= j < |UnpackExText(c, flags)| :: !IsUpper(UnpackExText(c, flags)[j])
  {
    if |c| > 0 {
      var k := c[|c| - 1];
      UnpackExTextFilters(c[..|c| - 1], flags);
      var r := UnpackExCode(k, flags);
      if r != 0xFF {
        UnpackExCodeDropped(k, flags);
        SixbitToCharInAlphabet(r);
        assert SixbitToChar(r) == SixbitToCharTable[r];
      }
    }
  }

  /** The class of an alphabet character is the class of its code. */
  lemma CodeClasses(x: char)
    requires InAlphabet(x)
    ensures IsDigit(x) <==> IsDigitCode(CharToSixbit(x))
    ensures IsUpper(x) <==> IsUpperCode(CharToSixbit(x))
    ensures IsSpecial(x) <==> IsSpecialCode(CharToSixbit(x))
  {
    var k := CharToSixbit(x);
    CharRoundTrip(x);
    SixbitToCharInAlphabet(k);
    assert SixbitToChar(k) == SixbitToCharTable[k];
  }

  /** ps_unpack_ex keeps, unchanged, the code of a character ps_pack_ex accepted and folded. */
  lemma UnpackExCodeFolded(c: char, flags: bv8)
    requires ExAllowed(c, flags)
    ensures ExKept(ExChar(c, flags), flags)
  {
    var x := ExChar(c, flags);
    ExCharInAlphabet(c, flags);
    var k := CharToSixbit(x);
    CodeClasses(x);
    UnpackExCodeDropped(k, flags);
    CharRoundTrip(x);
  }

  /** A character whose code ps_unpack_ex writes back as that character. */
  predicate ExKept(x: char, flags: bv8) {
    InAlphabet(x) && UnpackExCode(CharToSixbit(x), flags) == CharToSixbit(x)
  }

  /** Unpacking the codes of kept characters gives the characters back. */
  lemma {:induction false} UnpackExTextEncode(t: string, flags: bv8)
    requires forall j | 0 <= j < |t| :: ExKept(t[j], flags)
    ensures AllCodes(Encode(t))
    ensures UnpackExText(Encode(t), flags) == t
  {
    EncodeKept(t, flags);
    if |t| > 0 {
      var n := |t| - 1;
      UnpackExTextEncode(t[..n], flags);
      EncodePrefix(t, n);
      ExSymbolsKept(t[n], flags);
      UnpackExTextLast(Encode(t), flags, t[..n], t[n]);
      assert t == t[..n] + [t[n]];
    }
  }

  lemma EncodePrefix(t: string, n: nat)
    requires n <= |t|
    ensures Encode(t)[..n] == Encode(t[..n])
  {}

  lemma UnpackExTextLast(c: seq<bv8>, flags: bv8, u: string, x: char)
    requires AllCodes(c) && |c| > 0
    requires UnpackExText(c[..|c| - 1], flags) == u
    requires ExSymbols(c[|c| - 1], flags) == [x]
    ensures UnpackExText(c, flags) == u + [x]
  {}

  /** Kept characters encode to codes. */
  lemma EncodeKept(t: string, flags: bv8)
    requires forall j | 0 <= j < |t| :: ExKept(t[j], flags)
    ensures AllCodes(Encode(t))
  {
    forall j | 0 <= j < |t| ensures Encode(t)[j] < 64 {
      ExSymbolsKept(t[j], flags);
    }
  }

  /** A kept character is written back as itself. */
  lemma ExSymbolsKept(x: char, flags: bv8)
    requires ExKept(x, flags)
    ensures CharToSixbit(x) < 64 && ExSymbols(CharToSixbit(x), flags) == [x]
  {
    CharRoundTrip(x);
  }

  /** Unpacking the codes of accepted, folded characters gives the folded characters back. */
  lemma UnpackExTextFolded(s: string, flags: bv8)
    requires forall j | 0 <= j < |s| :: ExAllowed(s[j], flags)
    ensures AllCodes(Encode(FoldEx(s, flags)))
    ensures UnpackExText(Encode(FoldEx(s, flags)), flags) == FoldEx(s, flags)
  {
    var t := FoldEx(s, flags);
    forall j | 0 <= j < |t| ensures ExKept(t[j], flags) {
      UnpackExCodeFolded(s[j], flags);
      ExCharInAlphabet(s[j], flags);
      CharRoundTrip(t[j]);
    }
    UnpackExTextEncode(t, flags);
  }

  /**
   * With all three flags declared and the string's own length, ps_pack_ex
   * accepts exactly what ps_pack accepts and builds the same value.
   */
  lemma PackExAllFlagsIsPack(s: string, flags: bv8, a: PackedString, b: PackedString)
    requires flags & 7 == 7 && |s| <= 20
    ensures PackExAccepts(Some(s), |s| as bv8, flags) <==> Packable(Some(s))
    ensures (Packable(Some(s)) && Represents(a, Encode(s), CharFlags(s)) &&
             Represents(b, Encode(FoldEx(s[..|s| as bv8], flags)), PrefixFlags(s, |s|))) ==> a == b
  {
    AllFlagsAccepts(s, flags);
    AllFlagsSameTarget(s, flags);
    if Represents(a, Encode(s), CharFlags(s)) && Represents(b, Encode(s), CharFlags(s)) {
      RepresentsUnique(a, b, Encode(s), CharFlags(s));
    }
  }

  /** With every flag declared, ps_pack_ex accepts the whole string exactly when ps_pack does. */
  lemma AllFlagsAccepts(s: string, flags: bv8)
    requires flags & 7 == 7 && |s| <= 20
    ensures PackExAccepts(Some(s), |s| as bv8, flags) <==> Packable(Some(s))
  {
    ByteIndex(|s|);
    AllFlagsAllowAlphabet(s, flags);
  }

  /** With every flag declared, ps_pack_ex encodes the same codes and flags as ps_pack. */
  lemma AllFlagsSameTarget(s: string, flags: bv8)
    requires flags & 7 == 7 && |s| <= 20
    ensures Encode(FoldEx(s[..|s| as bv8], flags)) == Encode(s) && PrefixFlags(s, |s|) == CharFlags(s)
  {
    ByteIndex(|s|);
    assert s[..|s| as bv8] == s;
    AllFlagsFoldNothing(s, flags);
  }

  lemma AllFlagsSet(flags: bv8)
    requires flags & 7 == 7
    ensures flags & CaseSensitive != 0 && flags & ContainsDigit != 0 && flags & ContainsSpecial != 0
  {}

  /** With every flag declared, ps_pack_ex allows exactly the alphabet. */
  lemma AllFlagsAllowAlphabet(s: string, flags: bv8)
    requires flags & 7 == 7
    ensures forall j | 0 <= j < |s| :: ExAllowed(s[j], flags) <==> InAlphabet(s[j])
  {
    AllFlagsSet(flags);
  }

  /** With CASE_SENSITIVE declared, ps_pack_ex folds nothing. */
  lemma AllFlagsFoldNothing(s: string, flags: bv8)
    requires flags & 7 == 7
    ensures FoldEx(s, flags) == s
  {
    AllFlagsSet(flags);
    assert forall i | 0 <= i < |s| :: FoldEx(s, flags)[i] == s[i];
  }

  /**
   * ps_unpack_ex undoes ps_pack_ex under the same length and flags: the
   * text written is the accepted prefix, folded to lower case when
   * CASE_SENSITIVE is not declared.
   */
  lemma PackExUnpackExRoundTrip(str: Option<string>, length: bv8, flags: bv8, r: PackedString)
    requires PackExAccepts(str, length, flags)
    requires Represents(r, Encode(FoldEx(str.value[..length], flags)), PrefixFlags(str.value, length as int))
    ensures Valid(r) && ExText(r, length, flags) == FoldEx(str.value[..length], flags)
  {
    var s := str.value[..length];
    var c := Encode(FoldEx(s, flags));
    RepresentsContent(r, c, PrefixFlags(str.value, length as int));
    UnpackExTextFolded(s, flags);
    assert Codes(r.lo, r.hi)[..length] == Content(r);
  }
}
