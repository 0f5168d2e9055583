/**
 * Code search and the identifier test (packed16/packed-string.c):
 * ps_find_six, ps_find_from_six, ps_find_last_six, ps_contains_six,
 * ps_contains and ps_is_valid_identifier.
 *
 * The forward searches go through ps_find, which walks code slots up to
 * 19 whatever the length; the backward ones through ps_reverse_find from
 * len - 1.  ps_contains tries ps_is_at at every start; this model uses
 * its corrected form IsAt, which agrees with the code as written wherever
 * that is defined (HelperScan.IsAtAsWrittenAgrees).
 */
module Finding {
  import opened Encoding
  import opened Helper
  import opened HelperScan
  import opened Packed
  import opened Searching
  import opened CodeSeqs

  // ---------------------------------------------------------------------
  // Reference definitions on code sequences

  /** The first index at or after start where c holds x, or -1. */
  function IndexFrom(c: seq<bv8>, start: int, x: bv8): (r: int)
    requires 0 <= start
    ensures r == -1 || (start <= r < |c| && c[r] == x)
    ensures forall j | start <= j < |c| && (r == -1 || j < r) :: c[j] != x
    decreases |c| - start
  {
    if start >= |c| then -1
    else if c[start] == x then start
    else IndexFrom(c, start + 1, x)
  }

  /** The last index of c holding x, or -1. */
  function LastIndex(c: seq<bv8>, x: bv8): (r: int)
    ensures r == -1 || (0 <= r < |c| && c[r] == x)
    ensures forall j | 0 <= j < |c| && r < j :: c[j] != x
  {
    if |c| == 0 then -1
    else if c[|c| - 1] == x then |c| - 1
    else LastIndex(c[..|c| - 1], x)
  }

  /** p occurs in c at index k. */
  predicate MatchAt(c: seq<bv8>, p: seq<bv8>, k: int) {
    0 <= k && k + |p| <= |c| && c[k..k + |p|] == p
  }

  /** p occurs in c as a run of consecutive codes. */
  ghost predicate Occurs(c: seq<bv8>, p: seq<bv8>) {
    exists k :: MatchAt(c, p, k)
  }

  /** Any r with the first-occurrence property is IndexFrom. */
  lemma IndexFromUnique(c: seq<bv8>, start: int, x: bv8, r: int)
    requires 0 <= start
    requires r == -1 || (start <= r < |c| && c[r] == x)
    requires forall j | start <= j < |c| && (r == -1 || j < r) :: c[j] != x
    ensures IndexFrom(c, start, x) == r
  {
    var f := IndexFrom(c, start, x);
    if f != -1 && r != -1 {
      assert !(f < r) && !(r < f);
    }
  }

  /** Any r with the last-occurrence property is LastIndex. */
  lemma LastIndexUnique(c: seq<bv8>, x: bv8, r: int)
    requires r == -1 || (0 <= r < |c| && c[r] == x)
    requires forall j | 0 <= j < |c| && r < j :: c[j] != x
    ensures LastIndex(c, x) == r
  {
    var f := LastIndex(c, x);
    if f != -1 && r != -1 {
      assert !(f < r) && !(r < f);
    }
  }

  /**
   * A first occurrence from start found over slots below 20 of c is the
   * first occurrence within the prefix of n codes when it lies below n,
   * and there is none in that prefix otherwise.
   */
  lemma IndexFromPrefix(c: seq<bv8>, n: int, start: int, x: bv8, f: int)
    requires 0 <= start && 0 <= n <= 20 <= |c|
    requires f == -1 || (start <= f < 20 && c[f] == x)
    requires forall j | start <= j < 20 && (f == -1 || j < f) :: c[j] != x
    ensures IndexFrom(c[..n], start, x) == if f != -1 && f < n then f else -1
  {
    IndexFromUnique(c[..n], start, x, if f != -1 && f < n then f else -1);
  }

  /** Every code of a value is below 64. */
  lemma CodesBelow64(lo: bv64, hi: bv64)
    ensures forall j | 0 <= j < 22 :: Codes(lo, hi)[j] < 64
  {
    forall j | 0 <= j < 22
      ensures Codes(lo, hi)[j] < 64
    {
      ByteIndex(j);
    }
  }

  /** The content of a valid value is the prefix of its code slots. */
  lemma ContentPrefix(ps: PackedString)
    requires Valid(ps)
    ensures Length(ps) as int <= 20 && Content(ps) == Codes(ps.lo, ps.hi)[..Length(ps) as int]
  {
    ValidLength(ps);
  }

  // ---------------------------------------------------------------------
  // ps_find_six, ps_find_from_six

  /**
   * ps_find_from_six as written: -1 for a code of 64 or more or a start
   * at or past the length, otherwise ps_find from start, which looks at
   * the slots up to 19 whatever the length is.
   */
  function FindFromSix(ps: PackedString, sixbit: bv8, start: bv8): (r: int)
    ensures r == -1 || (start as int <= r < 20 && Codes(ps.lo, ps.hi)[r] == sixbit)
    ensures sixbit >= 64 || start >= Length(ps) ==> r == -1
  {
    if sixbit >= 64 then -1
    else if start >= Length(ps) then -1
    else Find(ps.lo, ps.hi, start, sixbit)
  }

  /** ps_find_six as written: -1 for a code of 64 or more or an empty value, else ps_find from 0. */
  function FindSix(ps: PackedString, sixbit: bv8): (r: int)
    ensures r == -1 || (0 <= r < 20 && Codes(ps.lo, ps.hi)[r] == sixbit)
    ensures sixbit >= 64 || Length(ps) == 0 ==> r == -1
  {
    if sixbit >= 64 then -1
    else if Length(ps) == 0 then -1
    else Find(ps.lo, ps.hi, 0, sixbit)
  }

  /** ps_find_six is ps_find_from_six from 0. */
  lemma FindSixIsFromZero(ps: PackedString, sixbit: bv8)
    ensures FindSix(ps, sixbit) == FindFromSix(ps, sixbit, 0)
  {}

  /** ps_find_from_six with the hit required to lie below the length. */
  function FindFromSixIntended(ps: PackedString, sixbit: bv8, start: bv8): (r: int)
    ensures r == -1 || (start as int <= r < Length(ps) as int && r < 20)
  {
    var f := FindFromSix(ps, sixbit, start);
    if f < Length(ps) as int then f else -1
  }

  /**
   * The corrected search on a valid value is the first occurrence of the
   * code in its content at or after start.
   */
  lemma FindFromSixIntendedContent(ps: PackedString, sixbit: bv8, start: bv8)
    requires Valid(ps)
    ensures FindFromSixIntended(ps, sixbit, start) == IndexFrom(Content(ps), start as int, sixbit)
  {
    ContentPrefix(ps);
    if sixbit >= 64 || start >= Length(ps) {
      NoIndexFrom(ps, sixbit, start);
    } else {
      IndexFromPrefix(Codes(ps.lo, ps.hi), Length(ps) as int, start as int, sixbit, Find(ps.lo, ps.hi, start, sixbit));
    }
  }

  /** No code of 64 or more occurs, and nothing occurs from the length on. */
  lemma NoIndexFrom(ps: PackedString, sixbit: bv8, start: bv8)
    requires Valid(ps) && (sixbit >= 64 || start >= Length(ps))
    ensures IndexFrom(Content(ps), start as int, sixbit) == -1
  {
    ContentPrefix(ps);
    CodesBelow64(ps.lo, ps.hi);
    IndexFromUnique(Content(ps), start as int, sixbit, -1);
  }

  /**
   * ps_find_from_six as written on a valid value: a hit below the length
   * is the first occurrence in the content, and on a clean value the only
   * hits past the length are for code 0, which fills the unused slots.
   */
  lemma FindFromSixAgrees(ps: PackedString, sixbit: bv8, start: bv8)
    requires Valid(ps)
    ensures FindFromSix(ps, sixbit, start) < Length(ps) as int
        ==> FindFromSix(ps, sixbit, start) == IndexFrom(Content(ps), start as int, sixbit)
    ensures Clean(ps) && sixbit != 0
        ==> FindFromSix(ps, sixbit, start) == IndexFrom(Content(ps), start as int, sixbit)
  {
    FindFromSixIntendedContent(ps, sixbit, start);
    if Clean(ps) {
      CleanCodesZero(ps);
    }
  }

  /** A clean value holds code 0 in every slot from its length to 19. */
  lemma CleanCodesZero(ps: PackedString)
    requires Clean(ps)
    ensures forall j | Length(ps) as int <= j < 20 :: Codes(ps.lo, ps.hi)[j] == 0
  {
    CleanPayload(ps);
    forall j | Length(ps) as int <= j < 20
      ensures Codes(ps.lo, ps.hi)[j] == 0
    {
      assert Payload(ps.lo, ps.hi)[j] == 0;
    }
  }

  /**
   * ps_find_six as written, for a code the content of a clean value of 1
   * to 19 codes lacks: -1, except for code 0 (the digit '0'), where it
   * returns the length, the first unused slot, though the content has no
   * match.
   */
  lemma FindSixAbsent(ps: PackedString, x: bv8)
    requires Clean(ps) && 0 < Length(ps) < 20 && x !in Content(ps)
    ensures FindSix(ps, x) == if x == 0 then Length(ps) as int else -1
    ensures IndexFrom(Content(ps), 0, x) == -1
  {
    CleanCodesZero(ps);
    if x < 64 {
      FirstFreeSlot(ps, x);
    }
    IndexFromUnique(Content(ps), 0, x, -1);
  }

  /**
   * ps_find from 0 for a code absent from the content stops at the first
   * slot past the length holding it: the first unused one for code 0.
   */
  lemma FirstFreeSlot(ps: PackedString, x: bv8)
    requires Valid(ps) && 0 < Length(ps) < 20
    requires forall j | Length(ps) as int <= j < 20 :: Codes(ps.lo, ps.hi)[j] == 0
    requires x !in Content(ps)
    ensures Find(ps.lo, ps.hi, 0, x) == if x == 0 then Length(ps) as int else -1
  {
    FirstAbsentAt(Codes(ps.lo, ps.hi), Length(ps) as int, Content(ps), x, Find(ps.lo, ps.hi, 0, x));
  }

  /**
   * Over slots below 20 of c, zero from n on, the first x lies at n for
   * x = 0 and nowhere otherwise, when the n codes before, t, lack x.
   */
  lemma FirstAbsentAt(c: seq<bv8>, n: int, t: seq<bv8>, x: bv8, f: int)
    requires |c| == 22 && 0 < n < 20
    requires forall j | n <= j < 20 :: c[j] == 0
    requires t == c[..n] && x !in t
    requires f == -1 || (0 <= f < 20 && c[f] == x)
    requires forall j | 0 <= j < 20 && (f == -1 || j < f) :: c[j] != x
    ensures f == if x == 0 then n else -1
  {
    assert c[n] == 0;
    forall j | 0 <= j < n
      ensures c[j] != x
    {
      assert t[j] == c[j];
    }
  }

  // ---------------------------------------------------------------------
  // ps_find_last_six, ps_contains_six

  /** ps_find_last_six: -1 for a code of 64 or more or an empty value, else ps_reverse_find from len - 1. */
  function FindLastSix(ps: PackedString, sixbit: bv8): (r: int)
    ensures r == -1 || (0 <= r < Length(ps) as int && r < 20 && Codes(ps.lo, ps.hi)[r] == sixbit)
  {
    if sixbit >= 64 then -1
    else if Length(ps) == 0 then -1
    else
      var idx := Length(ps) - 1;
      assert idx as int == Length(ps) as int - 1;
      ReverseFind(ps.lo, ps.hi, idx, sixbit)
  }

  /** On a valid value ps_find_last_six is the last occurrence in the content. */
  lemma FindLastSixContent(ps: PackedString, sixbit: bv8)
    requires Valid(ps)
    ensures FindLastSix(ps, sixbit) == LastIndex(Content(ps), sixbit)
  {
    ContentPrefix(ps);
    CodesBelow64(ps.lo, ps.hi);
    LastIndexUnique(Content(ps), sixbit, FindLastSix(ps, sixbit));
  }

  /** ps_contains_six: whether ps_reverse_find from len - 1 finds the code. */
  function ContainsSix(ps: PackedString, sixbit: bv8): (r: bool)
    ensures r ==> sixbit < 64 && Length(ps) > 0
  {
    if sixbit >= 64 then false
    else if Length(ps) == 0 then false
    else ReverseFind(ps.lo, ps.hi, Length(ps) - 1, sixbit) != -1
  }

  /** On a valid value ps_contains_six is membership in the content. */
  lemma ContainsSixContent(ps: PackedString, sixbit: bv8)
    requires Valid(ps)
    ensures ContainsSix(ps, sixbit) <==> sixbit in Content(ps)
    ensures ContainsSix(ps, sixbit) <==> FindLastSix(ps, sixbit) != -1
  {
    FindLastSixContent(ps, sixbit);
    if sixbit in Content(ps) {
      var j :| 0 <= j < |Content(ps)| && Content(ps)[j] == sixbit;
      assert LastIndex(Content(ps), sixbit) != -1;
    }
  }

  // ---------------------------------------------------------------------
  // ps_contains

  /**
   * ps_contains: false when the pattern is longer, otherwise ps_is_at at
   * every start 0 .. n - m, true at the first that matches.  A length
   * field of 22 or more makes ps_is_at shift past the words and is
   * excluded.
   */
  method Contains(ps: PackedString, pat: PackedString) returns (found: bool)
    requires Length(ps) <= 21
    ensures Valid(ps) && Valid(pat) ==> (found <==> Occurs(Content(ps), Content(pat)))
  {
    ghost var ok, c, p := ContentsOf(ps, pat);
    var n := Length(ps);
    var m := Length(pat);
    if m > n {
      if ok {
        NoOccurrenceWhenLonger(c, p);
      }
      return false;
    }
    var i: bv8 := 0;
    while i <= n - m
      invariant i <= n - m + 1
      invariant ok ==> NoneBefore(c, p, i as int)
      decreases 22 - i as int
    {
      StartBounds(n, m, i);
      found := ContainsAt(ps, pat, i, ok, c, p);
      if found {
        return;
      }
      i := i + 1;
    }
    if ok {
      LoopExit(n, m, i);
      NoneAtAll(c, p, i as int);
    }
    return false;
  }

  /** Whether both values are valid, and then their contents. */
  lemma ContentsOf(ps: PackedString, pat: PackedString) returns (ok: bool, c: seq<bv8>, p: seq<bv8>)
    ensures ok == (Valid(ps) && Valid(pat))
    ensures ok ==> c == Content(ps) && p == Content(pat)
    ensures ok ==> |c| == Length(ps) as int && |p| == Length(pat) as int
  {
    ok, c, p := Valid(ps) && Valid(pat), [], [];
    if ok {
      c, p := Content(ps), Content(pat);
    }
  }

  /** A start the loop tries fits the pattern below the length, and the next start does not wrap. */
  lemma StartBounds(n: bv8, m: bv8, i: bv8)
    requires m <= n <= 21 && i <= n - m
    ensures i as int + m as int <= n as int && (i + 1) as int == i as int + 1
  {}

  /** The loop stops one past n - m. */
  lemma LoopExit(n: bv8, m: bv8, i: bv8)
    requires m <= n <= 21 && i <= n - m + 1 && !(i <= n - m)
    ensures i as int == n as int - m as int + 1
  {}

  /** No start below i has the pattern. */
  ghost predicate NoneBefore(c: seq<bv8>, p: seq<bv8>, i: int) {
    forall k | k < i :: !MatchAt(c, p, k)
  }

  /** One turn of ps_contains's loop: ps_is_at at start i. */
  method ContainsAt(ps: PackedString, pat: PackedString, i: bv8, ghost ok: bool, ghost c: seq<bv8>, ghost p: seq<bv8>)
    returns (hit: bool)
    requires Length(pat) <= Length(ps) <= 21 && i <= Length(ps) - Length(pat)
    requires ok ==> Valid(ps) && Valid(pat) && c == Content(ps) && p == Content(pat)
    ensures ok && hit ==> Occurs(c, p)
    ensures ok && NoneBefore(c, p, i as int) && !hit ==> NoneBefore(c, p, (i + 1) as int)
  {
    StartBounds(Length(ps), Length(pat), i);
    hit := IsAt(ps.lo, ps.hi, Length(ps), pat.lo, pat.hi, Length(pat), i);
    if ok {
      ContainsStep(ps, pat, i, hit);
      MatchStep(c, p, i as int, hit);
    }
  }

  /** ps_is_at at start i is a match of the pattern's content at i. */
  lemma ContainsStep(ps: PackedString, pat: PackedString, i: bv8, hit: bool)
    requires Valid(ps) && Valid(pat)
    requires IsAtDefined(Length(ps), Length(pat), i)
    requires hit == IsAt(ps.lo, ps.hi, Length(ps), pat.lo, pat.hi, Length(pat), i)
    ensures hit <==> MatchAt(Content(ps), Content(pat), i as int)
  {
    IsAtContent(ps, pat, i);
  }

  /** A match at k is an occurrence; no match at k extends the checked prefix. */
  lemma MatchStep(c: seq<bv8>, p: seq<bv8>, k: int, hit: bool)
    requires 0 <= k && (hit <==> MatchAt(c, p, k))
    ensures hit ==> Occurs(c, p)
    ensures NoneBefore(c, p, k) && !hit ==> NoneBefore(c, p, k + 1)
  {}

  /** A pattern longer than the content does not occur. */
  lemma NoOccurrenceWhenLonger(c: seq<bv8>, p: seq<bv8>)
    requires |p| > |c|
    ensures !Occurs(c, p)
  {}

  /** Every start up to |c| - |p| checked: no occurrence. */
  lemma NoneAtAll(c: seq<bv8>, p: seq<bv8>, i: int)
    requires |p| <= |c| && i == |c| - |p| + 1 && NoneBefore(c, p, i)
    ensures !Occurs(c, p)
  {}

  // ---------------------------------------------------------------------
  // ps_is_valid_identifier

  /** ps_is_valid_identifier: the low six bits of lo (code 0) are above 9. */
  predicate IsValidIdentifier(ps: PackedString) {
    (ps.lo & 0x3F) > 9
  }

  /**
   * The test reads code 0: a clean value is an identifier exactly when it
   * is non-empty and its first code is not a digit (an empty clean value
   * has code 0 there, the digit '0').
   */
  lemma IsValidIdentifierContent(ps: PackedString)
    requires Clean(ps)
    ensures IsValidIdentifier(ps) <==> |Content(ps)| > 0 && !IsDigitCode(Content(ps)[0])
  {
    ValidLength(ps);
    assert GetN(ps.lo, ps.hi, 0) == (ps.lo & 0x3F) as bv8;
    if Length(ps) == 0 {
      assert GetN(ps.lo, ps.hi, 0) == 0;
    }
  }
}
