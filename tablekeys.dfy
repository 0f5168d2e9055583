/**
 * The key types of the two Robin Hood tables and their hashes:
 * hash-table/ps-robinhood.h keys a table by packed string (psrh_hash64,
 * compared word by word), hash-table/cs-robinhood.h by NUL-terminated
 * C string (csrh_hash64, FNV-1a over the bytes, compared with strcmp).
 * Both tables are RobinHood.Table with the hash below.
 */
module TableKeys {
  import opened Packed
  import opened RobinHood

  // ---------------------------------------------------------------------
  // psrh_hash64

  /** `k.hi * 0x9E3779B97F4A7C15`, modulo 2^64. */
  function GoldenMul(x: bv64): bv64 {
    x * 0x9E3779B97F4A7C15
  }

  /** Multiplication by the inverse of 0x9E3779B97F4A7C15 modulo 2^64. */
  function GoldenUnmul(x: bv64): bv64 {
    x * 0xf1de83e19937733d
  }

  lemma GoldenInverse(x: bv64)
    ensures GoldenUnmul(x * 0x9E3779B97F4A7C15) == x
  {}

  lemma GoldenMulUndone(x: bv64)
    ensures GoldenUnmul(GoldenMul(x)) == x
  {
    assert GoldenMul(x) == x * 0x9E3779B97F4A7C15;
    GoldenInverse(x);
  }

  /** The word psrh_hash64 mixes: lo xor the scrambled hi. */
  function PsrhFold(k: PackedString): bv64 {
    k.lo ^ GoldenMul(k.hi)
  }

  /** psrh_hash64: the MurmurHash3 finalizer applied to the folded word. */
  function PsrhHash64(k: PackedString): bv64 {
    Fmix64(PsrhFold(k))
  }

  /** Two packed strings collide in psrh_hash64 exactly when their folded words are equal. */
  lemma PsrhHashCollision(a: PackedString, b: PackedString)
    ensures PsrhHash64(a) == PsrhHash64(b) <==> PsrhFold(a) == PsrhFold(b)
  {
    Fmix64Injective(PsrhFold(a), PsrhFold(b));
  }

  lemma XorLeftCancel(x: bv64, y: bv64, z: bv64)
    ensures x ^ y == x ^ z ==> y == z
  {}

  lemma XorRightCancel(x: bv64, y: bv64, z: bv64)
    ensures x ^ z == y ^ z ==> x == y
  {}

  /** Equal lo words and different hi words fold apart: the multiply is invertible. */
  lemma FoldSameLo(a: PackedString, b: PackedString)
    requires a.lo == b.lo && a.hi != b.hi
    ensures PsrhFold(a) != PsrhFold(b)
  {
    GoldenMulInjective(a.hi, b.hi);
    XorLeftCancel(a.lo, GoldenMul(a.hi), GoldenMul(b.hi));
  }

  /** The scrambling multiply is injective: it has an inverse. */
  lemma GoldenMulInjective(x: bv64, y: bv64)
    ensures GoldenMul(x) == GoldenMul(y) ==> x == y
  {
    GoldenMulUndone(x);
    GoldenMulUndone(y);
  }

  /** Equal hi words and different lo words fold apart. */
  lemma FoldSameHi(a: PackedString, b: PackedString)
    requires a.hi == b.hi && a.lo != b.lo
    ensures PsrhFold(a) != PsrhFold(b)
  {
    XorRightCancel(a.lo, b.lo, GoldenMul(a.hi));
  }

  /**
   * Keys that differ in exactly one of their two words never collide:
   * the hi word is scrambled by an invertible multiply, and the
   * finalizer is a bijection.
   */
  lemma PsrhOneWordApart(a: PackedString, b: PackedString)
    requires (a.lo == b.lo) != (a.hi == b.hi)
    ensures PsrhHash64(a) != PsrhHash64(b)
  {
    PsrhHashCollision(a, b);
    if a.lo == b.lo {
      FoldSameLo(a, b);
    } else {
      FoldSameHi(a, b);
    }
  }

  // ---------------------------------------------------------------------
  // csrh_hash64

  /** A C string's bytes before its terminator: no NUL among them. */
  predicate NoNul(s: seq<bv8>) {
    forall i | 0 <= i < |s| :: s[i] != 0
  }

  /** One FNV-1a step: `h ^= byte; h *= 1099511628211` modulo 2^64. */
  function FnvStep(h: bv64, b: bv8): bv64 {
    FnvMul(h ^ b as bv64)
  }

  /** Multiplication by the inverse of the FNV prime modulo 2^64. */
  function FnvUnmul(h: bv64): bv64 {
    h * 0xce965057aff6957b
  }

  /** FNV-1a from the state h over the bytes of s, first to last. */
  function FnvFrom(h: bv64, s: seq<bv8>): bv64 {
    if |s| == 0 then h else FnvStep(FnvFrom(h, s[..|s| - 1]), s[|s| - 1])
  }

  /** csrh_hash64 of a C string whose bytes are s: FNV-1a from the offset basis 1469598103934665603. */
  function CsrhHash(s: seq<bv8>): bv64 {
    FnvFrom(1469598103934665603, s)
  }

  /**
   * csrh_hash64 on memory holding a C string: the bytes from the start up
   * to the first NUL, which is at n.
   */
  method CsrhHash64(mem: seq<bv8>, ghost n: nat) returns (h: bv64)
    requires n < |mem| && mem[n] == 0 && NoNul(mem[..n])
    ensures h == CsrhHash(mem[..n])
  {
    h := 1469598103934665603;
    var i := 0;
    while mem[i] != 0
      invariant i <= n && h == FnvFrom(1469598103934665603, mem[..i])
      decreases n - i
    {
      assert mem[..n][i] == mem[i];
      assert mem[..i + 1][..i] == mem[..i];
      h := FnvStep(h, mem[i]);
      i := i + 1;
    }
  }

  /** Hashing a + b is hashing b from the state a leaves. */
  lemma {:induction false} FnvAppend(h: bv64, a: seq<bv8>, b: seq<bv8>)
    ensures FnvFrom(h, a + b) == FnvFrom(FnvFrom(h, a), b)
    decreases |b|
  {
    if |b| == 0 {
      assert a + b == a;
    } else {
      assert (a + b)[..|a + b| - 1] == a + b[..|b| - 1];
      FnvAppend(h, a, b[..|b| - 1]);
    }
  }

  /** `x * 1099511628211`, modulo 2^64. */
  function FnvMul(x: bv64): bv64 {
    x * 1099511628211
  }

  lemma FnvInverse(x: bv64)
    ensures FnvUnmul(x * 1099511628211) == x
  {}

  lemma FnvMulUndone(x: bv64)
    ensures FnvUnmul(FnvMul(x)) == x
  {
    assert FnvMul(x) == x * 1099511628211;
    FnvInverse(x);
  }

  lemma FnvStepUndone(h: bv64, b: bv8)
    ensures FnvUnmul(FnvStep(h, b)) == h ^ b as bv64
  {
    FnvMulUndone(h ^ b as bv64);
  }

  /** One step loses nothing: the state and the byte are fixed by the result once either is known. */
  lemma FnvStepInjective(g: bv64, h: bv64, x: bv8, y: bv8)
    ensures FnvStep(g, x) == FnvStep(h, x) ==> g == h
    ensures FnvStep(h, x) == FnvStep(h, y) ==> x == y
  {
    FnvStepUndone(g, x);
    FnvStepUndone(h, x);
    FnvStepUndone(h, y);
    XorRightCancel(g, h, x as bv64);
    XorLeftCancel(h, x as bv64, y as bv64);
  }

  /** A common suffix neither creates nor removes a collision. */
  lemma {:induction false} FnvSuffix(g: bv64, h: bv64, s: seq<bv8>)
    ensures FnvFrom(g, s) == FnvFrom(h, s) <==> g == h
    decreases |s|
  {
    if |s| > 0 {
      FnvSuffix(g, h, s[..|s| - 1]);
      FnvStepInjective(FnvFrom(g, s[..|s| - 1]), FnvFrom(h, s[..|s| - 1]), s[|s| - 1], s[|s| - 1]);
    }
  }

  /** Strings a + c and b + c collide in csrh_hash64 exactly when a and b do. */
  lemma CsrhCommonSuffix(a: seq<bv8>, b: seq<bv8>, c: seq<bv8>)
    ensures CsrhHash(a + c) == CsrhHash(b + c) <==> CsrhHash(a) == CsrhHash(b)
  {
    FnvAppend(1469598103934665603, a, c);
    FnvAppend(1469598103934665603, b, c);
    FnvSuffix(CsrhHash(a), CsrhHash(b), c);
  }

  /** Strings equal but for their last byte never collide. */
  lemma CsrhLastByte(a: seq<bv8>, x: bv8, y: bv8)
    requires x != y
    ensures CsrhHash(a + [x]) != CsrhHash(a + [y])
  {
    assert (a + [x])[..|a|] == a && (a + [y])[..|a|] == a;
    FnvStepInjective(CsrhHash(a), CsrhHash(a), x, y);
  }

  // ---------------------------------------------------------------------
  // The two tables

  /**
   * psrh_init: a table keyed by packed string.  Zeroed slot memory holds
   * the all-zero packed string.
   */
  method NewPsrh(capacity: nat) returns (t: Table<PackedString>)
    ensures fresh(t) && t.Valid() && t.contents == map[] && t.capacity >= capacity
    ensures forall k :: t.hash(k) == PsrhHash64(k)
  {
    t := new Table<PackedString>.Init(capacity, PsrhHash64, PackedString(0, 0));
  }

  /**
   * csrh_init: a table keyed by C string (its bytes before the NUL).
   * Zeroed slot memory holds a null pointer, modelled as the empty string.
   */
  method NewCsrh(capacity: nat) returns (t: Table<seq<bv8>>)
    ensures fresh(t) && t.Valid() && t.contents == map[] && t.capacity >= capacity
    ensures forall k :: t.hash(k) == CsrhHash(k)
  {
    t := new Table<seq<bv8>>.Init(capacity, CsrhHash, []);
  }
}
