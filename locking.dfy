/**
 * ps_lock and ps_unlock (packed16/packed-string.c): a reversible
 * scrambling of a value under a key.  The payload of 123 bits (lo and the
 * low 59 bits of hi, the flags included) is rotated left by the key's
 * length and then xor-ed with the key; the top five bits of hi, the
 * length, are kept.  Unlocking xors first and rotates back.  A key of
 * length 0 gives the empty value either way.
 */
module Locking {
  import opened Packed

  /** The low 59 bits of hi, the part of hi that is rotated (mask_hi). */
  const PayloadMaskHi: bv64 := 0x07FF_FFFF_FFFF_FFFF

  /** The top five bits of hi, the length field, saved across the rotation. */
  const LengthMaskHi: bv64 := 0xF800_0000_0000_0000

  /** The low word of the 123-bit value hm:lo rotated left by r. */
  function RotLo(lo: bv64, hm: bv64, r: bv64): bv64
    requires 1 <= r <= 31
  {
    (lo << r) | (hm >> (59 - r))
  }

  /** The high 59 bits of hm:lo rotated left by r. */
  function RotHi(lo: bv64, hm: bv64, r: bv64): (h: bv64)
    requires 1 <= r <= 31
    ensures h <= PayloadMaskHi
  {
    ((hm << r) & PayloadMaskHi) | (lo >> (64 - r))
  }

  /**
   * The low word of ps_unlock's right rotation: the low r bits of hm
   * (L_high) above the top 64 - r bits of lo (L_low).
   */
  function UnrotLo(lo: bv64, hm: bv64, r: bv64): bv64
    requires 1 <= r <= 31
  {
    ((hm & ((1 << r) - 1)) << (64 - r)) | (lo >> r)
  }

  /**
   * The high word of ps_unlock's right rotation: the low r bits of lo
   * (H_high) above the top 59 - r bits of hm (H_low).
   */
  function UnrotHi(lo: bv64, hm: bv64, r: bv64): (h: bv64)
    requires 1 <= r <= 31
    ensures h <= PayloadMaskHi
  {
    ((lo & ((1 << r) - 1)) << (59 - r)) | ((hm >> r) & ((1 << (59 - r)) - 1))
  }

  /** The rotated part of hi: hi & mask_hi. */
  function PayloadOf(hi: bv64): (h: bv64)
    ensures h <= PayloadMaskHi
  {
    hi & PayloadMaskHi
  }

  /** The saved part of hi, the length field: hi & 0xF800000000000000. */
  function LengthField(hi: bv64): bv64 {
    hi & LengthMaskHi
  }

  /** A 59-bit rotated word with the saved length field put back: hi |= save. */
  function WithLengthField(h: bv64, hi: bv64): bv64 {
    h | LengthField(hi)
  }

  /** The rotation amount: the key's length. */
  function Rotation(key: PackedString): (r: bv64)
    ensures r <= 31
  {
    Length(key) as bv64
  }

  /** The xor with the key, whose length field is masked off. */
  function KeyXor(ps: PackedString, key: PackedString): PackedString {
    PackedString(ps.lo ^ key.lo, ps.hi ^ (key.hi & PayloadMaskHi))
  }

  /** The left rotation of ps_lock, the length field restored afterwards. */
  function RotateLeft(ps: PackedString, r: bv64): PackedString
    requires 1 <= r <= 31
  {
    PackedString(RotLo(ps.lo, PayloadOf(ps.hi), r), WithLengthField(RotHi(ps.lo, PayloadOf(ps.hi), r), ps.hi))
  }

  /** The right rotation of ps_unlock, the length field restored afterwards. */
  function RotateRight(ps: PackedString, r: bv64): PackedString
    requires 1 <= r <= 31
  {
    PackedString(UnrotLo(ps.lo, PayloadOf(ps.hi), r), WithLengthField(UnrotHi(ps.lo, PayloadOf(ps.hi), r), ps.hi))
  }

  /**
   * ps_lock: rotate the payload left by the key's length, put the length
   * field back, xor with the key; a key of length 0 gives the empty value.
   */
  function Lock(ps: PackedString, key: PackedString): (r: PackedString)
    ensures Rotation(key) == 0 ==> r == Empty()
  {
    if Rotation(key) == 0 then Empty()
    else KeyXor(RotateLeft(ps, Rotation(key)), key)
  }

  /**
   * ps_unlock: xor with the key, then rotate the payload right by the
   * key's length, keeping the length field; a key of length 0 gives the
   * empty value.
   */
  function Unlock(ps: PackedString, key: PackedString): (r: PackedString)
    ensures Rotation(key) == 0 ==> r == Empty()
  {
    if Rotation(key) == 0 then Empty()
    else RotateRight(KeyXor(ps, key), Rotation(key))
  }

  /** ps_unlock with the same key undoes ps_lock, whenever the key is not empty. */
  lemma UnlockLock(ps: PackedString, key: PackedString)
    requires Length(key) != 0
    ensures Unlock(Lock(ps, key), key) == ps
  {
    var rotated := RotateLeft(ps, Rotation(key));
    KeyXorTwice(rotated, key);
    RotateBack(ps, Rotation(key));
  }

  /** Lock and unlock keep the length field of the value. */
  lemma LockKeepsLength(ps: PackedString, key: PackedString)
    requires Length(key) != 0
    ensures Length(Lock(ps, key)) == Length(ps)
    ensures Length(Unlock(ps, key)) == Length(ps)
  {
    var r := Rotation(key);
    RotatedLength(ps, r);
    KeyXorLength(RotateLeft(ps, r), key);
    KeyXorLength(ps, key);
    RotatedLength(KeyXor(ps, key), r);
  }

  /** Both rotations keep the length field. */
  lemma RotatedLength(ps: PackedString, r: bv64)
    requires 1 <= r <= 31
    ensures Length(RotateLeft(ps, r)) == Length(ps)
    ensures Length(RotateRight(ps, r)) == Length(ps)
  {
    SplitRotated(RotHi(ps.lo, PayloadOf(ps.hi), r), ps.hi);
    SplitRotated(UnrotHi(ps.lo, PayloadOf(ps.hi), r), ps.hi);
    SameLengthField(RotateLeft(ps, r), ps);
    SameLengthField(RotateRight(ps, r), ps);
  }

  /** The length is read from the length field alone. */
  lemma SameLengthField(a: PackedString, b: PackedString)
    requires LengthField(a.hi) == LengthField(b.hi)
    ensures Length(a) == Length(b)
  {}

  /** The xor with the key is its own inverse. */
  lemma KeyXorTwice(ps: PackedString, key: PackedString)
    ensures KeyXor(KeyXor(ps, key), key) == ps
  {
    XorBack(ps.lo, key.lo);
    XorBack(ps.hi, key.hi & PayloadMaskHi);
  }

  lemma XorBack(x: bv64, k: bv64)
    ensures (x ^ k) ^ k == x
  {}

  /** The xor with the key leaves the length field alone. */
  lemma KeyXorLength(ps: PackedString, key: PackedString)
    ensures Length(KeyXor(ps, key)) == Length(ps)
  {}

  /** Rotating right undoes rotating left, the length field included. */
  lemma RotateBack(ps: PackedString, r: bv64)
    requires 1 <= r <= 31
    ensures RotateRight(RotateLeft(ps, r), r) == ps
  {
    var h := RotHi(ps.lo, PayloadOf(ps.hi), r);
    SplitRotated(h, ps.hi);
    UnrotLoBack(ps.lo, PayloadOf(ps.hi), r);
    UnrotHiBack(ps.lo, PayloadOf(ps.hi), r);
    SplitHi(ps.hi);
  }

  /** A 59-bit word under a length field splits back into the two. */
  lemma SplitRotated(h: bv64, hi: bv64)
    requires h <= PayloadMaskHi
    ensures PayloadOf(WithLengthField(h, hi)) == h
    ensures LengthField(WithLengthField(h, hi)) == LengthField(hi)
  {}

  /** hi is its length field and its rotated part. */
  lemma SplitHi(hi: bv64)
    ensures WithLengthField(PayloadOf(hi), hi) == hi
  {}

  /**
   * Rotating left by r and back gives the low word back.  The identity is proved a few rotation amounts at a time:
   * over all 31 at once the bit-level proof is too large.
   */
  lemma UnrotLoBack(lo: bv64, hm: bv64, r: bv64)
    requires 1 <= r <= 31 && hm <= PayloadMaskHi
    ensures UnrotLo(RotLo(lo, hm, r), RotHi(lo, hm, r), r) == lo
  {
    if r <= 4 {
      UnrotLoBack1To4(lo, hm, r);
    } else if r <= 8 {
      UnrotLoBack5To8(lo, hm, r);
    } else if r <= 12 {
      UnrotLoBack9To12(lo, hm, r);
    } else if r <= 16 {
      UnrotLoBack13To16(lo, hm, r);
    } else if r <= 20 {
      UnrotLoBack17To20(lo, hm, r);
    } else if r <= 24 {
      UnrotLoBack21To24(lo, hm, r);
    } else if r <= 28 {
      UnrotLoBack25To28(lo, hm, r);
    } else {
      UnrotLoBack29To31(lo, hm, r);
    }
  }

  lemma UnrotLoBack1To4(lo: bv64, hm: bv64, r: bv64)
    requires 1 <= r <= 4 && hm <= PayloadMaskHi
    ensures UnrotLo(RotLo(lo, hm, r), RotHi(lo, hm, r), r) == lo
  {}

  lemma UnrotLoBack5To8(lo: bv64, hm: bv64, r: bv64)
    requires 5 <= r <= 8 && hm <= PayloadMaskHi
    ensures UnrotLo(RotLo(lo, hm, r), RotHi(lo, hm, r), r) == lo
  {}

  lemma UnrotLoBack9To12(lo: bv64, hm: bv64, r: bv64)
    requires 9 <= r <= 12 && hm <= PayloadMaskHi
    ensures UnrotLo(RotLo(lo, hm, r), RotHi(lo, hm, r), r) == lo
  {}

  lemma UnrotLoBack13To16(lo: bv64, hm: bv64, r: bv64)
    requires 13 <= r <= 16 && hm <= PayloadMaskHi
    ensures UnrotLo(RotLo(lo, hm, r), RotHi(lo, hm, r), r) == lo
  {}

  lemma UnrotLoBack17To20(lo: bv64, hm: bv64, r: bv64)
    requires 17 <= r <= 20 && hm <= PayloadMaskHi
    ensures UnrotLo(RotLo(lo, hm, r), RotHi(lo, hm, r), r) == lo
  {}

  lemma UnrotLoBack21To24(lo: bv64, hm: bv64, r: bv64)
    requires 21 <= r <= 24 && hm <= PayloadMaskHi
    ensures UnrotLo(RotLo(lo, hm, r), RotHi(lo, hm, r), r) == lo
  {}

  lemma UnrotLoBack25To28(lo: bv64, hm: bv64, r: bv64)
    requires 25 <= r <= 28 && hm <= PayloadMaskHi
    ensures UnrotLo(RotLo(lo, hm, r), RotHi(lo, hm, r), r) == lo
  {}

  lemma UnrotLoBack29To31(lo: bv64, hm: bv64, r: bv64)
    requires 29 <= r <= 31 && hm <= PayloadMaskHi
    ensures UnrotLo(RotLo(lo, hm, r), RotHi(lo, hm, r), r) == lo
  {}

  /**
   * Rotating left by r and back gives the high 59 bits back.  The identity is proved a few rotation amounts at a time:
   * over all 31 at once the bit-level proof is too large.
   */
  lemma UnrotHiBack(lo: bv64, hm: bv64, r: bv64)
    requires 1 <= r <= 31 && hm <= PayloadMaskHi
    ensures UnrotHi(RotLo(lo, hm, r), RotHi(lo, hm, r), r) == hm
  {
    if r <= 8 {
      UnrotHiBack1To8(lo, hm, r);
    } else if r <= 16 {
      UnrotHiBack9To16(lo, hm, r);
    } else if r <= 24 {
      UnrotHiBack17To24(lo, hm, r);
    } else {
      UnrotHiBack25To31(lo, hm, r);
    }
  }

  lemma UnrotHiBack1To8(lo: bv64, hm: bv64, r: bv64)
    requires 1 <= r <= 8 && hm <= PayloadMaskHi
    ensures UnrotHi(RotLo(lo, hm, r), RotHi(lo, hm, r), r) == hm
  {}

  lemma UnrotHiBack9To16(lo: bv64, hm: bv64, r: bv64)
    requires 9 <= r <= 16 && hm <= PayloadMaskHi
    ensures UnrotHi(RotLo(lo, hm, r), RotHi(lo, hm, r), r) == hm
  {}

  lemma UnrotHiBack17To24(lo: bv64, hm: bv64, r: bv64)
    requires 17 <= r <= 24 && hm <= PayloadMaskHi
    ensures UnrotHi(RotLo(lo, hm, r), RotHi(lo, hm, r), r) == hm
  {}

  lemma UnrotHiBack25To31(lo: bv64, hm: bv64, r: bv64)
    requires 25 <= r <= 31 && hm <= PayloadMaskHi
    ensures UnrotHi(RotLo(lo, hm, r), RotHi(lo, hm, r), r) == hm
  {}
}
