/** Java's fixed-width integers and the unsigned-conversion helpers of the converter
    (`uint32ToLong`, both `uint32ToInt`s, `uint64ToLong`). Values are Dafny integers
    restricted to the Java ranges; wrap-around is written out with `Wrap32`/`Wrap64`. */
module JavaInt {
  import opened Outcomes

  const TWO_31: int := 0x8000_0000
  const TWO_32: int := 0x1_0000_0000
  const TWO_63: int := 0x8000_0000_0000_0000
  const TWO_64: int := 0x1_0000_0000_0000_0000
  /** `Integer.MAX_VALUE`, also the largest length of a Java array. */
  const INT_MAX: int := 0x7FFF_FFFF

  /** A Java `int`. */
  type Int = x: int | -0x8000_0000 <= x < 0x8000_0000
  /** An octet of a byte array. The converter never looks at a byte's signed value, so bytes
      are kept as their unsigned values. */
  type Byte = x: int | 0 <= x < 0x100
  /** A Java `long`. */
  type Long = x: int | -0x8000_0000_0000_0000 <= x < 0x8000_0000_0000_0000

  /** The `int` that `x` becomes in 32-bit two's-complement arithmetic (also the `(int)` cast of a `long`). */
  function Wrap32(x: int): (r: Int)
    ensures (r - x) % TWO_32 == 0
    ensures -TWO_31 <= x < TWO_31 ==> r == x
  {
    var m := x % TWO_32;
    if m < TWO_31 then m else m - TWO_32
  }

  /** The `long` that `x` becomes in 64-bit two's-complement arithmetic. */
  function Wrap64(x: int): (r: Long)
    ensures (r - x) % TWO_64 == 0
    ensures -TWO_63 <= x < TWO_63 ==> r == x
  {
    var m := x % TWO_64;
    if m < TWO_63 then m else m - TWO_64
  }

  /** Values congruent modulo 2^32 become the same `int`. */
  lemma {:induction false} Wrap32Congruent(x: int, y: int)
    requires (x - y) % TWO_32 == 0
    ensures Wrap32(x) == Wrap32(y)
  {
    assert x % TWO_32 == y % TWO_32;
  }

  /** Adding the `(int)` cast of `s` instead of `s` itself gives the same `int`. */
  lemma {:induction false} Wrap32OfCast(a: int, s: int)
    ensures Wrap32(a + Wrap32(s)) == Wrap32(a + s)
  {
    Wrap32Congruent(a + Wrap32(s), a + s);
  }

  /** `uint32ToLong`: the unsigned value of the 32-bit pattern held in an `int`. */
  function Uint32ToLong(v: Int): (r: Long)
    ensures 0 <= r < TWO_32
    ensures (r - v) % TWO_32 == 0
  {
    if v < 0 then v + TWO_32 else v
  }

  /** The unsigned value of the 64-bit pattern held in a `long`. */
  function Uint64Value(v: Long): (r: nat)
    ensures r < TWO_64
    ensures (r - v) % TWO_64 == 0
  {
    if v < 0 then v + TWO_64 else v
  }

  /** The `int` holding the 32-bit pattern of an unsigned value (what `getInt` yields). */
  function Signed32(u: nat): (r: Int)
    requires u < TWO_32
    ensures Uint32ToLong(r) == u
  {
    if u < TWO_31 then u else u - TWO_32
  }

  /** The `long` holding the 64-bit pattern of an unsigned value (what `getLong` yields). */
  function Signed64(u: nat): (r: Long)
    requires u < TWO_64
    ensures Uint64Value(r) == u
  {
    if u < TWO_63 then u else u - TWO_64
  }

  /** `uint32ToInt(int)`: accepts exactly the non-negative `int`s. */
  function Uint32PatternToInt(v: Int): (r: Result<Int>)
    ensures r.Ok? <==> v >= 0
    ensures r.Ok? ==> r.value == v
    ensures !r.Ok? ==> r == Err(UnsupportedFile)
  {
    if v < 0 then Err(UnsupportedFile) else Ok(v)
  }

  /** `uint32ToInt(long)`: accepts exactly the `long`s in `[0, Integer.MAX_VALUE]`. */
  function Uint32ToInt(v: Long): (r: Result<Int>)
    ensures r.Ok? <==> 0 <= v <= INT_MAX
    ensures r.Ok? ==> r.value == v
    ensures !r.Ok? ==> r == Err(UnsupportedFile)
  {
    if v > INT_MAX || v < 0 then Err(UnsupportedFile) else Ok(v)
  }

  /** `uint64ToLong`: accepts exactly the non-negative `long`s. */
  function Uint64ToLong(v: Long): (r: Result<Long>)
    ensures r.Ok? <==> v >= 0
    ensures r.Ok? ==> r.value == v
    ensures !r.Ok? ==> r == Err(UnsupportedFile)
  {
    if v < 0 then Err(UnsupportedFile) else Ok(v)
  }

  /** Reading back the pattern of an `int` gives the `int`. */
  lemma {:induction false} SignedOfUnsigned32(v: Int)
    ensures Signed32(Uint32ToLong(v)) == v
  {
  }

  lemma {:induction false} SignedOfUnsigned64(v: Long)
    ensures Signed64(Uint64Value(v)) == v
  {
  }

  /** The `stco` overflow test `cur < 0 && cur + delta >= 0` (on `int`s) detects exactly
      the unsigned sums that leave the 32-bit range, for any delta an `int` length can take. */
  lemma {:induction false} StcoOverflowCheck(cur: Int, delta: int)
    requires 0 <= delta <= INT_MAX
    ensures (cur < 0 && Wrap32(cur + delta) >= 0) <==> Uint32ToLong(cur) + delta >= TWO_32
  {
  }

  /** Wrapping `int` addition is unsigned addition modulo 2^32. */
  lemma {:induction false} WrapAdd32(cur: Int, delta: int)
    requires 0 <= delta <= INT_MAX
    ensures Uint32ToLong(Wrap32(cur + delta)) == (Uint32ToLong(cur) + delta) % TWO_32
  {
  }

  /** Wrapping `long` addition is unsigned addition modulo 2^64. */
  lemma {:induction false} WrapAdd64(cur: Long, delta: int)
    requires 0 <= delta <= INT_MAX
    ensures Uint64Value(Wrap64(cur + delta)) == (Uint64Value(cur) + delta) % TWO_64
  {
  }
}
