/** Big-endian byte order, as `ByteBuffer` uses it (`ByteOrder.BIG_ENDIAN`): the unsigned
    value of four or eight bytes and its encoding, and the absolute `getInt`/`putInt`/
    `getLong`/`putLong` accessors the converter applies to a buffer. */
module BigEndian {
  import opened JavaInt

  /** The unsigned value of the `n` bytes from `i`, most significant first. */
  function BeValue(m: seq<Byte>, i: nat, n: nat): nat
    requires i + n <= |m|
  {
    if n == 0 then 0 else BeValue(m, i, n - 1) * 256 + m[i + n - 1]
  }

  /** The value of four bytes written out. */
  lemma {:induction false} Unsigned32Formula(m: seq<Byte>, i: nat)
    requires i + 4 <= |m|
    ensures BeValue(m, i, 4) == m[i] as int * 0x100_0000 + m[i + 1] as int * 0x1_0000 + m[i + 2] as int * 0x100 + m[i + 3] as int
  {
    assert BeValue(m, i, 1) == m[i];
    assert BeValue(m, i, 2) == m[i] as int * 0x100 + m[i + 1];
    assert BeValue(m, i, 3) == m[i] as int * 0x1_0000 + m[i + 1] as int * 0x100 + m[i + 2];
  }

  /** Equal bytes have equal values. */
  lemma {:induction false} SameBytes32(a: seq<Byte>, i: nat, b: seq<Byte>, j: nat)
    requires i + 4 <= |a| && j + 4 <= |b|
    requires a[i..i + 4] == b[j..j + 4]
    ensures BeValue(a, i, 4) == BeValue(b, j, 4)
  {
    assert a[i] == b[j] && a[i + 1] == b[j + 1] && a[i + 2] == b[j + 2] && a[i + 3] == b[j + 3] by {
      assert a[i..i + 4][0] == a[i] && a[i..i + 4][1] == a[i + 1];
      assert a[i..i + 4][2] == a[i + 2] && a[i..i + 4][3] == a[i + 3];
    }
    Unsigned32Formula(a, i);
    Unsigned32Formula(b, j);
  }

  /** Bytes that agree have the same value. */
  lemma {:induction false} BeValueFrame(a: seq<Byte>, b: seq<Byte>, i: nat, n: nat)
    requires i + n <= |a| && i + n <= |b|
    requires forall k | i <= k < i + n :: a[k] == b[k]
    ensures BeValue(a, i, n) == BeValue(b, i, n)
  {
    if n > 0 {
      BeValueFrame(a, b, i, n - 1);
    }
  }

  /** Eight bytes: the first four are the high half. */
  lemma {:induction false} BeValue8(m: seq<Byte>, i: nat)
    requires i + 8 <= |m|
    ensures BeValue(m, i, 8) == BeValue(m, i, 4) * TWO_32 + BeValue(m, i + 4, 4)
  {
    var hi := BeValue(m, i, 4);
    assert BeValue(m, i, 5) == hi * 0x100 + BeValue(m, i + 4, 1);
    assert BeValue(m, i, 6) == hi * 0x1_0000 + BeValue(m, i + 4, 2);
    assert BeValue(m, i, 7) == hi * 0x100_0000 + BeValue(m, i + 4, 3);
  }

  /** The unsigned value of bytes `[i, i+4)`. */
  function Unsigned32(m: seq<Byte>, i: nat): (r: nat)
    requires i + 4 <= |m|
    ensures r < TWO_32
  {
    Unsigned32Formula(m, i);
    BeValue(m, i, 4)
  }

  /** The unsigned value of bytes `[i, i+8)`, most significant first. */
  function Unsigned64(m: seq<Byte>, i: nat): (r: nat)
    requires i + 8 <= |m|
    ensures r < TWO_64
  {
    Unsigned32(m, i) * TWO_32 + Unsigned32(m, i + 4)
  }

  /** The low `len` bytes of `n`, most significant first. */
  function FromNat(n: nat, len: nat): (s: seq<Byte>)
    ensures |s| == len
  {
    if len == 0 then [] else FromNat(n / 256, len - 1) + [n % 256]
  }

  /** The four bytes of an unsigned 32-bit value, most significant first. */
  function Encode32(u: nat): (s: seq<Byte>)
    requires u < TWO_32
    ensures |s| == 4 && Unsigned32(s, 0) == u
  {
    var q1 := u / 256;
    var q2 := q1 / 256;
    var q3 := q2 / 256;
    var s := FromNat(u, 4);
    assert s == [q3 % 256, q2 % 256, q1 % 256, u % 256] by {
      assert FromNat(q3, 1) == [q3 % 256];
      assert FromNat(q2, 2) == [q3 % 256, q2 % 256];
      assert FromNat(q1, 3) == [q3 % 256, q2 % 256, q1 % 256];
    }
    assert u == ((q3 * 256 + q2 % 256) * 256 + q1 % 256) * 256 + u % 256;
    assert q3 < 256;
    Unsigned32Formula(s, 0);
    s
  }

  /** Eight bytes cut out of a longer sequence keep their value. */
  lemma {:induction false} Unsigned64Slice(m: seq<Byte>, i: nat)
    requires i + 8 <= |m|
    ensures Unsigned64(m[i..i + 8], 0) == Unsigned64(m, i)
  {
    var s := m[i..i + 8];
    assert s[0..4] == m[i..i + 4] && s[4..8] == m[i + 4..i + 8];
    SameBytes32(s, 0, m, i);
    SameBytes32(s, 4, m, i + 4);
  }

  /** The eight bytes of an unsigned 64-bit value, most significant first. */
  function Encode64(u: nat): (s: seq<Byte>)
    requires u < TWO_64
    ensures |s| == 8 && Unsigned64(s, 0) == u
  {
    var hi, lo := Encode32(u / TWO_32), Encode32(u % TWO_32);
    var s := hi + lo;
    SameBytes32(s, 0, hi, 0);
    SameBytes32(s, 4, lo, 0);
    s
  }

  /** Four bytes are the encoding of their value. */
  lemma {:induction false} Encode32OfUnsigned(s: seq<Byte>)
    requires |s| == 4
    ensures Encode32(Unsigned32(s, 0)) == s
  {
    var u := Unsigned32(s, 0);
    Unsigned32Formula(s, 0);
    var q1 := s[0] as int * 0x1_0000 + s[1] as int * 0x100 + s[2];
    var q2 := s[0] as int * 0x100 + s[1];
    assert u / 256 == q1 && u % 256 == s[3];
    assert q1 / 256 == q2 && q1 % 256 == s[2];
    assert q2 / 256 == s[0] && q2 % 256 == s[1];
    assert FromNat(s[0], 1) == [s[0]];
    assert FromNat(q2, 2) == [s[0], s[1]];
    assert FromNat(q1, 3) == [s[0], s[1], s[2]];
  }

  /** `getInt(i)`: the `int` whose pattern is bytes `[i, i+4)`. */
  function GetInt(m: seq<Byte>, i: nat): Int
    requires i + 4 <= |m|
  {
    Signed32(Unsigned32(m, i))
  }

  /** `getLong(i)`: the `long` whose pattern is bytes `[i, i+8)`. */
  function GetLong(m: seq<Byte>, i: nat): Long
    requires i + 8 <= |m|
  {
    Signed64(Unsigned64(m, i))
  }

  /** `putInt` at `i`: bytes `[i, i+4)` take the pattern of `v`; the rest is kept. */
  function PutInt(m: seq<Byte>, i: nat, v: Int): (r: seq<Byte>)
    requires i + 4 <= |m|
    ensures |r| == |m|
    ensures GetInt(r, i) == v
    ensures forall k | 0 <= k < |m| && !(i <= k < i + 4) :: r[k] == m[k]
  {
    var enc := Encode32(Uint32ToLong(v));
    var r := m[..i] + enc + m[i + 4..];
    SameBytes32(r, i, enc, 0);
    SignedOfUnsigned32(v);
    r
  }

  /** `putLong` at `i`: bytes `[i, i+8)` take the pattern of `v`; the rest is kept. */
  function PutLong(m: seq<Byte>, i: nat, v: Long): (r: seq<Byte>)
    requires i + 8 <= |m|
    ensures |r| == |m|
    ensures GetLong(r, i) == v
    ensures forall k | 0 <= k < |m| && !(i <= k < i + 8) :: r[k] == m[k]
  {
    var enc := Encode64(Uint64Value(v));
    var r := m[..i] + enc + m[i + 8..];
    SameBytes32(r, i, enc, 0);
    SameBytes32(r, i + 4, enc, 4);
    SignedOfUnsigned64(v);
    r
  }

  /** A value read from bytes that did not change is unchanged. */
  lemma {:induction false} GetIntFrame(m: seq<Byte>, r: seq<Byte>, i: nat)
    requires i + 4 <= |m| && |r| == |m|
    requires forall k | i <= k < i + 4 :: r[k] == m[k]
    ensures GetInt(r, i) == GetInt(m, i)
  {
    SameBytes32(r, i, m, i);
  }

  lemma {:induction false} GetLongFrame(m: seq<Byte>, r: seq<Byte>, i: nat)
    requires i + 8 <= |m| && |r| == |m|
    requires forall k | i <= k < i + 8 :: r[k] == m[k]
    ensures GetLong(r, i) == GetLong(m, i)
  {
    SameBytes32(r, i, m, i);
    SameBytes32(r, i + 4, m, i + 4);
  }

  /** `fourCcToInt`: the `int` of a four-character type code. */
  function FourCcToInt(code: seq<Byte>): Int
    requires |code| == 4
  {
    GetInt(code, 0)
  }
}
