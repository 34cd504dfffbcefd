/** Box ("atom") type codes and the layout of a box with a 32-bit size, as section 4.2 of
    ISO/IEC 14496-12 defines it: a big-endian size that counts the whole box, a four-character
    type, then the payload. */
module Atoms {
  import opened JavaInt
  import opened BigEndian

  /** Size of a box header without the 64-bit extension. */
  const ATOM_PREAMBLE_SIZE: nat := 8

  // Top-level box types the converter knows.
  const FREE_ATOM: Int := 0x6672_6565  // "free"
  const JUNK_ATOM: Int := 0x6A75_6E6B  // "junk"
  const MDAT_ATOM: Int := 0x6D64_6174  // "mdat"
  const MOOV_ATOM: Int := 0x6D6F_6F76  // "moov"
  const PNOT_ATOM: Int := 0x706E_6F74  // "pnot"
  const SKIP_ATOM: Int := 0x736B_6970  // "skip"
  const WIDE_ATOM: Int := 0x7769_6465  // "wide"
  const PICT_ATOM: Int := 0x5049_4354  // "PICT"
  const FTYP_ATOM: Int := 0x6674_7970  // "ftyp"
  const UUID_ATOM: Int := 0x7575_6964  // "uuid"

  // Types looked for inside the metadata box.
  const CMOV_ATOM: Int := 0x636D_6F76  // "cmov"
  const STCO_ATOM: Int := 0x7374_636F  // "stco"
  const CO64_ATOM: Int := 0x636F_3634  // "co64"

  /** The ASCII bytes of a type code written as a string of plain characters. */
  function Ascii(s: string): (b: seq<Byte>)
    requires forall i | 0 <= i < |s| :: s[i] as int < 128
    ensures |b| == |s|
  {
    seq(|s|, i requires 0 <= i < |s| => s[i] as int)
  }

  /** `fourCcToInt` of four bytes whose first is below 0x80. */
  lemma {:induction false} FourCcValue(b: seq<Byte>)
    requires |b| == 4 && b[0] < 0x80
    ensures FourCcToInt(b) == b[0] as int * 0x100_0000 + b[1] as int * 0x1_0000 + b[2] as int * 0x100 + b[3] as int
  {
    Unsigned32Formula(b, 0);
  }

  lemma {:induction false} CodeIs(c0: char, c1: char, c2: char, c3: char, v: int)
    requires c0 as int < 128 && c1 as int < 128 && c2 as int < 128 && c3 as int < 128
    requires v == c0 as int * 0x100_0000 + c1 as int * 0x1_0000 + c2 as int * 0x100 + c3 as int
    ensures FourCcToInt(Ascii([c0, c1, c2, c3])) == v
  {
    var s := [c0, c1, c2, c3];
    var b := Ascii(s);
    FourCcValue(b);
  }

  /** Each top-level constant is `fourCcToInt` of its four characters (first half). */
  lemma {:induction false} TopLevelAtomCodes()
    ensures FourCcToInt(Ascii(['f', 'r', 'e', 'e'])) == FREE_ATOM
    ensures FourCcToInt(Ascii(['j', 'u', 'n', 'k'])) == JUNK_ATOM
    ensures FourCcToInt(Ascii(['m', 'd', 'a', 't'])) == MDAT_ATOM
    ensures FourCcToInt(Ascii(['m', 'o', 'o', 'v'])) == MOOV_ATOM
    ensures FourCcToInt(Ascii(['p', 'n', 'o', 't'])) == PNOT_ATOM
  {
    CodeIs('f', 'r', 'e', 'e', FREE_ATOM);
    CodeIs('j', 'u', 'n', 'k', JUNK_ATOM);
    CodeIs('m', 'd', 'a', 't', MDAT_ATOM);
    CodeIs('m', 'o', 'o', 'v', MOOV_ATOM);
    CodeIs('p', 'n', 'o', 't', PNOT_ATOM);
  }

  /** Each top-level constant is `fourCcToInt` of its four characters (second half). */
  lemma {:induction false} MoreTopLevelAtomCodes()
    ensures FourCcToInt(Ascii(['s', 'k', 'i', 'p'])) == SKIP_ATOM
    ensures FourCcToInt(Ascii(['w', 'i', 'd', 'e'])) == WIDE_ATOM
    ensures FourCcToInt(Ascii(['P', 'I', 'C', 'T'])) == PICT_ATOM
    ensures FourCcToInt(Ascii(['f', 't', 'y', 'p'])) == FTYP_ATOM
    ensures FourCcToInt(Ascii(['u', 'u', 'i', 'd'])) == UUID_ATOM
  {
    CodeIs('s', 'k', 'i', 'p', SKIP_ATOM);
    CodeIs('w', 'i', 'd', 'e', WIDE_ATOM);
    CodeIs('P', 'I', 'C', 'T', PICT_ATOM);
    CodeIs('f', 't', 'y', 'p', FTYP_ATOM);
    CodeIs('u', 'u', 'i', 'd', UUID_ATOM);
  }

  /** Each constant searched for inside the metadata box is `fourCcToInt` of its characters. */
  lemma {:induction false} MoovAtomCodes()
    ensures FourCcToInt(Ascii(['c', 'm', 'o', 'v'])) == CMOV_ATOM
    ensures FourCcToInt(Ascii(['s', 't', 'c', 'o'])) == STCO_ATOM
    ensures FourCcToInt(Ascii(['c', 'o', '6', '4'])) == CO64_ATOM
  {
    CodeIs('c', 'm', 'o', 'v', CMOV_ATOM);
    CodeIs('s', 't', 'c', 'o', STCO_ATOM);
    CodeIs('c', 'o', '6', '4', CO64_ATOM);
  }

  /** The types the top-level loop accepts; any other type stops it. */
  predicate IsTopLevel(t: Int)
  {
    || t == FREE_ATOM || t == JUNK_ATOM || t == MDAT_ATOM || t == MOOV_ATOM
    || t == PNOT_ATOM || t == SKIP_ATOM || t == WIDE_ATOM || t == PICT_ATOM
    || t == UUID_ATOM || t == FTYP_ATOM
  }

  /** A box with a 32-bit size: its type and payload. */
  datatype Box = Box(kind: Int, payload: seq<Byte>) {

    function Size(): nat {
      ATOM_PREAMBLE_SIZE + |payload|
    }

    /** Its size fits the converter's `int`s. */
    predicate Valid() {
      Size() <= INT_MAX
    }

    /** Size, type, payload. */
    function Bytes(): (b: seq<Byte>)
      requires Valid()
      ensures |b| == Size()
    {
      Encode32(Size()) + Encode32(Uint32ToLong(kind)) + payload
    }
  }

  function TotalSize(boxes: seq<Box>): nat
  {
    if |boxes| == 0 then 0 else boxes[0].Size() + TotalSize(boxes[1..])
  }

  predicate AllValid(boxes: seq<Box>)
  {
    forall i | 0 <= i < |boxes| :: boxes[i].Valid()
  }

  /** The boxes laid out one after another. */
  function Serialize(boxes: seq<Box>): (b: seq<Byte>)
    requires AllValid(boxes)
    ensures |b| == TotalSize(boxes)
  {
    if |boxes| == 0 then [] else boxes[0].Bytes() + Serialize(boxes[1..])
  }

  lemma {:induction false} TotalSizeAppend(a: seq<Box>, b: seq<Box>)
    ensures TotalSize(a + b) == TotalSize(a) + TotalSize(b)
  {
    if |a| > 0 {
      assert (a + b)[1..] == a[1..] + b;
      TotalSizeAppend(a[1..], b);
    } else {
      assert a + b == b;
    }
  }

  lemma {:induction false} SerializeAppend(a: seq<Box>, b: seq<Box>)
    requires AllValid(a) && AllValid(b)
    ensures AllValid(a + b)
    ensures Serialize(a + b) == Serialize(a) + Serialize(b)
  {
    if |a| > 0 {
      var ab := a + b;
      assert ab[0] == a[0] && ab[1..] == a[1..] + b;
      assert AllValid(a[1..]);
      SerializeAppend(a[1..], b);
      assert Serialize(ab) == a[0].Bytes() + (Serialize(a[1..]) + Serialize(b));
    } else {
      assert a + b == b;
    }
  }

  /** The first 8 bytes of a laid-out box read back as its size and type. */
  lemma {:induction false} BoxHeader(b: Box)
    requires b.Valid()
    ensures var h := b.Bytes()[..ATOM_PREAMBLE_SIZE];
      && Uint32ToLong(GetInt(h, 0)) == b.Size()
      && GetInt(h, 4) == b.kind
  {
    var h := b.Bytes()[..8];
    var sz, kd := Encode32(b.Size()), Encode32(Uint32ToLong(b.kind));
    assert h == sz + kd;
    SameBytes32(h, 0, sz, 0);
    SameBytes32(h, 4, kd, 0);
    SignedOfUnsigned32(b.kind);
  }
}
