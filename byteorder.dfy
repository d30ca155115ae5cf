/** Unsigned integers of a fixed byte width and their byte encodings in either
    byte order: the typed reads the entry decoder asks of its reader. */
module ByteOrder {

  type Byte = b: int | 0 <= b < 0x100

  /** Go's uint16, uint32 and uint64. */
  type U16 = n: nat | n < 0x1_0000
  type U32 = n: nat | n < 0x1_0000_0000
  type U64 = n: nat | n < 0x1_0000_0000_0000_0000

  /** The byte order a reader is configured with ("II" or "MM" in a TIFF header). */
  datatype Endian = BigEndian | LittleEndian

  /** 256 to the power n: one more than the largest value n bytes can hold. */
  function Pow256(n: nat): (r: nat)
    ensures r > 0
  {
    if n == 0 then 1 else 0x100 * Pow256(n - 1)
  }

  /** The ranges of Go's uint16, uint32 and uint64 are those of 2, 4 and 8 bytes. */
  lemma {:induction false} GoWidths()
    ensures Pow256(2) == 0x1_0000
    ensures Pow256(4) == 0x1_0000_0000
    ensures Pow256(8) == 0x1_0000_0000_0000_0000
  {
  }

  /** The value of bs read most significant byte first. */
  function BeValue(bs: seq<Byte>): (v: nat)
    ensures v < Pow256(|bs|)
  {
    if bs == [] then 0 else BeValue(bs[..|bs| - 1]) * 0x100 + bs[|bs| - 1]
  }

  /** The value of bs read least significant byte first. */
  function LeValue(bs: seq<Byte>): (v: nat)
    ensures v < Pow256(|bs|)
  {
    if bs == [] then 0 else bs[0] + 0x100 * LeValue(bs[1..])
  }

  /** The unsigned integer a reader configured with `order` decodes from bs. */
  function UintOf(bs: seq<Byte>, order: Endian): (v: nat)
    ensures v < Pow256(|bs|)
  {
    match order
    case BigEndian => BeValue(bs)
    case LittleEndian => LeValue(bs)
  }

  /** The width bytes that hold n, most significant first. */
  function BeBytes(n: nat, width: nat): (bs: seq<Byte>)
    requires n < Pow256(width)
    ensures |bs| == width
  {
    if width == 0 then [] else BeBytes(n / 0x100, width - 1) + [n % 0x100]
  }

  /** The width bytes that hold n, least significant first. */
  function LeBytes(n: nat, width: nat): (bs: seq<Byte>)
    requires n < Pow256(width)
    ensures |bs| == width
  {
    if width == 0 then [] else [n % 0x100] + LeBytes(n / 0x100, width - 1)
  }

  /** The width bytes that hold n in the given byte order. */
  function UintBytes(n: nat, width: nat, order: Endian): (bs: seq<Byte>)
    requires n < Pow256(width)
    ensures |bs| == width
  {
    match order
    case BigEndian => BeBytes(n, width)
    case LittleEndian => LeBytes(n, width)
  }

  function Reverse<T>(s: seq<T>): (r: seq<T>)
    ensures |r| == |s|
  {
    if s == [] then [] else Reverse(s[1..]) + [s[0]]
  }

  lemma {:induction false} BeValueOfBytes(n: nat, width: nat)
    requires n < Pow256(width)
    ensures BeValue(BeBytes(n, width)) == n
  {
    if width > 0 {
      var bs := BeBytes(n, width);
      assert bs[..width - 1] == BeBytes(n / 0x100, width - 1);
      BeValueOfBytes(n / 0x100, width - 1);
    }
  }

  lemma {:induction false} BeBytesOfValue(bs: seq<Byte>)
    ensures BeBytes(BeValue(bs), |bs|) == bs
  {
    if bs != [] {
      var init, last := bs[..|bs| - 1], bs[|bs| - 1];
      var v := BeValue(bs);
      assert v == BeValue(init) * 0x100 + last;
      assert v / 0x100 == BeValue(init) && v % 0x100 == last;
      BeBytesOfValue(init);
      assert bs == init + [last];
    }
  }

  lemma {:induction false} LeValueOfBytes(n: nat, width: nat)
    requires n < Pow256(width)
    ensures LeValue(LeBytes(n, width)) == n
  {
    if width > 0 {
      var bs := LeBytes(n, width);
      assert bs[1..] == LeBytes(n / 0x100, width - 1);
      LeValueOfBytes(n / 0x100, width - 1);
    }
  }

  lemma {:induction false} LeBytesOfValue(bs: seq<Byte>)
    ensures LeBytes(LeValue(bs), |bs|) == bs
  {
    if bs != [] {
      var v := LeValue(bs);
      assert v == bs[0] + 0x100 * LeValue(bs[1..]);
      assert v / 0x100 == LeValue(bs[1..]) && v % 0x100 == bs[0];
      LeBytesOfValue(bs[1..]);
      assert bs == [bs[0]] + bs[1..];
    }
  }

  /** Encoding a value in either byte order and reading it back in the same order gives the value. */
  lemma UintOfBytes(n: nat, width: nat, order: Endian)
    requires n < Pow256(width)
    ensures UintOf(UintBytes(n, width, order), order) == n
  {
    match order
    case BigEndian => BeValueOfBytes(n, width);
    case LittleEndian => LeValueOfBytes(n, width);
  }

  /** Decoding bytes in either byte order and encoding the value again in the same order gives the bytes. */
  lemma BytesOfUint(bs: seq<Byte>, order: Endian)
    ensures UintBytes(UintOf(bs, order), |bs|, order) == bs
  {
    match order
    case BigEndian => BeBytesOfValue(bs);
    case LittleEndian => LeBytesOfValue(bs);
  }

  /** Two byte strings of one width that decode to the same integer are the same bytes. */
  lemma UintInjective(a: seq<Byte>, b: seq<Byte>, order: Endian)
    requires |a| == |b| && UintOf(a, order) == UintOf(b, order)
    ensures a == b
  {
    BytesOfUint(a, order);
    BytesOfUint(b, order);
  }

  /** Zero bytes hold zero in either byte order. */
  lemma {:induction false} ZerosValue(bs: seq<Byte>)
    requires forall j :: 0 <= j < |bs| ==> bs[j] == 0
    ensures BeValue(bs) == 0 && LeValue(bs) == 0
  {
    if bs != [] {
      ZerosValue(bs[..|bs| - 1]);
      ZerosValue(bs[1..]);
    }
  }

  /** Leading zero bytes do not change a big-endian value: widening a field
      by zero bytes in front keeps what it reads as. */
  lemma {:induction false} BeValueLeadingZeros(z: seq<Byte>, bs: seq<Byte>)
    requires forall j :: 0 <= j < |z| ==> z[j] == 0
    ensures BeValue(z + bs) == BeValue(bs)
  {
    if bs == [] {
      assert z + bs == z;
      ZerosValue(z);
    } else {
      var zb := z + bs;
      assert zb[..|zb| - 1] == z + bs[..|bs| - 1];
      BeValueLeadingZeros(z, bs[..|bs| - 1]);
    }
  }

  /** A non-empty big-endian byte string that is zero except its last byte
      has that byte as its value. */
  lemma {:induction false} BeValueOfLast(bs: seq<Byte>)
    requires |bs| > 0 && forall j :: 0 <= j < |bs| - 1 ==> bs[j] == 0
    ensures BeValue(bs) == bs[|bs| - 1]
  {
    ZerosValue(bs[..|bs| - 1]);
  }

  /** A little-endian read is a big-endian read of the same bytes reversed. */
  lemma {:induction false} LeIsReversedBe(bs: seq<Byte>)
    ensures LeValue(bs) == BeValue(Reverse(bs))
  {
    if bs != [] {
      var r := Reverse(bs);
      assert r[..|r| - 1] == Reverse(bs[1..]) && r[|r| - 1] == bs[0];
      LeIsReversedBe(bs[1..]);
    }
  }
}
