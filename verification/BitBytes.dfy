/** The bits of a byte buffer, most significant first, and zeros behind its end. */
module BitBytes {

  type byte = bv8

  /** Bit `k` of a byte, counted from the most significant one. */
  predicate Bit(v: byte, k: nat)
    requires k < 8
  {
    match k
    case 0 => v & 0x80 != 0
    case 1 => v & 0x40 != 0
    case 2 => v & 0x20 != 0
    case 3 => v & 0x10 != 0
    case 4 => v & 0x08 != 0
    case 5 => v & 0x04 != 0
    case 6 => v & 0x02 != 0
    case _ => v & 0x01 != 0
  }

  /** Bit `i` of a buffer. */
  predicate BitAt(buf: seq<byte>, i: nat) {
    i / 8 < |buf| && Bit(buf[i / 8], i % 8)
  }

  /** A byte is zero exactly when all its bits are. */
  lemma ZeroByte(v: byte)
    ensures v == 0 <==>
      !Bit(v, 0) && !Bit(v, 1) && !Bit(v, 2) && !Bit(v, 3) && !Bit(v, 4) && !Bit(v, 5) && !Bit(v, 6) && !Bit(v, 7)
  {
  }

  /** The unused bits of the last byte, found with the lowest bit that is set. */
  function Unused(v: byte): (unused: nat)
    ensures unused < 8
  {
    var low := v & (0 - v);
    7 - (if low & 0x0F != 0 then 4 else 0)
      - (if low & 0x33 != 0 then 2 else 0)
      - (if low & 0x55 != 0 then 1 else 0)
  }

  /** The last bit that is set is the one in front of the unused bits. */
  lemma UnusedIsLowest(v: byte)
    requires v != 0
    ensures Bit(v, 7 - Unused(v))
    ensures forall k :: 7 - Unused(v) < k < 8 ==> !Bit(v, k)
  {
  }

  /** The first bit in which two bytes differ. */
  function FirstDifference(x: byte, y: byte): (k: nat)
    requires x != y
    ensures k < 8
  {
    var d := x ^ y;
    if d & 0x80 != 0 then 0
    else if d & 0x40 != 0 then 1
    else if d & 0x20 != 0 then 2
    else if d & 0x10 != 0 then 3
    else if d & 0x08 != 0 then 4
    else if d & 0x04 != 0 then 5
    else if d & 0x02 != 0 then 6
    else 7
  }

  lemma FirstDifferenceBits(x: byte, y: byte)
    requires x != y
    ensures var k := FirstDifference(x, y);
            Bit(x, k) != Bit(y, k) && forall j :: 0 <= j < k ==> Bit(x, j) == Bit(y, j)
  {
  }

  lemma FirstDifferenceDecides(x: byte, y: byte)
    requires x != y
    ensures x < y <==> Bit(y, FirstDifference(x, y))
  {
  }

  /** Bytes are ordered by the first bit in which they differ. */
  lemma ByteOrder(x: byte, y: byte)
    requires x != y
    ensures var k := FirstDifference(x, y);
            && Bit(x, k) != Bit(y, k) && (x < y <==> Bit(y, k))
            && forall j :: 0 <= j < k ==> Bit(x, j) == Bit(y, j)
  {
    hide Bit, FirstDifference;
    FirstDifferenceBits(x, y);
    FirstDifferenceDecides(x, y);
  }
}
