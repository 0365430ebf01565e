/** The bit stream of the packed encoding rules, as a sequence of booleans. */
module BitStream {
  import opened BitBytes
  import opened MachineWords
  import opened Occurrence

  // ---- Few bits ----

  /** The `n` lowest bits of a number, highest first. */
  function FewBits(v: nat, n: nat): (r: seq<bool>)
    ensures |r| == n
  {
    if n == 0 then [] else FewBits(v / 2, n - 1) + [v % 2 == 1]
  }

  /** The number in the `n` bits at position `p`. */
  function Value(s: seq<bool>, p: nat, n: nat): (v: nat)
    requires p + n <= |s|
    ensures v < Pow2(n)
  {
    if n == 0 then 0 else 2 * Value(s, p, n - 1) + if s[p + (n - 1)] then 1 else 0
  }

  /** `per_put_few_bits`: nothing for no bits, and an error from 32 bits on. */
  function PutFew(out: seq<bool>, v: nat, n: nat): Option<seq<bool>> {
    if n >= 32 then None else Some(out + FewBits(v, n))
  }

  /** `per_get_few_bits` of up to 31 bits, from a stream that is not refilled. */
  function GetFew(s: seq<bool>, p: nat, n: nat): (r: Option<nat>)
    requires p <= |s|
    ensures r.Some? ==> p + n <= |s|
  {
    if p + n <= |s| && n <= 31 then Some(Value(s, p, n)) else None
  }

  /** A number that fits is read back. */
  lemma {:induction false} FewBitsRead(s: seq<bool>, p: nat, v: nat, n: nat)
    requires v < Pow2(n) && Holds(s, p, FewBits(v, n))
    ensures Value(s, p, n) == v
  {
    if n > 0 {
      HoldsSplit(s, p, FewBits(v / 2, n - 1), [v % 2 == 1]);
      FewBitsRead(s, p, v / 2, n - 1);
      assert [v % 2 == 1][0] == s[p + (n - 1)];
    }
  }

  lemma ValueStep(s: seq<bool>, p: nat, n: nat)
    requires p + n < |s|
    ensures Value(s, p, n + 1) == 2 * Value(s, p, n) + if s[p + n] then 1 else 0
  {
  }

  /** One bit behind others counts the same wherever the number starts. */
  lemma OneMore(s: seq<bool>, p: nat, a: nat, b: nat)
    requires p + a + b + 1 <= |s|
    ensures Value(s, p, a + b + 1) - 2 * Value(s, p, a + b) == Value(s, p + a, b + 1) - 2 * Value(s, p + a, b)
  {
    hide Value;
    ValueStep(s, p, a + b);
    ValueStep(s, p + a, b);
    assert p + (a + b) == p + a + b;
  }

  /** Four bits behind others. */
  lemma FourMore(s: seq<bool>, p: nat, a: nat, b: nat)
    requires p + a + b + 4 <= |s|
    ensures Value(s, p, a + b + 4) - 16 * Value(s, p, a + b) == Value(s, p + a, b + 4) - 16 * Value(s, p + a, b)
  {
    hide Value;
    OneMore(s, p, a, b);
    OneMore(s, p, a, b + 1);
    OneMore(s, p, a, b + 2);
    OneMore(s, p, a, b + 3);
  }

  /** Two bytes next to each other are one number. */
  lemma TwoBytes(s: seq<bool>, p: nat)
    requires p + 16 <= |s|
    ensures Value(s, p, 16) == 256 * Value(s, p, 8) + Value(s, p + 8, 8)
  {
    FourMore(s, p, 8, 0);
    FourMore(s, p, 8, 4);
  }

  lemma PowersOfTwo()
    ensures Pow2(8) == 256 && Pow2(16) == 65536
  {
  }

  // ---- Many bits ----

  /** The `n` bits of a buffer from bit `from` on: what `per_put_many_bits` appends. */
  function Bits(buf: seq<byte>, from: nat, n: nat): (r: seq<bool>)
    ensures |r| == n && forall k :: 0 <= k < n ==> r[k] == BitAt(buf, from + k)
  {
    seq(n, k requires 0 <= k < n => BitAt(buf, from + k))
  }

  /** Bit `i`, or false behind the end. */
  predicate Padded(bits: seq<bool>, i: nat) {
    i < |bits| && bits[i]
  }

  function Weight(b: bool, w: byte): byte {
    if b then w else 0
  }

  /** The eight bits from position `i` on as a byte, filled up with zeros. */
  function PackByte(bits: seq<bool>, i: nat): byte {
    Weight(Padded(bits, i), 0x80) | Weight(Padded(bits, i + 1), 0x40)
    | Weight(Padded(bits, i + 2), 0x20) | Weight(Padded(bits, i + 3), 0x10)
    | Weight(Padded(bits, i + 4), 0x08) | Weight(Padded(bits, i + 5), 0x04)
    | Weight(Padded(bits, i + 6), 0x02) | Weight(Padded(bits, i + 7), 0x01)
  }

  /** What `per_get_many_bits` leaves in the buffer. */
  function Pack(bits: seq<bool>): (r: seq<byte>)
    ensures |r| == (|bits| + 7) / 8
  {
    seq((|bits| + 7) / 8, b requires 0 <= b => PackByte(bits, 8 * b))
  }

  /** Packing keeps the bits and adds zeros. */
  lemma PackBits(bits: seq<bool>, i: nat)
    ensures BitAt(Pack(bits), i) == Padded(bits, i)
  {
  }

  /** Whole bytes can be packed piece by piece. */
  lemma PackAppend(a: seq<bool>, b: seq<bool>)
    requires |a| % 8 == 0
    ensures Pack(a + b) == Pack(a) + Pack(b)
  {
    hide PackByte;
    forall k | 0 <= k < |Pack(a + b)|
      ensures Pack(a + b)[k] == (Pack(a) + Pack(b))[k]
    {
      PackByteAppend(a, b, k);
    }
  }

  lemma PackByteAppend(a: seq<bool>, b: seq<bool>, k: nat)
    requires |a| % 8 == 0
    ensures 8 * k < |a| ==> PackByte(a + b, 8 * k) == PackByte(a, 8 * k)
    ensures 8 * k >= |a| ==> PackByte(a + b, 8 * k) == PackByte(b, 8 * (k - |a| / 8))
  {
    hide Weight;
  }
}
