/** BIT STRING values: their canonical form and their order. */
module BitString {
  import opened BitBytes

  /** The bytes and the number of bits of the last one that do not belong to the value. */
  datatype BitString = BitString(buf: seq<byte>, unused: nat) {
    /** How many bits the value has. */
    function Length(): int {
      8 * |buf| - unused
    }

    /** What the functions demand of a value. */
    predicate Valid() {
      unused < 8 && (buf == [] ==> unused == 0)
    }

    /** The unused bits are zero. */
    ghost predicate Clean() {
      forall i :: Length() <= i ==> i < 0 || !BitAt(buf, i)
    }
  }

  /** One more than the index of the last bit among the first `n` that is set. */
  function Stripped(buf: seq<byte>, n: nat): (r: nat)
    ensures r <= n
  {
    if n == 0 then 0 else if BitAt(buf, n - 1) then n else Stripped(buf, n - 1)
  }

  /** The value without its trailing zero bits. */
  function Compact(buf: seq<byte>): (r: BitString)
    ensures r.Valid() && r.Length() == Stripped(buf, 8 * |buf|) && r.buf <= buf
  {
    var n := Stripped(buf, 8 * |buf|);
    BitString(buf[..(n + 7) / 8], (8 - n % 8) % 8)
  }

  // ---- Trailing zeros ----

  lemma {:induction false} StrippedBits(buf: seq<byte>, n: nat)
    ensures Stripped(buf, n) > 0 ==> BitAt(buf, Stripped(buf, n) - 1)
    ensures forall i :: Stripped(buf, n) <= i < n ==> !BitAt(buf, i)
  {
    hide BitAt;
    if n > 0 && !BitAt(buf, n - 1) {
      StrippedBits(buf, n - 1);
    }
  }

  /** The compact form has the same bits, and nothing behind them: its last bit, if any, is set. */
  lemma CompactBits(buf: seq<byte>)
    ensures var c := Compact(buf);
            && (forall i :: BitAt(c.buf, i) == BitAt(buf, i)) && c.Clean()
            && (c.Length() > 0 ==> BitAt(buf, c.Length() - 1))
            && (c.buf != [] ==> c.buf[|c.buf| - 1] != 0)
  {
    var c, n := Compact(buf), Stripped(buf, 8 * |buf|);
    StrippedBits(buf, 8 * |buf|);
    forall i
      ensures BitAt(c.buf, i) == BitAt(buf, i)
      ensures n <= i ==> !BitAt(buf, i)
    {
    }
    if c.buf != [] {
      assert (n - 1) / 8 == |c.buf| - 1;
      ZeroByte(c.buf[|c.buf| - 1]);
    }
  }

  /** The compact form ends with the byte in front of `b`. */
  lemma CompactIs(buf: seq<byte>, b: nat, unused: nat)
    requires b <= |buf| && unused < 8 && unused <= 8 * b
    requires Stripped(buf, 8 * |buf|) == 8 * b - unused
    ensures Compact(buf) == BitString(buf[..b], unused)
  {
    hide Stripped;
    assert (8 * b - unused + 7) / 8 == b;
  }

  lemma StrippedNone(buf: seq<byte>)
    ensures Stripped(buf, 0) == 0
  {
  }

  lemma UnusedIs(v: byte)
    ensures var low := v & (0 - v);
            Unused(v) == 7 - (if low & 0x0F != 0 then 4 else 0) - (if low & 0x33 != 0 then 2 else 0)
                           - (if low & 0x55 != 0 then 1 else 0)
  {
  }

  /** The loop of `BIT_STRING__compactify`: `b` is the last byte that may contain data. */
  method Compactify(st: BitString) returns (tmp: BitString)
    requires st.buf == [] ==> st.unused == 0
    ensures tmp == Compact(st.buf)
  {
    hide Compact, Stripped, Unused;
    StrippedNone(st.buf);
    if |st.buf| == 0 {
      CompactIs(st.buf, 0, 0);
      return st;
    }
    var b := |st.buf| - 1;
    while b > 0 && st.buf[b] == 0
      invariant 0 <= b < |st.buf|
      invariant Stripped(st.buf, 8 * b + 8) == Stripped(st.buf, 8 * |st.buf|)
    {
      StripByte(st.buf, b);
      b := b - 1;
    }
    StripByte(st.buf, b);
    if st.buf[b] != 0 {
      CompactIs(st.buf, b + 1, Unused(st.buf[b]));
      UnusedIs(st.buf[b]);
      var unused := 7;
      var v := st.buf[b];
      v := v & (0 - v);
      if v & 0x0F != 0 {
        unused := unused - 4;
      }
      if v & 0x33 != 0 {
        unused := unused - 2;
      }
      if v & 0x55 != 0 {
        unused := unused - 1;
      }
      tmp := BitString(st.buf[..b + 1], unused);
    } else {
      assert b == 0;
      CompactIs(st.buf, 0, 0);
      tmp := BitString(st.buf[..b], 0);
    }
  }

  lemma InByte(buf: seq<byte>, b: nat, i: nat)
    requires b < |buf| && 8 * b <= i < 8 * b + 8
    ensures BitAt(buf, i) == Bit(buf[b], i - 8 * b)
  {
  }

  lemma {:induction false} StripZeros(buf: seq<byte>, m: nat, n: nat)
    requires m <= n && forall i :: m <= i < n ==> !BitAt(buf, i)
    ensures Stripped(buf, n) == Stripped(buf, m)
  {
    hide BitAt;
    if m < n {
      StripZeros(buf, m, n - 1);
    }
  }

  /** A zero byte at the end strips off; another one ends at its lowest bit. */
  lemma StripByte(buf: seq<byte>, b: nat)
    requires b < |buf|
    ensures buf[b] == 0 ==> Stripped(buf, 8 * b + 8) == Stripped(buf, 8 * b)
    ensures buf[b] != 0 ==> Stripped(buf, 8 * b + 8) == 8 * b + 8 - Unused(buf[b])
  {
    hide Unused, BitAt;
    var m := if buf[b] == 0 then 8 * b else 8 * b + 8 - Unused(buf[b]);
    forall i | m <= i < 8 * b + 8
      ensures !BitAt(buf, i)
    {
      InByte(buf, b, i);
      ZeroByte(buf[b]);
      if buf[b] != 0 {
        UnusedIsLowest(buf[b]);
        assert !Bit(buf[b], i - 8 * b);
      }
    }
    StripZeros(buf, m, 8 * b + 8);
    if buf[b] != 0 {
      UnusedIsLowest(buf[b]);
      InByte(buf, b, m - 1);
    }
  }

  // ---- The order ----

  /** The same bits, up to trailing zeros. */
  ghost predicate Same(x: seq<byte>, y: seq<byte>) {
    forall i :: BitAt(x, i) == BitAt(y, i)
  }

  /** The two agree in front of bit `i`, where only `y` is set. */
  ghost predicate FirstAt(x: seq<byte>, y: seq<byte>, i: nat) {
    !BitAt(x, i) && BitAt(y, i) && forall j :: 0 <= j < i ==> BitAt(x, j) == BitAt(y, j)
  }

  /** In the first bit where the two differ, `y` is set. */
  ghost predicate Precedes(x: seq<byte>, y: seq<byte>) {
    exists i: nat :: FirstAt(x, y, i)
  }

  /** From a difference down to the first one. */
  lemma {:induction false} FirstDiffering(x: seq<byte>, y: seq<byte>, m: nat)
    ensures (exists i: nat :: i < m && (FirstAt(x, y, i) || FirstAt(y, x, i)))
         || forall i :: 0 <= i < m ==> BitAt(x, i) == BitAt(y, i)
  {
    hide BitAt;
    if m > 0 {
      FirstDiffering(x, y, m - 1);
      if BitAt(x, m - 1) != BitAt(y, m - 1) && forall i :: 0 <= i < m - 1 ==> BitAt(x, i) == BitAt(y, i) {
        assert FirstAt(x, y, m - 1) || FirstAt(y, x, m - 1);
      }
    }
  }

  /** Of two strings one precedes, or the other does, or they are the same; never two of these. */
  lemma Trichotomy(x: seq<byte>, y: seq<byte>)
    ensures Precedes(x, y) || Precedes(y, x) || Same(x, y)
    ensures !(Precedes(x, y) && Precedes(y, x)) && !(Precedes(x, y) && Same(x, y)) && !(Precedes(y, x) && Same(x, y))
  {
    if m: nat :| BitAt(x, m) != BitAt(y, m) {
      FirstDiffering(x, y, m + 1);
    }
  }

  /** The order is transitive, and does not see trailing zeros. */
  lemma PrecedesTransitive(x: seq<byte>, y: seq<byte>, z: seq<byte>)
    requires (Precedes(x, y) || Same(x, y)) && (Precedes(y, z) || Same(y, z))
    ensures if Same(x, y) && Same(y, z) then Same(x, z) else Precedes(x, z)
  {
    hide BitAt;
    if Precedes(x, y) {
      var i: nat :| FirstAt(x, y, i);
      if Precedes(y, z) {
        var j: nat :| FirstAt(y, z, j);
        assert FirstAt(x, z, if i < j then i else j);
      } else {
        assert FirstAt(x, z, i);
      }
    } else if Precedes(y, z) {
      var j: nat :| FirstAt(y, z, j);
      assert FirstAt(x, z, j);
    }
  }

  /** `memcmp` of the first `n` bytes, as its sign. */
  function MemCmp(x: seq<byte>, y: seq<byte>, i: nat, n: nat): (r: int)
    requires i <= n <= |x| && n <= |y|
    decreases n - i
  {
    if i == n then 0
    else if x[i] != y[i] then if x[i] < y[i] then -1 else 1
    else MemCmp(x, y, i + 1, n)
  }

  /** The sign of `memcmp` tells the order, unless the bytes are the same. */
  lemma {:induction false} MemCmpOrders(x: seq<byte>, y: seq<byte>, i: nat, n: nat)
    requires i <= n <= |x| && n <= |y| && x[..i] == y[..i]
    ensures var r := MemCmp(x, y, i, n);
            && (r < 0 ==> Precedes(x, y)) && (r > 0 ==> Precedes(y, x)) && (r == 0 ==> x[..n] == y[..n])
    decreases n - i
  {
    hide Precedes;
    if i < n {
      if x[i] != y[i] {
        DifferingByte(x, y, i);
      } else {
        assert x[..i + 1] == x[..i] + [x[i]] && y[..i + 1] == y[..i] + [y[i]];
        MemCmpOrders(x, y, i + 1, n);
      }
    }
  }

  lemma DifferingByte(x: seq<byte>, y: seq<byte>, b: nat)
    requires b < |x| && b < |y| && x[..b] == y[..b] && x[b] != y[b]
    ensures if x[b] < y[b] then Precedes(x, y) else Precedes(y, x)
  {
    hide Bit, BitAt, FirstDifference;
    ByteOrder(x[b], y[b]);
    var k := FirstDifference(x[b], y[b]);
    InByte(x, b, 8 * b + k);
    InByte(y, b, 8 * b + k);
    forall j | 0 <= j < 8 * b + k
      ensures BitAt(x, j) == BitAt(y, j)
    {
      if j < 8 * b {
        SameByte(x, y, b, j);
      } else {
        InByte(x, b, j);
        InByte(y, b, j);
      }
    }
    assert FirstAt(x, y, 8 * b + k) || FirstAt(y, x, 8 * b + k);
  }

  lemma SameByte(x: seq<byte>, y: seq<byte>, b: nat, j: nat)
    requires b <= |x| && b <= |y| && x[..b] == y[..b] && j < 8 * b
    ensures BitAt(x, j) == BitAt(y, j)
  {
  }

  /** A compact string that is longer, but starts with the bytes of the other, follows it. */
  lemma LongerFollows(c: seq<byte>, d: seq<byte>)
    requires |c| < |d| && c == d[..|c|] && d[|d| - 1] != 0
    ensures Precedes(c, d)
  {
    hide Bit, BitAt, Unused;
    var b := |d| - 1;
    UnusedIsLowest(d[b]);
    var m := 8 * b + 7 - Unused(d[b]);
    InByte(d, b, m);
    assert !BitAt(c, m) by {
      Beyond(c, m);
    }
    FirstDiffering(c, d, m + 1);
    var i: nat :| i < m + 1 && (FirstAt(c, d, i) || FirstAt(d, c, i));
    if i < 8 * |c| {
      assert c[..|c|] == c;
      SameByte(c, d, |c|, i);
    } else {
      Beyond(c, i);
    }
  }

  lemma Beyond(c: seq<byte>, i: nat)
    requires 8 * |c| <= i
    ensures !BitAt(c, i)
  {
  }

  /** The length of a compact form can be seen from its bytes. */
  lemma CompactLength(x: seq<byte>)
    ensures var c := Compact(x); c.Length() == Stripped(c.buf, 8 * |c.buf|)
  {
    hide BitAt;
    CompactBits(x);
    var c := Compact(x);
    StripZeros(c.buf, c.Length(), 8 * |c.buf|);
  }

  /** Compact forms with the same bytes have the same length. */
  lemma CompactDetermined(x: seq<byte>, y: seq<byte>)
    requires Compact(x).buf == Compact(y).buf
    ensures Compact(x) == Compact(y)
  {
    CompactLength(x);
    CompactLength(y);
  }

  lemma SameKeepsOrder(x: seq<byte>, y: seq<byte>, c: seq<byte>, d: seq<byte>)
    requires Same(x, c) && Same(y, d)
    ensures Precedes(c, d) ==> Precedes(x, y)
    ensures Same(c, d) ==> Same(x, y)
  {
    hide BitAt;
    if Precedes(c, d) {
      PrecedesTransitive(x, c, d);
      PrecedesTransitive(x, d, y);
    }
  }

  /**
   `BIT_STRING_compare`: the order of the bits, in which strings that differ in their trailing
   zeros alone are equal.
   */
  method Compare(aptr: BitString, bptr: BitString) returns (ret: int)
    requires aptr.buf == [] ==> aptr.unused == 0
    requires bptr.buf == [] ==> bptr.unused == 0
    ensures ret < 0 <==> Precedes(aptr.buf, bptr.buf)
    ensures ret > 0 <==> Precedes(bptr.buf, aptr.buf)
    ensures ret == 0 <==> Same(aptr.buf, bptr.buf)
  {
    hide Precedes, Same, Compact, MemCmp;
    var a := Compactify(aptr);
    var b := Compactify(bptr);
    CompactSame(aptr.buf);
    CompactSame(bptr.buf);
    SameKeepsOrder(aptr.buf, bptr.buf, a.buf, b.buf);
    SameKeepsOrder(bptr.buf, aptr.buf, b.buf, a.buf);
    Trichotomy(aptr.buf, bptr.buf);
    var commonPrefixSize := if |a.buf| <= |b.buf| then |a.buf| else |b.buf|;
    ret := MemCmp(a.buf, b.buf, 0, commonPrefixSize);
    MemCmpOrders(a.buf, b.buf, 0, commonPrefixSize);
    if ret == 0 {
      assert a.buf[..|a.buf|] == a.buf && b.buf[..|b.buf|] == b.buf;
      if |a.buf| < |b.buf| {
        LongerFollows(a.buf, b.buf);
        return -1;
      } else if |a.buf| > |b.buf| {
        LongerFollows(b.buf, a.buf);
        return 1;
      } else {
        CompactDetermined(aptr.buf, bptr.buf);
        SameReflexive(a.buf);
        if a.unused > b.unused {
          return -1;
        } else if a.unused < b.unused {
          return 1;
        } else {
          return 0;
        }
      }
    }
  }

  lemma CompactSame(buf: seq<byte>)
    ensures Same(buf, Compact(buf).buf)
    ensures var c := Compact(buf).buf; c != [] ==> c[|c| - 1] != 0
  {
    CompactBits(buf);
  }

  lemma SameReflexive(x: seq<byte>)
    ensures Same(x, x)
  {
  }
}
