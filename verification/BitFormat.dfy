/** The layout of the encoding, bit by bit: what stands at each position of the stream. */
module BitFormat {
  import opened BitStream
  import opened BitUper
  import opened MachineWords
  import opened Occurrence

  /** The binary digit of weight `2^k`. */
  predicate Digit(v: nat, k: nat) {
    if k == 0 then v % 2 == 1 else Digit(v / 2, k - 1)
  }

  /** A field holds the binary digits of its number, the one of the greatest weight first. */
  lemma {:induction false} FewBitsAt(v: nat, n: nat, k: nat)
    requires k < n
    ensures FewBits(v, n)[k] <==> Digit(v, n - 1 - k)
  {
    if k < n - 1 {
      FewBitsAt(v / 2, n - 1, k);
    }
  }

  /** A digit of weight `2^n` in front leaves the others as they are. */
  lemma {:induction false} DigitAbove(v: nat, n: nat, k: nat)
    requires v < Pow2(n) && k <= n
    ensures Digit(v + Pow2(n), k) <==> k == n || Digit(v, k)
    ensures k == n ==> !Digit(v, k)
  {
    if n > 0 && k > 0 {
      assert (v + Pow2(n)) / 2 == v / 2 + Pow2(n - 1);
      DigitAbove(v / 2, n - 1, k - 1);
    }
  }

  /**
   The length field: a zero and seven digits, or a one, a zero and fourteen digits, or two ones,
   three zeros and three digits for the number of fragments of 16K bits, of which there are
   at most four.
   */
  lemma LengthFieldLayout(n: nat, k: nat)
    ensures var f := LengthField(n);
      && (n <= 127 ==> |f| == 8 && !f[0] && (k < 7 ==> (f[1 + k] <==> Digit(n, 6 - k))))
      && (127 < n < 16384 ==> |f| == 16 && f[0] && !f[1] && (k < 14 ==> (f[2 + k] <==> Digit(n, 13 - k))))
      && (16384 <= n ==>
            f == [true, true, false, false, false,
                  n >= 65536, 32768 <= n < 65536, 16384 <= n < 32768 || 49152 <= n < 65536])
  {
    hide FewBits, Digit;
    Powers();
    if n <= 127 {
      FewBitsAt(n, 8, 0);
      NoDigit(n, 7);
      if k < 7 { FewBitsAt(n, 8, 1 + k); }
    } else if n < 16384 {
      FewBitsAt(n + 0x8000, 16, 0);
      FewBitsAt(n + 0x8000, 16, 1);
      DigitAbove(n, 15, 15);
      DigitAbove(n, 15, 14);
      NoDigit(n, 14);
      if k < 14 {
        FewBitsAt(n + 0x8000, 16, 2 + k);
        DigitAbove(n, 15, 13 - k);
      }
    } else {
      FragmentByte(if n >= 65536 then 4 else n / 16384);
    }
  }

  lemma Powers()
    ensures Pow2(7) == 128 && Pow2(14) == 16384 && Pow2(15) == 0x8000
  {
  }

  lemma {:induction false} NoDigit(v: nat, k: nat)
    requires v < Pow2(k)
    ensures !Digit(v, k)
  {
    if k > 0 { NoDigit(v / 2, k - 1); }
  }

  lemma FragmentByte(q: nat)
    requires 1 <= q <= 4
    ensures FewBits(0xC0 + q, 8) == [true, true, false, false, false, q == 4, q == 2 || q == 3, q == 1 || q == 3]
  {
    var v := 0xC0 + q;
    assert FewBits(v, 8) == FewBits(v / 2, 7) + [v % 2 == 1];
    assert FewBits(v / 2, 7) == FewBits(v / 4, 6) + [v / 2 % 2 == 1];
    assert FewBits(v / 4, 6) == FewBits(v / 8, 5) + [v / 4 % 2 == 1];
    assert FewBits(v / 8, 5) == FewBits(24, 5);
    assert FewBits(24, 5) == [true, true, false, false, false];
  }

  /** Where the content starts: behind the extension bit and, in the range, the length field. */
  ghost function Front(c: Size): nat {
    if c.extensible then 1 else 0
  }

  /** The extension bit says whether the length is outside the range. */
  lemma ExtensionBit(c: Size, bits: seq<bool>)
    requires c.extensible && EncodeBits(c, bits).Some?
    ensures var e := EncodeBits(c, bits).value;
            |e| > 0 && (e[0] <==> c.effectiveBits >= 0 && |bits| > c.upper)
  {
    hide FewBits, Fragments, Zeros;
  }

  /**
   A string in the range: the digits of its length less the lower bound, of zero for a short
   string, then its bits, then zeros up to the lower bound.
   */
  lemma RootLayout(c: Size, bits: seq<bool>, k: nat)
    requires c.Valid() && c.effectiveBits >= 0 && |bits| <= c.upper && EncodeBits(c, bits).Some?
    ensures var e, h := EncodeBits(c, bits).value, Front(c);
      var content := h + c.effectiveBits;
      && |e| == content + (if |bits| < c.lower then c.lower else |bits|)
      && (k < c.effectiveBits ==>
            (e[h + k] <==> |bits| > c.lower && Digit(|bits| - c.lower, c.effectiveBits - 1 - k)))
      && (content + k < |e| ==> (e[content + k] <==> k < |bits| && bits[k]))
  {
    hide FewBits, Fragments, Digit;
    if k < c.effectiveBits {
      FewBitsAt(Offset(c, |bits|), c.effectiveBits, k);
      ZeroDigits(c.effectiveBits - 1 - k);
    }
  }

  lemma {:induction false} ZeroDigits(k: nat)
    ensures !Digit(0, k)
  {
    if k > 0 { ZeroDigits(k - 1); }
  }

  /** Outside the range the encoding is that of the fragments. */
  lemma OpenLayout(c: Size, bits: seq<bool>)
    requires c.effectiveBits < 0 || (c.extensible && |bits| > c.upper)
    ensures EncodeBits(c, bits).Some? && EncodeBits(c, bits).value[Front(c)..] == Fragments(bits, 0)
  {
    hide FewBits, Fragments, Zeros;
  }

  // ---- Fragments ----

  /** The number of fragments of up to 64K bits that a string of `n` bits is split into. */
  ghost function Pieces(n: nat): nat {
    n / 65536 + if n % 65536 >= 16384 then 1 else 0
  }

  /** The length field in front of the part behind the fragments. */
  ghost function LastField(n: nat): nat {
    if n % 16384 <= 127 then 8 else 16
  }

  /** Where bit `i` of a string of `n` bits stands: every piece up to its own has a field in front of it. */
  ghost function Place(n: nat, i: nat): nat
    requires i < n
  {
    if i < n - n % 16384 then i + 8 * (i / 65536 + 1) else i + 8 * Pieces(n) + LastField(n)
  }

  lemma FragmentsUnfold(bits: seq<bool>, a: nat)
    requires a <= |bits|
    ensures var n := |bits| - a;
      && (n < 16384 ==> Fragments(bits, a) == LengthField(n) + bits[a..])
      && (16384 <= n < 65536 ==>
            && n - n % 16384 > 0
            && Fragments(bits, a)
               == LengthField(n) + bits[a..a + (n - n % 16384)] + Fragments(bits, a + (n - n % 16384)))
      && (65536 <= n ==> Fragments(bits, a) == LengthField(n) + bits[a..a + 65536] + Fragments(bits, a + 65536))
  {
    hide LengthField;
  }

  lemma FieldLength(n: nat)
    ensures |LengthField(n)| == if n <= 127 || n >= 16384 then 8 else 16
  {
  }

  /** The fields of the pieces behind the first 64K bits stand in the same places. */
  lemma PlaceShifts(n: nat, i: nat)
    requires i < n && n >= 65536
    ensures Pieces(n) == 1 + Pieces(n - 65536) && LastField(n) == LastField(n - 65536)
    ensures i < 65536 ==> Place(n, i) == i + 8
    ensures i >= 65536 ==> Place(n, i) == 8 + 65536 + Place(n - 65536, i - 65536)
  {
  }

  lemma PlaceLast(n: nat, i: nat)
    requires n < 16384
    ensures Pieces(n) == 0 && (i < n ==> Place(n, i) == i + LastField(n))
  {
  }

  /** The bits of a first piece, and what stands behind it. */
  lemma PieceAt(bits: seq<bool>, a: nat, m: nat, field: seq<bool>, rest: seq<bool>, f: seq<bool>, k: nat)
    requires a + m <= |bits| && f == field + bits[a..a + m] + rest
    ensures |f| == |field| + m + |rest|
    ensures k < m ==> f[|field| + k] == bits[a + k]
    ensures k < |rest| ==> f[|field| + m + k] == rest[k]
  {
  }

  /** Less than a fragment is left. */
  lemma LastPart(bits: seq<bool>, a: nat, k: nat)
    requires a <= |bits| && |bits| - a < 16384
    ensures var n, f := |bits| - a, Fragments(bits, a);
      && |f| == LastField(n) + n
      && (k < n ==> f[LastField(n) + k] == bits[a + k])
  {
    hide LengthField, Fragments;
    FragmentsUnfold(bits, a);
    FieldLength(|bits| - a);
  }

  /** The places in less than a full piece of 64K bits, the whole fragments of which are `m` bits. */
  lemma PlaceEnds(n: nat, i: nat, m: nat)
    requires 16384 <= n < 65536 && m == n - n % 16384
    ensures Pieces(n) == 1 && LastField(n) == LastField(n - m) && n - m < 16384 && 0 < m <= n
    ensures i < n ==> Place(n, i) == if i < m then i + 8 else i + 8 + LastField(n)
  {
    assert (n - m) % 16384 == n % 16384;
  }

  /** Less than a full piece of 64K bits. */
  lemma FragmentsEnd(bits: seq<bool>, a: nat, i: nat)
    requires a <= |bits| && 16384 <= |bits| - a < 65536
    ensures var n, f := |bits| - a, Fragments(bits, a);
      && |f| == n + 8 * Pieces(n) + LastField(n)
      && (i < n ==> Place(n, i) < |f| && f[Place(n, i)] == bits[a + i])
  {
    hide LengthField, Fragments, Place, LastField, Pieces;
    var n := |bits| - a;
    var m := n - n % 16384;
    FragmentsUnfold(bits, a);
    FieldLength(n);
    PlaceEnds(n, i, m);
    LastPart(bits, a + m, if i < m then 0 else i - m);
    PieceAt(bits, a, m, LengthField(n), Fragments(bits, a + m), Fragments(bits, a),
            if i < m then i else LastField(n) + (i - m));
  }

  /**
   A string in fragments: as many bits as it has itself, eight for each fragment, and the last
   length field. Every bit stands behind the fields of the pieces in front of it and its own.
   */
  lemma {:induction false} FragmentsLayout(bits: seq<bool>, a: nat, i: nat)
    requires a <= |bits|
    ensures var n, f := |bits| - a, Fragments(bits, a);
      && |f| == n + 8 * Pieces(n) + LastField(n)
      && (i < n ==> Place(n, i) < |f| && f[Place(n, i)] == bits[a + i])
    decreases |bits| - a
  {
    hide LengthField, Fragments, Pieces, LastField, Place;
    var n := |bits| - a;
    if n < 16384 {
      LastPart(bits, a, i);
      PlaceLast(n, i);
    } else if n < 65536 {
      FragmentsEnd(bits, a, i);
    } else {
      FragmentsUnfold(bits, a);
      FieldLength(n);
      var j, rest := if i < 65536 then 0 else i - 65536, Fragments(bits, a + 65536);
      FragmentsLayout(bits, a + 65536, j);
      PlaceShifts(n, if i < n then i else 0);
      PieceAt(bits, a, 65536, LengthField(n), rest, Fragments(bits, a), i);
      if 65536 <= i < n {
        PieceAt(bits, a, 65536, LengthField(n), rest, Fragments(bits, a), Place(n - 65536, j));
      }
    }
  }

  /**
   The length fields: each piece has one that counts all that is left, and the last one stands
   behind the pieces and counts what is less than a fragment.
   */
  lemma {:induction false} FieldsLayout(bits: seq<bool>, a: nat, j: nat)
    requires a <= |bits| && j <= Pieces(|bits| - a)
    ensures var n, f := |bits| - a, Fragments(bits, a);
      && (j < Pieces(n) ==> 65536 * j <= n && Holds(f, 65544 * j, LengthField(n - 65536 * j)))
      && Holds(f, n - n % 16384 + 8 * Pieces(n), LengthField(n % 16384))
    decreases |bits| - a
  {
    hide LengthField, Fragments, Pieces, Holds;
    var n := |bits| - a;
    FragmentsUnfold(bits, a);
    FieldLength(n);
    if n < 16384 {
      PlaceLast(n, 0);
      FrontHolds(LengthField(n), bits[a..]);
    } else if n < 65536 {
      var m := n - n % 16384;
      PlaceEnds(n, 0, m);
      FragmentsUnfold(bits, a + m);
      FrontHolds(LengthField(n), bits[a..a + m] + Fragments(bits, a + m));
      FrontHolds(LengthField(n - m), bits[a + m..]);
      Grouped(LengthField(n), bits[a..a + m], Fragments(bits, a + m));
      HoldsBehind(LengthField(n) + bits[a..a + m], Fragments(bits, a + m), 0, LengthField(n - m));
    } else {
      PlaceShifts(n, 0);
      var front := LengthField(n) + bits[a..a + 65536];
      Grouped(LengthField(n), bits[a..a + 65536], Fragments(bits, a + 65536));
      FrontHolds(LengthField(n), bits[a..a + 65536] + Fragments(bits, a + 65536));
      var k := if j == 0 then 0 else j - 1;
      FieldsLayout(bits, a + 65536, k);
      var rest := Fragments(bits, a + 65536);
      if j > 0 && k < Pieces(n - 65536) {
        HoldsBehind(front, rest, 65544 * k, LengthField(n - 65536 - 65536 * k));
      }
      var last := n - 65536 - (n - 65536) % 16384 + 8 * Pieces(n - 65536);
      HoldsBehind(front, rest, last, LengthField((n - 65536) % 16384));
    }
  }

  lemma FrontHolds(w: seq<bool>, s: seq<bool>)
    ensures Holds(w + s, 0, w)
  {
  }

  lemma Grouped(a: seq<bool>, b: seq<bool>, c: seq<bool>)
    ensures a + b + c == a + (b + c)
  {
  }

  lemma HoldsBehind(front: seq<bool>, s: seq<bool>, p: nat, w: seq<bool>)
    requires Holds(s, p, w)
    ensures Holds(front + s, |front| + p, w)
  {
    forall k | 0 <= k < |w|
      ensures (front + s)[|front| + p + k] == w[k]
    {
      HoldsAt(s, p, w, k);
    }
  }

  // ---- Reading a length field ----

  /** The weight of a bit, if it is set. */
  ghost function Weighs(b: bool, w: nat): nat {
    if b then w else 0
  }

  lemma NibbleValue(s: seq<bool>, p: nat, n: nat)
    requires p + n + 4 <= |s|
    ensures Value(s, p, n + 4)
         == 16 * Value(s, p, n) + (Weighs(s[p + n], 8) + Weighs(s[p + n + 1], 4)
                                   + Weighs(s[p + n + 2], 2) + Weighs(s[p + n + 3], 1))
  {
    hide Value;
    ValueStep(s, p, n);
    ValueStep(s, p, n + 1);
    ValueStep(s, p, n + 2);
    ValueStep(s, p, n + 3);
  }

  lemma ByteValue(s: seq<bool>, p: nat)
    requires p + 8 <= |s|
    ensures Value(s, p, 8)
         == Weighs(s[p], 128) + Weighs(s[p + 1], 64) + Weighs(s[p + 2], 32) + Weighs(s[p + 3], 16)
          + Weighs(s[p + 4], 8) + Weighs(s[p + 5], 4) + Weighs(s[p + 6], 2) + Weighs(s[p + 7], 1)
  {
    hide Value, Weighs;
    NoValue(s, p);
    NibbleValue(s, p, 0);
    NibbleValue(s, p, 4);
    Sixteen(s[p], 8);
    Sixteen(s[p + 1], 4);
    Sixteen(s[p + 2], 2);
    Sixteen(s[p + 3], 1);
  }

  lemma Sixteen(b: bool, w: nat)
    ensures 16 * Weighs(b, w) == Weighs(b, 16 * w)
  {
  }

  lemma NoValue(s: seq<bool>, p: nat)
    requires p <= |s|
    ensures Value(s, p, 0) == 0
  {
  }

  /**
   A length outside the range is read exactly from a byte that starts with a zero, from two
   bytes that start with a one and a zero, and from a byte with two ones and between one and
   four fragments.
   */
  lemma LengthFieldAccepted(s: seq<bool>, p: nat, c: Size)
    requires p <= |s| && (c.effectiveBits < 0 || c.effectiveBits > 16)
    ensures GetLength(s, p, c.effectiveBits, c.lower).Length?
       <==> && p + 8 <= |s|
            && (|| !s[p]
                || (!s[p + 1] && p + 16 <= |s|)
                || (s[p + 1] && !s[p + 2] && !s[p + 3] && !s[p + 4] && (s[p + 5] != (s[p + 6] || s[p + 7]))))
  {
    hide Value;
    if p + 8 <= |s| {
      ByteValue(s, p);
    }
  }

  /** What is read: seven digits, fourteen digits, or a number of fragments with more behind them. */
  lemma LengthFieldValue(s: seq<bool>, p: nat, c: Size)
    requires p <= |s| && (c.effectiveBits < 0 || c.effectiveBits > 16)
    requires GetLength(s, p, c.effectiveBits, c.lower).Length?
    ensures var r := GetLength(s, p, c.effectiveBits, c.lower);
      && (r.again <==> s[p] && s[p + 1])
      && r.pos == (if s[p] && !s[p + 1] then p + 16 else p + 8)
      && r.n == (if !s[p] then Value(s, p, 8)
                 else if !s[p + 1] then 256 * (Value(s, p, 8) - 128) + Value(s, p + 8, 8)
                 else 16384 * (Value(s, p, 8) - 192))
  {
    hide Value;
    ByteValue(s, p);
  }
}
