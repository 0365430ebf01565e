/** The unaligned packed encoding of a BIT STRING (section 16 of X.691), and its inverse. */
module BitUper {
  import opened BitStream
  import opened MachineWords
  import opened Occurrence

  /** A size constraint; no `effectiveBits` below zero means that the length is not in a range. */
  datatype Size = Size(extensible: bool, effectiveBits: int, lower: int, upper: int) {
    predicate Ranged() {
      effectiveBits >= 0
    }

    /** What the generated tables satisfy. */
    predicate Valid() {
      Ranged() ==> 0 <= lower <= upper && upper - lower < Pow2(effectiveBits)
    }
  }

  const ANY_SIZE := Size(false, -1, 0, 0)

  const FRAGMENT: nat := 16384

  function Zeros(n: nat): (r: seq<bool>)
    ensures |r| == n && forall k :: 0 <= k < n ==> !r[k]
  {
    seq(n, _ => false)
  }

  function Least(a: nat, b: nat): nat {
    if a < b then a else b
  }

  /** How much of a length the next length field covers (section 11.9.3 of X.691). */
  function Covered(n: nat): (m: nat)
    ensures m <= n && (m < n ==> m >= FRAGMENT)
    ensures n > 0 ==> m > 0
    ensures n >= FRAGMENT ==> m % 8 == 0
  {
    if n < FRAGMENT then n else Least(n / FRAGMENT, 4) * FRAGMENT
  }

  /** The length field. */
  function LengthField(n: nat): seq<bool> {
    if n <= 127 then FewBits(n, 8)
    else if n < FRAGMENT then FewBits(n + 0x8000, 16)
    else FewBits(0xC0 + Least(n / FRAGMENT, 4), 8)
  }

  /** The bits from position `i` on with their length fields; whole fragments have an empty one behind them. */
  function Fragments(bits: seq<bool>, i: nat): seq<bool>
    requires i <= |bits|
    decreases |bits| - i
  {
    var n := |bits| - i;
    var m := Covered(n);
    if n < FRAGMENT then LengthField(n) + bits[i..]
    else LengthField(n) + bits[i..i + m] + Fragments(bits, i + m)
  }

  /** The length falls into the range of the constraint. */
  predicate InRoot(c: Size, n: nat) {
    c.Ranged() && n <= c.upper
  }

  /** How many zeros fill a short string up to the lower bound. */
  function Missing(c: Size, n: nat): nat {
    if InRoot(c, n) && n < c.lower then c.lower - n else 0
  }

  /** The number written for a length in the range. */
  function Offset(c: Size, n: nat): nat {
    if n < c.lower then 0 else n - c.lower
  }

  /** `BIT_STRING_encode_uper` of the bits of a compact string. */
  function EncodeBits(c: Size, bits: seq<bool>): Option<seq<bool>> {
    var n := |bits|;
    if c.Ranged() && n > c.upper && !c.extensible then None
    else
      var head := if c.extensible then [c.Ranged() && n > c.upper] else [];
      if !InRoot(c, n) then Some(head + Fragments(bits, 0))
      else if c.effectiveBits >= 32 then None
      else Some(head + FewBits(Offset(c, n), c.effectiveBits) + bits + Zeros(Missing(c, n)))
  }

  // ---- Decoding ----

  /** What `uper_get_length` reads: a length and whether another one follows, or nothing. */
  datatype Length = Length(pos: nat, n: int, again: bool) | NoLength

  function GetLength(s: seq<bool>, p: nat, effectiveBits: int, lower: int): (r: Length)
    requires p <= |s|
    ensures r.Length? ==> p <= r.pos <= |s| && (r.again ==> p < r.pos && r.n % 8 == 0 && r.n > 0)
  {
    if 0 <= effectiveBits <= 16 then
      match GetFew(s, p, effectiveBits)
      case None => NoLength
      case Some(v) => Length(p + effectiveBits, v + lower, false)
    else
      match GetFew(s, p, 8)
      case None => NoLength
      case Some(v) =>
        if v < 0x80 then Length(p + 8, v, false)
        else if v < 0xC0 then
          match GetFew(s, p + 8, 8)
          case None => NoLength
          case Some(w) => Length(p + 16, (v - 0x80) * 256 + w, false)
        else if 1 <= v - 0xC0 <= 4 then Length(p + 8, (v - 0xC0) * FRAGMENT, true)
        else NoLength
  }

  /** The bits read and the position behind them, or the wish for more input. */
  datatype Decoded = Done(pos: nat, bits: seq<bool>) | More

  function DecodeFragments(s: seq<bool>, p: nat, c: Size, bits: seq<bool>): (r: Decoded)
    requires p <= |s|
    ensures r.Done? ==> p <= r.pos <= |s|
    decreases |s| - p
  {
    match GetLength(s, p, c.effectiveBits, c.lower)
    case NoLength => More
    case Length(q, n, again) =>
      if n < 0 then More
      else if n == 0 then Done(q, bits)
      else if q + n > |s| then More
      else if again then DecodeFragments(s, q + n, c, bits + s[q..q + n])
      else Done(q + n, bits + s[q..q + n])
  }

  /** `BIT_STRING_decode_uper` at position `p`, as bits. */
  function DecodeBits(s: seq<bool>, p: nat, c: Size): (r: Decoded)
    requires p <= |s| && c.Valid()
    ensures r.Done? ==> p <= r.pos <= |s|
  {
    if c.extensible && p == |s| then More
    else
      var q := if c.extensible then p + 1 else p;
      var d := if c.extensible && s[p] then ANY_SIZE else c;
      if d.effectiveBits == 0 then
        if q + d.upper <= |s| then Done(q + d.upper, s[q..q + d.upper]) else More
      else DecodeFragments(s, q, d, [])
  }

  // ---- The inverse ----

  /** The length fields read back. */
  lemma LengthFieldReads(s: seq<bool>, p: nat, n: nat, c: Size)
    requires c.effectiveBits < 0 && Holds(s, p, LengthField(n))
    ensures GetLength(s, p, c.effectiveBits, c.lower)
         == Length(p + |LengthField(n)|, Covered(n), n >= FRAGMENT)
  {
    hide FewBits, Value;
    PowersOfTwo();
    if n <= 127 {
      FewBitsRead(s, p, n, 8);
    } else if n < FRAGMENT {
      FewBitsRead(s, p, n + 0x8000, 16);
      TwoBytes(s, p);
    } else {
      FewBitsRead(s, p, 0xC0 + Least(n / FRAGMENT, 4), 8);
    }
  }

  /** One round of the decoder. */
  lemma FragmentRead(s: seq<bool>, p: nat, c: Size, bits: seq<bool>, q: nat, w: seq<bool>, again: bool)
    requires p <= |s| && GetLength(s, p, c.effectiveBits, c.lower) == Length(q, |w|, again)
    requires Holds(s, q, w)
    ensures DecodeFragments(s, p, c, bits)
         == if again then DecodeFragments(s, q + |w|, c, bits + w) else Done(q + |w|, bits + w)
  {
    hide GetLength;
    HoldsSlice(s, q, w);
    if w == [] {
      assert bits + w == bits;
    }
  }

  /** Fragments are put together again. */
  lemma {:induction false} FragmentsRead(s: seq<bool>, p: nat, bits: seq<bool>, i: nat, c: Size)
    requires c.effectiveBits < 0 && i <= |bits| && Holds(s, p, Fragments(bits, i))
    ensures DecodeFragments(s, p, c, bits[..i]) == Done(p + |Fragments(bits, i)|, bits)
    decreases |bits| - i
  {
    hide LengthField, GetLength, DecodeFragments, Covered, Holds;
    var n := |bits| - i;
    var m := Covered(n);
    var field := LengthField(n);
    if n < FRAGMENT {
      CoveredAll(n);
      HoldsSplit(s, p, field, bits[i..]);
      LengthFieldReads(s, p, n, c);
      FragmentRead(s, p, c, bits[..i], p + |field|, bits[i..], false);
      assert bits[..i] + bits[i..] == bits;
    } else {
      HoldsSplit(s, p, field + bits[i..i + m], Fragments(bits, i + m));
      HoldsSplit(s, p, field, bits[i..i + m]);
      LengthFieldReads(s, p, n, c);
      FragmentRead(s, p, c, bits[..i], p + |field|, bits[i..i + m], true);
      assert bits[..i] + bits[i..i + m] == bits[..i + m];
      FragmentsRead(s, p + |field| + m, bits, i + m, c);
    }
  }

  lemma CoveredAll(n: nat)
    requires n < FRAGMENT
    ensures Covered(n) == n
  {
  }

  /** A string in the range is read back with the zeros that fill it up. */
  lemma RootReads(s: seq<bool>, p: nat, bits: seq<bool>, c: Size)
    requires c.Valid() && InRoot(c, |bits|) && 0 < c.effectiveBits <= 16
    requires Holds(s, p, Body(c, bits))
    ensures DecodeFragments(s, p, c, [])
         == Done(p + c.effectiveBits + |bits| + Missing(c, |bits|), bits + Zeros(Missing(c, |bits|)))
  {
    hide FewBits, Value, Zeros;
    var field, zeros := FewBits(Offset(c, |bits|), c.effectiveBits), Zeros(Missing(c, |bits|));
    HoldsSplit(s, p, field, bits + zeros);
    FewBitsRead(s, p, Offset(c, |bits|), c.effectiveBits);
    HoldsSlice(s, p + c.effectiveBits, bits + zeros);
  }

  /** A string of fixed size is read back with the zeros that fill it up. */
  lemma FixedReads(s: seq<bool>, p: nat, bits: seq<bool>, c: Size)
    requires c.Valid() && InRoot(c, |bits|) && c.effectiveBits == 0
    requires Holds(s, p, Body(c, bits))
    ensures |bits| + Missing(c, |bits|) == c.upper && p + c.upper <= |s|
    ensures s[p..p + c.upper] == bits + Zeros(Missing(c, |bits|))
  {
    hide Zeros;
    var zeros := Zeros(Missing(c, |bits|));
    assert RootField(c, |bits|) + (bits + zeros) == bits + zeros;
    HoldsSlice(s, p, bits + zeros);
  }

  /** The decoder reads the length field that the encoder writes: all but those of more than 16 bits. */
  predicate Readable(c: Size, n: nat) {
    InRoot(c, n) ==> c.effectiveBits <= 16
  }

  /** The encoding in its two parts: the extension bit, and what stands behind it. */
  function Head(c: Size, n: nat): seq<bool> {
    if c.extensible then [c.Ranged() && n > c.upper] else []
  }

  function Body(c: Size, bits: seq<bool>): seq<bool> {
    if InRoot(c, |bits|) then RootField(c, |bits|) + (bits + Zeros(Missing(c, |bits|))) else Fragments(bits, 0)
  }

  function RootField(c: Size, n: nat): seq<bool> {
    FewBits(Offset(c, n), if c.Ranged() then c.effectiveBits else 0)
  }

  lemma EncodingParts(c: Size, bits: seq<bool>)
    requires EncodeBits(c, bits).Some?
    ensures EncodeBits(c, bits).value == Head(c, |bits|) + Body(c, bits)
    ensures InRoot(c, |bits|) ==> c.effectiveBits < 32
    ensures c.Ranged() && !InRoot(c, |bits|) ==> c.extensible
  {
    hide FewBits, Fragments, Zeros;
    if InRoot(c, |bits|) {
      HeadApart(Head(c, |bits|), RootField(c, |bits|), bits, Zeros(Missing(c, |bits|)));
    }
  }

  /**
   What was encoded is decoded, wherever it stands in a stream: the position behind it, and
   the same bits, filled up with zeros to the lower bound of the range. That is so exactly
   when the length field has at most 16 bits, or the length is outside the range.
   */
  lemma BitsRoundTrip(s: seq<bool>, p: nat, bits: seq<bool>, c: Size)
    requires c.Valid() && EncodeBits(c, bits).Some? && Holds(s, p, EncodeBits(c, bits).value)
    ensures DecodeBits(s, p, c) == Done(p + |EncodeBits(c, bits).value|, bits + Zeros(Missing(c, |bits|)))
       <==> Readable(c, |bits|)
  {
    hide Fragments, DecodeFragments, FewBits, Zeros, EncodeBits;
    EncodingParts(c, bits);
    HoldsSplit(s, p, Head(c, |bits|), Body(c, bits));
    if c.extensible {
      assert s[p] == Head(c, |bits|)[0];
    }
    var q := p + |Head(c, |bits|)|;
    if !InRoot(c, |bits|) {
      FragmentsRead(s, q, bits, 0, if c.Ranged() then ANY_SIZE else c);
      assert bits[..0] == [] && bits + Zeros(0) == bits;
    } else if c.effectiveBits == 0 {
      FixedReads(s, q, bits, c);
    } else if c.effectiveBits <= 16 {
      RootReads(s, q, bits, c);
    } else {
      WideFieldMisread(s, q, bits, c);
    }
  }

  lemma HeadApart(a: seq<bool>, b: seq<bool>, c: seq<bool>, d: seq<bool>)
    ensures a + b + c + d == a + (b + c + d)
  {
  }

  /**
   Encoding fails exactly for a string that is longer than a range without an extension
   allows, and for a length in the range whose field has more than 31 bits.
   */
  lemma EncodeFails(c: Size, bits: seq<bool>)
    requires c.Valid()
    ensures EncodeBits(c, bits) == None
       <==> (c.Ranged() && |bits| > c.upper && !c.extensible) || (InRoot(c, |bits|) && c.effectiveBits >= 32)
  {
  }

  /** The emitted length is in the range. */
  lemma EmittedInRange(c: Size, n: nat)
    requires c.Valid() && InRoot(c, n)
    ensures c.lower <= n + Missing(c, n) <= c.upper
    ensures Offset(c, n) + c.lower == n + Missing(c, n) && Offset(c, n) < Pow2(c.effectiveBits)
  {
  }

  // ---- Length fields of more than 16 bits ----

  /**
   A decoder that does not know the length field reads one length field of one or two bytes
   for every piece it finds, and no piece has more than 64K bits.
   */
  lemma {:induction false} FragmentsCost(s: seq<bool>, p: nat, c: Size, bits: seq<bool>) returns (k: nat)
    requires p <= |s| && c.effectiveBits > 16 && DecodeFragments(s, p, c, bits).Done?
    ensures var r := DecodeFragments(s, p, c, bits);
            r.pos - p == |r.bits| - |bits| + 8 * k && |bits| <= |r.bits| <= |bits| + 65536 * k && k > 0
    decreases |s| - p
  {
    var f := GetLength(s, p, c.effectiveBits, c.lower);
    LengthCost(s, p, c);
    k := (f.pos - p) / 8;
    if f.again {
      var rest := FragmentsCost(s, f.pos + f.n, c, bits + s[f.pos..f.pos + f.n]);
      k := k + rest;
    }
  }

  lemma LengthCost(s: seq<bool>, p: nat, c: Size)
    requires p <= |s| && c.effectiveBits > 16 && GetLength(s, p, c.effectiveBits, c.lower).Length?
    ensures var f := GetLength(s, p, c.effectiveBits, c.lower);
            && (f.pos == p + 8 || f.pos == p + 16) && 0 <= f.n <= 65536
            && (f.pos == p + 16 ==> !f.again)
            && (f.again ==> Value(s, p, 8) > 0xC0)
  {
    hide Value;
    PowersOfTwo();
    if p + 16 <= |s| {
      ValueBelow(s, p + 8, 8);
    }
    if p + 8 <= |s| {
      ValueBelow(s, p, 8);
    }
  }

  lemma ValueBelow(s: seq<bool>, p: nat, n: nat)
    requires p + n <= |s|
    ensures Value(s, p, n) < Pow2(n)
  {
  }

  lemma Doubled(v: nat, w: nat)
    ensures v * (2 * w) == 2 * (v * w)
  {
  }

  /** The first bits of a number count for their powers of two. */
  lemma {:induction false} FirstBitsCount(s: seq<bool>, p: nat, a: nat, b: nat)
    requires p + a + b <= |s|
    ensures Value(s, p, a) * Pow2(b) <= Value(s, p, a + b)
  {
    hide Value;
    if b > 0 {
      FirstBitsCount(s, p, a, b - 1);
      ValueStep(s, p, a + (b - 1));
      Doubled(Value(s, p, a), Pow2(b - 1));
    }
  }

  /** No string in the range is read back behind a length field of more than 16 bits. */
  lemma WideFieldMisread(s: seq<bool>, p: nat, bits: seq<bool>, c: Size)
    requires c.Valid() && InRoot(c, |bits|) && 16 < c.effectiveBits < 32 && Holds(s, p, Body(c, bits))
    ensures DecodeFragments(s, p, c, [])
         != Done(p + |Body(c, bits)|, bits + Zeros(Missing(c, |bits|)))
  {
    hide FewBits, Value, Zeros, DecodeFragments, GetLength;
    var n := |bits| + Missing(c, |bits|);
    if DecodeFragments(s, p, c, []) == Done(p + |Body(c, bits)|, bits + Zeros(Missing(c, |bits|))) {
      var k := FragmentsCost(s, p, c, []);
      assert c.effectiveBits == 8 * k;
      assert k == 3;
      HoldsSplit(s, p, RootField(c, |bits|), bits + Zeros(Missing(c, |bits|)));
      FewBitsRead(s, p, Offset(c, |bits|), 24);
      FirstBitsCount(s, p, 8, 16);
      PowersOfTwo();
      ShortFieldEnds(s, p, c);
    }
  }

  /** A length below 0x80 in the first byte is the only one read. */
  lemma ShortFieldEnds(s: seq<bool>, p: nat, c: Size)
    requires p + 8 <= |s| && c.effectiveBits > 16 && Value(s, p, 8) < 0x80 && DecodeFragments(s, p, c, []).Done?
    ensures DecodeFragments(s, p, c, []).pos == p + 8 + |DecodeFragments(s, p, c, []).bits|
  {
  }
}
