/** `BIT_STRING_encode_uper` and `BIT_STRING_decode_uper`, with their loops over buffers. */
module BitCodec {
  import opened BitBytes
  import opened BitStream
  import opened BitString
  import opened BitUper
  import opened MachineWords
  import opened Occurrence

  /** The bits of a compact string. */
  function CompactBitsOf(buf: seq<byte>): (r: seq<bool>)
    ensures |r| == Compact(buf).Length()
  {
    Bits(buf, 0, Compact(buf).Length())
  }

  /** The loop that appends zeros, at most 128 of them at a time. */
  method PutZeros(before: seq<bool>, n: nat) returns (out: seq<bool>)
    ensures out == before + Zeros(n)
  {
    out := before;
    var trailingZeroBits := n;
    while trailingZeroBits > 0
      invariant 0 <= trailingZeroBits <= n
      invariant out == before + Zeros(n - trailingZeroBits)
    {
      if trailingZeroBits > 128 {
        out := out + Zeros(128);
        trailingZeroBits := trailingZeroBits - 128;
      } else {
        out := out + Zeros(trailingZeroBits);
        trailingZeroBits := 0;
      }
    }
  }

  /** `uper_put_length`: how much is covered, and whether an empty length must follow. */
  method PutLength(before: seq<bool>, length: nat) returns (out: seq<bool>, maySave: nat, needEom: bool)
    ensures out == before + LengthField(length) && maySave == Covered(length)
    ensures needEom <==> length >= FRAGMENT && maySave == length
  {
    if length <= 127 {
      return before + FewBits(length, 8), length, false;
    } else if length < FRAGMENT {
      return before + FewBits(length + 0x8000, 16), length, false;
    }
    needEom := length % FRAGMENT == 0;
    var chunks := length / FRAGMENT;
    if chunks > 4 {
      needEom := false;
      chunks := 4;
    }
    return before + FewBits(0xC0 + chunks, 8), chunks * FRAGMENT, needEom;
  }

  /** The loop over the fragments of a string of `sizeInBits` bits. */
  method PutFragments(before: seq<bool>, buf: seq<byte>, sizeInBits: nat) returns (out: seq<bool>)
    ensures out == before + Fragments(Bits(buf, 0, sizeInBits), 0)
  {
    hide Bits, Covered, LengthField;
    ghost var bits := Bits(buf, 0, sizeInBits);
    out := before;
    var offset, left := 0, sizeInBits;
    var more := true;
    while more
      invariant more ==> 8 * offset + left == sizeInBits
      invariant more ==> out + Fragments(bits, 8 * offset) == before + Fragments(bits, 0)
      invariant !more ==> out == before + Fragments(bits, 0)
      decreases more, left
    {
      ghost var was, i := out, 8 * offset;
      var maySave, needEom;
      out, maySave, needEom := PutLength(out, left);
      out := out + Bits(buf, 8 * offset, maySave);
      BitsSlice(buf, sizeInBits, i, maySave);
      FragmentStep(was, bits, i, maySave);
      offset := offset + maySave / 8;
      left := left - maySave;
      if needEom {
        var none, last;
        LastFragment(bits);
        out, none, last := PutLength(out, 0);
      }
      more := left > 0;
    }
  }

  lemma BitsSlice(buf: seq<byte>, n: nat, i: nat, m: nat)
    requires i + m <= n
    ensures Bits(buf, 0, n)[i..i + m] == Bits(buf, i, m)
  {
  }

  lemma FragmentStep(was: seq<bool>, bits: seq<bool>, i: nat, m: nat)
    requires i <= |bits| && m == Covered(|bits| - i)
    ensures |bits| - i >= FRAGMENT ==>
      m % 8 == 0 && was + LengthField(|bits| - i) + bits[i..i + m] + Fragments(bits, i + m) == was + Fragments(bits, i)
    ensures |bits| - i < FRAGMENT ==>
      m == |bits| - i && was + LengthField(|bits| - i) + bits[i..i + m] == was + Fragments(bits, i)
  {
    hide LengthField;
  }

  lemma LastFragment(bits: seq<bool>)
    ensures Fragments(bits, |bits|) == LengthField(0) && Covered(0) == 0
  {
  }

  /** `BIT_STRING_encode_uper`: what is written, or nothing on failure. */
  method EncodeUper(st: BitString, csiz: Size) returns (er: Option<seq<bool>>)
    ensures er == if st.Valid() then EncodeBits(csiz, CompactBitsOf(st.buf)) else None
    ensures csiz.Valid() ==>
      var n := Compact(st.buf).Length();
      (er == None <==> || st.unused > 7 || (st.buf == [] && st.unused > 0)
                       || (csiz.effectiveBits >= 0 && n > csiz.upper && !csiz.extensible)
                       || (csiz.effectiveBits >= 32 && n <= csiz.upper))
  {
    if csiz.Valid() {
      EncodeFails(csiz, CompactBitsOf(st.buf));
    }
    hide Compact, Bits, FewBits, Fragments;
    if (st.buf == [] && st.unused != 0) || st.unused > 7 {
      return None;
    }
    var compact := Compactify(st);
    var sizeInBits := compact.Length();
    CompactBitsSame(st.buf, compact);
    var po: seq<bool> := [];
    var inext := false;
    if csiz.effectiveBits >= 0 {
      if sizeInBits > csiz.upper {
        if csiz.extensible {
          inext := true;
        } else {
          return None;
        }
      }
    }
    if csiz.extensible {
      po := po + [inext];
      assert po == [inext];
    }
    if csiz.effectiveBits >= 0 && !inext {
      var addTrailer := sizeInBits < csiz.lower;
      match PutFew(po, if addTrailer then 0 else sizeInBits - csiz.lower, csiz.effectiveBits) {
        case None => return None;
        case Some(out) => po := out;
      }
      po := po + Bits(compact.buf, 0, sizeInBits);
      if addTrailer {
        po := PutZeros(po, csiz.lower - sizeInBits);
      } else {
        assert po + Zeros(0) == po;
      }
      return Some(po);
    }
    po := PutFragments(po, compact.buf, sizeInBits);
    er := Some(po);
  }

  lemma CompactBitsSame(buf: seq<byte>, c: BitString)
    requires c == Compact(buf)
    ensures Bits(c.buf, 0, c.Length()) == CompactBitsOf(buf)
  {
  }

  /** What the decoder returns: a value and the position behind it, or the wish for more input. */
  datatype Read = Read(pos: nat, st: BitString) | WantMore

  /** The bits as a value. The number of unused bits is only set when there are some. */
  function Unpack(bits: seq<bool>, unused: nat): BitString {
    BitString(Pack(bits), if |bits| % 8 != 0 then 8 - |bits| % 8 else unused)
  }

  /** The range that holds for a value, which the extension bit switches off. */
  function Effective(s: seq<bool>, p: nat, c: Size): Size
    requires c.extensible ==> p < |s|
  {
    if c.extensible && s[p] then ANY_SIZE else c
  }

  /** The unused bits of a structure before a read; a fixed size sets them in any case. */
  function UnusedBefore(s: seq<bool>, p: nat, c: Size, stale: nat): nat {
    if c.extensible && p >= |s| then stale
    else if Effective(s, p, c).effectiveBits == 0 then 0
    else stale
  }

  lemma UnpackAppend(bits: seq<bool>, more: seq<bool>, unused: nat)
    requires |bits| % 8 == 0
    ensures Unpack(bits + more, unused)
         == BitString(Pack(bits) + Pack(more), if |more| % 8 != 0 then 8 - |more| % 8 else unused)
  {
    hide Pack;
    PackAppend(bits, more);
    Mod8(|bits|, |more|);
  }

  lemma Mod8(a: nat, b: nat)
    requires a % 8 == 0
    ensures (a + b) % 8 == b % 8
  {
  }

  /** The loop over the fragments of a value. */
  method GetFragments(s: seq<bool>, p: nat, csiz: Size, stale: nat) returns (rval: Read)
    requires p <= |s|
    ensures rval == match DecodeFragments(s, p, csiz, [])
                    case More => WantMore
                    case Done(q, bits) => Read(q, Unpack(bits, stale))
  {
    hide Pack, GetLength;
    ghost var bits: seq<bool> := [];
    var pos: nat := p;
    var buf := Pack([]);
    var unused: nat := stale;
    var repeat := true;
    while repeat
      invariant pos <= |s|
      invariant repeat ==> DecodeFragments(s, p, csiz, []) == DecodeFragments(s, pos, csiz, bits) && |bits| % 8 == 0
      invariant !repeat ==> DecodeFragments(s, p, csiz, []) == Done(pos, bits)
      invariant BitString(buf, unused) == Unpack(bits, stale)
      decreases repeat, |s| - pos
    {
      match GetLength(s, pos, csiz.effectiveBits, csiz.lower) {
        case NoLength => return WantMore;
        case Length(q, rawLen, again) =>
          if rawLen < 0 {
            return WantMore;
          }
          if rawLen == 0 {
            pos := q;
            break;
          }
          if rawLen % 8 != 0 {
            unused := 8 - rawLen % 8;
          }
          if q + rawLen > |s| {
            return WantMore;
          }
          ghost var piece := s[q..q + rawLen];
          UnpackAppend(bits, piece, stale);
          Mod8(|bits|, rawLen);
          buf := buf + Pack(s[q..q + rawLen]);
          bits := bits + piece;
          pos := q + rawLen;
          repeat := again;
      }
    }
    rval := Read(pos, BitString(buf, unused));
  }

  /** `BIT_STRING_decode_uper` into a structure whose number of unused bits was `stale`. */
  method DecodeUper(s: seq<bool>, p: nat, constraint: Size, stale: nat) returns (rval: Read)
    requires p <= |s| && constraint.Valid()
    ensures rval == match DecodeBits(s, p, constraint)
                    case More => WantMore
                    case Done(q, bits) => Read(q, Unpack(bits, UnusedBefore(s, p, constraint, stale)))
    ensures rval.Read? ==>
      (rval.st.Length() == |DecodeBits(s, p, constraint).bits|
       <==> || |DecodeBits(s, p, constraint).bits| % 8 != 0 || stale == 0
            || (constraint.effectiveBits == 0 && !(constraint.extensible && s[p])))
  {
    hide Pack, DecodeFragments, BitString.Length;
    var csiz := constraint;
    var pos: nat := p;
    if csiz.extensible {
      if pos == |s| {
        return WantMore;
      }
      var inext := s[pos];
      pos := pos + 1;
      if inext {
        csiz := ANY_SIZE;
      }
    }
    if csiz.effectiveBits == 0 {
      if pos + csiz.upper > |s| {
        return WantMore;
      }
      var buf := Pack(s[pos..pos + csiz.upper]);
      UnpackLength(s[pos..pos + csiz.upper], 0);
      return Read(pos + csiz.upper, BitString(buf, (8 - csiz.upper % 8) % 8));
    }
    rval := GetFragments(s, pos, csiz, stale);
    if rval.Read? {
      UnpackLength(DecodeFragments(s, pos, csiz, []).bits, stale);
    }
  }

  // ---- Decoding inverts encoding ----

  /** The bits of a value, filled up with zeros, are the same bits. */
  lemma PackedSame(buf: seq<byte>, n: nat)
    ensures Same(Pack(CompactBitsOf(buf) + Zeros(n)), buf)
  {
    hide BitAt, Pack, Zeros;
    CompactBits(buf);
    var bits := CompactBitsOf(buf);
    forall i: nat
      ensures BitAt(Pack(bits + Zeros(n)), i) == BitAt(buf, i)
    {
      PackBits(bits + Zeros(n), i);
    }
  }

  /** An unpacked value has as many bits as were read, and zeros behind them, unless old unused bits stay behind. */
  lemma UnpackLength(bits: seq<bool>, unused: nat)
    ensures Unpack(bits, unused).Length() == |bits| <==> |bits| % 8 != 0 || unused == 0
    ensures Unpack(bits, 0).Valid() && Unpack(bits, 0).Clean()
  {
  }

  /** The encoder writes the declared bits, without their trailing zeros, exactly when the unused bits are zero. */
  lemma DeclaredBits(st: BitString)
    requires st.Valid()
    ensures st.Clean() <==> Compact(st.buf).Length() <= st.Length()
  {
    hide BitAt;
    StrippedBits(st.buf, 8 * |st.buf|);
    if st.Clean() {
      StripZeros(st.buf, st.Length(), 8 * |st.buf|);
    }
    if Compact(st.buf).Length() <= st.Length() {
      forall i: nat | st.Length() <= i
        ensures !BitAt(st.buf, i)
      {
        if i >= 8 * |st.buf| {
          Beyond(st.buf, i);
        }
      }
    }
  }

  /** The value that comes back: the bits of the compact string, filled up with zeros to the lower bound. */
  ghost function ReadBack(buf: seq<byte>, csiz: Size): BitString {
    Unpack(CompactBitsOf(buf) + Zeros(Missing(csiz, |CompactBitsOf(buf)|)), 0)
  }

  lemma UnpackInjective(a: seq<bool>, b: seq<bool>)
    requires Unpack(a, 0) == Unpack(b, 0)
    ensures a == b
  {
    hide Pack;
    UnpackLength(a, 0);
    UnpackLength(b, 0);
    forall i | 0 <= i < |a|
      ensures a[i] == b[i]
    {
      PackBits(a, i);
      PackBits(b, i);
    }
  }

  /**
   `decode_uper(encode_uper(st))` into a new structure, whatever stands in front of the encoding
   and behind it in the stream. The value comes back, and with it the position, exactly when the
   length field has at most 16 bits or the length is outside the range; it compares equal to
   `st`, and a length in a range stays in it.
   */
  method RoundTrip(st: BitString, csiz: Size, before: seq<bool>, behind: seq<bool>) returns (rval: Read, ret: int)
    requires st.Valid() && csiz.Valid()
    ensures EncodeBits(csiz, CompactBitsOf(st.buf)) == None ==> rval == WantMore
    ensures EncodeBits(csiz, CompactBitsOf(st.buf)).Some? ==>
      var n := Compact(st.buf).Length();
      && (rval == Read(|before| + |EncodeBits(csiz, CompactBitsOf(st.buf)).value|, ReadBack(st.buf, csiz))
          <==> Readable(csiz, n))
      && (Readable(csiz, n) ==>
            && ret == 0 && Same(rval.st.buf, st.buf) && rval.st.Valid() && rval.st.Clean()
            && (InRoot(csiz, n) ==> csiz.lower <= rval.st.Length() <= csiz.upper))
  {
    hide EncodeBits, DecodeBits, Unpack, Same, Zeros;
    rval, ret := WantMore, 0;
    var er := EncodeUper(st, csiz);
    ghost var bits := CompactBitsOf(st.buf);
    match er {
      case None =>
      case Some(e) =>
        var s := before + e + behind;
        assert Holds(s, |before|, e) by {
          forall k | 0 <= k < |e|
            ensures s[|before| + k] == e[k]
          {
          }
        }
        BitsRoundTrip(s, |before|, bits, csiz);
        rval := DecodeUper(s, |before|, csiz, 0);
        if DecodeBits(s, |before|, csiz).Done? && DecodeBits(s, |before|, csiz).pos == |before| + |e| {
          if rval.st == ReadBack(st.buf, csiz) {
            UnpackInjective(DecodeBits(s, |before|, csiz).bits, bits + Zeros(Missing(csiz, |bits|)));
          }
        }
        if Readable(csiz, |bits|) {
          ReadBackSame(st.buf, csiz);
        }
        if rval.Read? {
          UnpackLength(DecodeBits(s, |before|, csiz).bits, 0);
          ret := Compare(rval.st, st);
        }
    }
  }

  lemma ReadBackSame(buf: seq<byte>, csiz: Size)
    requires csiz.Valid()
    ensures var r := ReadBack(buf, csiz);
      && Same(r.buf, buf) && r.Valid() && r.Clean()
      && (InRoot(csiz, |CompactBitsOf(buf)|) ==> csiz.lower <= r.Length() <= csiz.upper)
  {
    hide Same, CompactBitsOf, Zeros;
    var bits := CompactBitsOf(buf);
    PackedSame(buf, Missing(csiz, |bits|));
    UnpackLength(bits + Zeros(Missing(csiz, |bits|)), 0);
    if InRoot(csiz, |bits|) {
      EmittedInRange(csiz, |bits|);
    }
  }
}
