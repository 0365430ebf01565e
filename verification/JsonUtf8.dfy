/** The UTF-8 encoder of the JSON parser (section 3 of RFC 3629). */
module JsonUtf8 {

  /** A byte as a character of a byte string. */
  function Byte(n: int): char
    requires 0 <= n < 256
  {
    n as char
  }

  /** `encode_utf8`, for the code points the parser can pass to it. */
  function Utf8(pt: int): (out: string)
    requires pt < 0x11_0000
  {
    if pt < 0 then ""
    else if pt < 0x80 then [Byte(pt)]
    else if pt < 0x800 then [Byte(pt / 64 + 0xC0), Byte(pt % 64 + 0x80)]
    else if pt < 0x1_0000 then [Byte(pt / 4096 + 0xE0), Byte(pt / 64 % 64 + 0x80), Byte(pt % 64 + 0x80)]
    else [Byte(pt / 262144 + 0xF0), Byte(pt / 4096 % 64 + 0x80), Byte(pt / 64 % 64 + 0x80), Byte(pt % 64 + 0x80)]
  }

  predicate Surrogate(pt: int) {
    0xD800 <= pt <= 0xDFFF
  }

  /** Unicode scalar values: all code points except the surrogates. */
  predicate Scalar(pt: int) {
    0 <= pt < 0x11_0000 && !Surrogate(pt)
  }

  predicate Between(c: char, lo: int, hi: int) {
    lo <= c as int <= hi
  }

  predicate Tail(c: char) {
    Between(c, 0x80, 0xBF)
  }

  /** One character of well-formed UTF-8, by the table of section 4 of RFC 3629. */
  predicate WellFormed(b: string) {
    match |b|
    case 1 => Between(b[0], 0x00, 0x7F)
    case 2 => Between(b[0], 0xC2, 0xDF) && Tail(b[1])
    case 3 =>
      && Tail(b[2])
      && (|| (Between(b[0], 0xE0, 0xE0) && Between(b[1], 0xA0, 0xBF))
          || (Between(b[0], 0xE1, 0xEC) && Tail(b[1]))
          || (Between(b[0], 0xED, 0xED) && Between(b[1], 0x80, 0x9F))
          || (Between(b[0], 0xEE, 0xEF) && Tail(b[1])))
    case 4 =>
      && Tail(b[2]) && Tail(b[3])
      && (|| (Between(b[0], 0xF0, 0xF0) && Between(b[1], 0x90, 0xBF))
          || (Between(b[0], 0xF1, 0xF3) && Tail(b[1]))
          || (Between(b[0], 0xF4, 0xF4) && Between(b[1], 0x80, 0x8F)))
    case _ => false
  }

  /** The code point a sequence of one to four bytes stands for. */
  function Decode(b: string): int
    requires 1 <= |b| <= 4
  {
    match |b|
    case 1 => b[0] as int
    case 2 => (b[0] as int - 0xC0) * 64 + (b[1] as int - 0x80)
    case 3 => (b[0] as int - 0xE0) * 4096 + (b[1] as int - 0x80) * 64 + (b[2] as int - 0x80)
    case 4 =>
      (b[0] as int - 0xF0) * 262144 + (b[1] as int - 0x80) * 4096 + (b[2] as int - 0x80) * 64 + (b[3] as int - 0x80)
  }

  /** Six bits at a time. */
  lemma SixBits(pt: int)
    requires 0 <= pt
    ensures pt == pt / 64 * 64 + pt % 64
    ensures pt / 64 == pt / 4096 * 64 + pt / 64 % 64
    ensures pt / 4096 == pt / 262144 * 64 + pt / 4096 % 64
  {
  }

  /** The bytes stand for the code point they were made from. */
  lemma DecodeEncode(pt: int)
    requires 0 <= pt < 0x11_0000
    ensures 1 <= |Utf8(pt)| <= 4 && Decode(Utf8(pt)) == pt
  {
    SixBits(pt);
  }

  /** Different code points have different bytes. */
  lemma Utf8Injective(a: int, b: int)
    requires 0 <= a < 0x11_0000 && 0 <= b < 0x11_0000
    requires Utf8(a) == Utf8(b)
    ensures a == b
  {
    DecodeEncode(a);
    DecodeEncode(b);
  }

  /** The bytes are well-formed UTF-8 for every code point that is not a surrogate, and only for those. */
  lemma WellFormedIffScalar(pt: int)
    requires 0 <= pt < 0x11_0000
    ensures WellFormed(Utf8(pt)) <==> Scalar(pt)
  {
    SixBits(pt);
  }

  /** The code point of a surrogate pair (section 3 of RFC 2781), as the parser assembles it. */
  function Combine(high: int, low: int): (pt: int)
    requires 0xD800 <= high <= 0xDBFF && 0xDC00 <= low <= 0xDFFF
    ensures 0x1_0000 <= pt < 0x11_0000
  {
    (high - 0xD800) * 1024 + (low - 0xDC00) + 0x1_0000
  }

  function HighSurrogate(pt: int): (h: int)
    requires 0x1_0000 <= pt < 0x11_0000
    ensures 0xD800 <= h <= 0xDBFF
  {
    0xD800 + (pt - 0x1_0000) / 1024
  }

  function LowSurrogate(pt: int): (l: int)
    requires 0x1_0000 <= pt < 0x11_0000
    ensures 0xDC00 <= l <= 0xDFFF
  {
    0xDC00 + (pt - 0x1_0000) % 1024
  }

  lemma CombineSplit(pt: int)
    requires 0x1_0000 <= pt < 0x11_0000
    ensures Combine(HighSurrogate(pt), LowSurrogate(pt)) == pt
  {
  }

  /** The halves of a pair carry ten bits each of what is beyond the first plane (section 7 of RFC 8259). */
  lemma SurrogateBits(pt: int)
    requires 0x1_0000 <= pt < 0x11_0000
    ensures HighSurrogate(pt) == 0xD800 + (pt - 0x1_0000) / 1024
    ensures LowSurrogate(pt) == 0xDC00 + (pt - 0x1_0000) % 1024
    ensures Combine(0xD834, 0xDD1E) == 0x1_D11E
  {
  }
}
