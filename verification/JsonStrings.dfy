/** Strings come back: what the parser reads of the strings the serializer writes, and of `\u` escapes. */
module JsonStrings {
  import opened JsonUtf8
  import opened JsonText
  import opened JsonSyntax
  import opened Occurrence

  lemma QuotedSplit(t: string, p: nat, a: string, b: string)
    requires Holds(t, p, a + b + [QUOTE])
    ensures Holds(t, p, a) && Holds(t, p + |a|, b + [QUOTE])
  {
    Assoc(a, b, [QUOTE]);
    HoldsSplit(t, p, a, b + [QUOTE]);
  }

  lemma Holds2(t: string, p: nat, w: string)
    requires Holds(t, p, w) && |w| == 2
    ensures p + 2 <= |t| && t[p] == w[0] && t[p + 1] == w[1]
  {
  }

  // ---- Four hexadecimal digits ----

  function Hex4Text(n: nat): (w: string)
    requires n < 0x1_0000
    ensures |w| == 4
  {
    [HexChar(n / 4096), HexChar(n / 256 % 16), HexChar(n / 16 % 16), HexChar(n % 16)]
  }

  lemma HexRoundTrip(d: nat)
    requires d < 16
    ensures IsHex(HexChar(d)) && HexValue(HexChar(d)) == d
  {
  }

  lemma FourDigits(n: nat)
    requires n < 0x1_0000
    ensures n == n / 4096 * 4096 + n / 256 % 16 * 256 + n / 16 % 16 * 16 + n % 16
  {
    assert n / 16 / 16 == n / 256;
    assert n / 256 / 16 == n / 4096;
  }

  lemma Hex4Reads(t: string, p: nat, n: nat)
    requires n < 0x1_0000 && Holds(t, p, Hex4Text(n))
    ensures IsHex4(t, p) && Hex4(t, p) == n
  {
    HoldsAt(t, p, Hex4Text(n), 0);
    HoldsAt(t, p, Hex4Text(n), 1);
    HoldsAt(t, p, Hex4Text(n), 2);
    HoldsAt(t, p, Hex4Text(n), 3);
    HexRoundTrip(n / 4096);
    HexRoundTrip(n / 256 % 16);
    HexRoundTrip(n / 16 % 16);
    HexRoundTrip(n % 16);
    FourDigits(n);
  }

  /** A code point that cannot start a surrogate pair may as well be written at once. */
  lemma Flush(t: string, p: nat, pending: int, out: string)
    requires p <= |t| && pending < 0x1_0000 && !IsHigh(pending)
    ensures StringFrom(t, p, pending, out) == StringFrom(t, p, -1, out + Utf8(pending))
  {
    assert out + Utf8(pending) + Utf8(-1) == out + Utf8(pending);
  }

  /** A `\u` escape becomes the pending code point. */
  lemma UnicodeEscape(t: string, p: nat, n: nat, out: string)
    requires n < 0x1_0000 && Holds(t, p, "\\u" + Hex4Text(n))
    ensures p + 6 <= |t| && StringFrom(t, p, -1, out) == StringFrom(t, p + 6, n, out)
  {
    HoldsSplit(t, p, "\\u", Hex4Text(n));
    Holds2(t, p, "\\u");
    Hex4Reads(t, p + 2, n);
    assert StringFrom(t, p, -1, out) == EscapeFrom(t, p + 1, -1, out);
    assert out + Utf8(-1) == out;
  }

  lemma SimpleEscapeReads(t: string, p: nat, c: char, out: string)
    requires c != 'u' && IsSimpleEscape(c) && Holds(t, p, [BACKSLASH, c])
    ensures p + 2 <= |t| && StringFrom(t, p, -1, out) == StringFrom(t, p + 2, -1, out + [SimpleEscape(c)])
  {
    Holds2(t, p, [BACKSLASH, c]);
    assert StringFrom(t, p, -1, out) == EscapeFrom(t, p + 1, -1, out);
    assert out + Utf8(-1) == out;
  }

  lemma PlainByteReads(t: string, p: nat, out: string)
    requires p < |t| && t[p] != QUOTE && t[p] != BACKSLASH && t[p] as int > 0x1F
    ensures StringFrom(t, p, -1, out) == StringFrom(t, p + 1, -1, out + [t[p]])
  {
    assert out + Utf8(-1) == out;
  }

  lemma ClosingQuote(t: string, p: nat, out: string)
    requires p < |t| && t[p] == QUOTE
    ensures StringFrom(t, p, -1, out) == Ok(p + 1, out)
  {
    assert out + Utf8(-1) == out;
  }

  // ---- What `dump` writes ----

  /** The letter behind the backslash of a two-character escape. */
  function EscapeLetter(ch: char): char {
    if ch == BACKSPACE then 'b'
    else if ch == FORMFEED then 'f'
    else if ch == '\n' then 'n'
    else if ch == '\r' then 'r'
    else if ch == '\t' then 't'
    else ch
  }

  predicate HasEscapeLetter(ch: char) {
    ch == BACKSLASH || ch == QUOTE || ch == BACKSPACE || ch == FORMFEED || ch == '\n' || ch == '\r' || ch == '\t'
  }

  lemma PieceOfLetter(s: string, i: nat)
    requires i < |s| && HasEscapeLetter(s[i])
    ensures Piece(s, i) == [BACKSLASH, EscapeLetter(s[i])] && PieceWidth(s, i) == 1
    ensures EscapeLetter(s[i]) != 'u' && IsSimpleEscape(EscapeLetter(s[i])) && SimpleEscape(EscapeLetter(s[i])) == s[i]
  {
  }

  /** The piece written for a control character is a `\u` escape of it. */
  lemma PieceOfControl(s: string, i: nat)
    requires i < |s| && !HasEscapeLetter(s[i]) && s[i] as int <= 0x1F
    ensures PieceWidth(s, i) == 1 && Utf8(s[i] as int) == [s[i]]
    ensures Piece(s, i) == "\\u" + Hex4Text(s[i] as int)
  {
  }

  /** The piece written for the bytes of U+2028 or U+2029 is its `\u` escape. */
  lemma PieceOfSeparator(s: string, i: nat) returns (n: nat)
    requires i < |s| && PieceWidth(s, i) == 3
    ensures n == 0x2028 || n == 0x2029
    ensures Piece(s, i) == "\\u" + Hex4Text(n) && Utf8(n) == s[i..i + 3]
  {
    n := if s[i + 2] == '\U{A8}' then 0x2028 else 0x2029;
    assert Utf8(n) == [s[i], s[i + 1], s[i + 2]] == s[i..i + 3];
  }

  lemma Extend(s: string, i: nat, w: nat)
    requires i + w <= |s|
    ensures s[..i] + s[i..i + w] == s[..i + w]
  {
  }

  /** One step of the serializer's loop is read back as the bytes it consumed. */
  lemma PieceReads(t: string, p: nat, s: string, i: nat)
    requires i < |s| && Holds(t, p, Piece(s, i))
    ensures StringFrom(t, p, -1, s[..i]) == StringFrom(t, p + |Piece(s, i)|, -1, s[..i + PieceWidth(s, i)])
  {
    Extend(s, i, PieceWidth(s, i));
    if PieceWidth(s, i) == 3 {
      var n := PieceOfSeparator(s, i);
      UnicodeEscape(t, p, n, s[..i]);
      Flush(t, p + 6, n, s[..i]);
    } else {
      assert s[i..i + 1] == [s[i]];
      if HasEscapeLetter(s[i]) {
        PieceOfLetter(s, i);
        SimpleEscapeReads(t, p, EscapeLetter(s[i]), s[..i]);
      } else if s[i] as int <= 0x1F {
        PieceOfControl(s, i);
        UnicodeEscape(t, p, s[i] as int, s[..i]);
        Flush(t, p + 6, s[i] as int, s[..i]);
      } else {
        HoldsAt(t, p, [s[i]], 0);
        PlainByteReads(t, p, s[..i]);
      }
    }
  }

  lemma StringStep(t: string, p: nat, s: string, i: nat) returns (q: nat, i': nat)
    requires i < |s| && Holds(t, p, EscapedFrom(s, i) + [QUOTE])
    ensures i < i' <= |s| && q + |EscapedFrom(s, i')| == p + |EscapedFrom(s, i)|
    ensures Holds(t, q, EscapedFrom(s, i') + [QUOTE])
    ensures StringFrom(t, p, -1, s[..i]) == StringFrom(t, q, -1, s[..i'])
  {
    hide StringFrom, Piece;
    q, i' := p + |Piece(s, i)|, i + PieceWidth(s, i);
    QuotedSplit(t, p, Piece(s, i), EscapedFrom(s, i'));
    PieceReads(t, p, s, i);
  }

  /** The rest of a string is read back. */
  lemma {:induction false} StringReadsFrom(t: string, p: nat, s: string, i: nat)
    requires i <= |s| && Holds(t, p, EscapedFrom(s, i) + [QUOTE])
    ensures StringFrom(t, p, -1, s[..i]) == Ok(p + |EscapedFrom(s, i)| + 1, s)
    decreases |s| - i
  {
    if i == |s| {
      HoldsAt(t, p, EscapedFrom(s, i) + [QUOTE], 0);
      ClosingQuote(t, p, s[..i]);
      assert s[..i] == s;
    } else {
      var q, i' := StringStep(t, p, s, i);
      StringReadsFrom(t, q, s, i');
    }
  }

  /** Every byte string survives: what stands between the quotes is read as the string that was dumped. */
  lemma StringReads(t: string, p: nat, s: string)
    requires Holds(t, p, Quoted(s))
    ensures t[p] == QUOTE && StringFrom(t, p + 1, -1, "") == Ok(p + |Quoted(s)|, s)
  {
    Assoc([QUOTE], EscapedFrom(s, 0), [QUOTE]);
    HoldsAt(t, p, Quoted(s), 0);
    HoldsSplit(t, p, [QUOTE], EscapedFrom(s, 0) + [QUOTE]);
    assert s[..0] == "";
    StringReadsFrom(t, p + 1, s, 0);
  }

  // ---- Any text between quotes ----

  /**
   What a string is written with: a plain byte, a two-character escape, or four hexadecimal
   digits, in small or capital letters, behind `\u`.
   */
  datatype AnyUnit = Byte(c: char) | Letter(c: char) | Unicode(hex: string)

  predicate Writable(u: AnyUnit) {
    match u
    case Byte(c) => c != QUOTE && c != BACKSLASH && c as int > 0x1F
    case Letter(c) => IsSimpleEscape(c)
    case Unicode(hex) => |hex| == 4 && IsHex4(hex, 0)
  }

  type StringUnit = u: AnyUnit | Writable(u) witness Byte(' ')

  function UnitText(u: AnyUnit): string {
    match u
    case Byte(c) => [c]
    case Letter(c) => [BACKSLASH, c]
    case Unicode(hex) => "\\u" + hex
  }

  function UnitsText(us: seq<StringUnit>): string {
    if us == [] then "" else UnitText(us[0]) + UnitsText(us[1..])
  }

  function CodeOf(u: StringUnit): int {
    if u.Unicode? then Hex4(u.hex, 0) else -1
  }

  /** The first two units are a surrogate pair. */
  predicate PairFirst(us: seq<StringUnit>) {
    |us| >= 2 && IsHigh(CodeOf(us[0])) && IsLow(CodeOf(us[1]))
  }

  /** The bytes of a unit by itself; of a lone surrogate, the three bytes of its number. */
  function UnitBytes(u: StringUnit): string {
    match u
    case Byte(c) => [c]
    case Letter(c) => [SimpleEscape(c)]
    case Unicode(hex) => Utf8(Hex4(hex, 0))
  }

  /** What units stand for: pairs of surrogates are put together, everything else stands for itself. */
  function Decoded(us: seq<StringUnit>): string {
    if us == [] then ""
    else if PairFirst(us) then Utf8(Combine(CodeOf(us[0]), CodeOf(us[1]))) + Decoded(us[2..])
    else UnitBytes(us[0]) + Decoded(us[1..])
  }

  /** The first unit is an escape of a low surrogate. */
  predicate LowFirst(us: seq<StringUnit>) {
    us != [] && IsLow(CodeOf(us[0]))
  }

  /** The escape of a low surrogate stands in the text. */
  predicate LowEscape(t: string, p: nat) {
    p + 6 <= |t| && t[p] == BACKSLASH && t[p + 1] == 'u' && IsHex4(t, p + 2) && IsLow(Hex4(t, p + 2))
  }

  /** The units stand at position `p` with a quote behind them. */
  ghost predicate HoldsUnits(t: string, p: nat, us: seq<StringUnit>) {
    Holds(t, p, UnitsText(us) + [QUOTE])
  }

  lemma NoUnits(t: string, p: nat)
    ensures HoldsUnits(t, p, []) <==> p < |t| && t[p] == QUOTE
  {
    assert UnitsText([]) + [QUOTE] == [QUOTE];
    if HoldsUnits(t, p, []) {
      HoldsAt(t, p, [QUOTE], 0);
    }
  }

  /** There are units exactly when there is one and others behind it. */
  lemma FirstHolds(t: string, p: nat, us: seq<StringUnit>)
    requires us != []
    ensures HoldsUnits(t, p, us)
       <==> Holds(t, p, UnitText(us[0])) && HoldsUnits(t, p + |UnitText(us[0])|, us[1..])
    ensures HoldsUnits(t, p, us) ==> p < |t|
  {
    hide UnitText;
    var a, b := UnitText(us[0]), UnitsText(us[1..]);
    Assoc(a, b, [QUOTE]);
    if HoldsUnits(t, p, us) {
      QuotedSplit(t, p, a, b);
    }
    if Holds(t, p, a) && Holds(t, p + |a|, b + [QUOTE]) {
      HoldsJoin(t, p, a, b + [QUOTE]);
    }
  }

  lemma HexHolds(t: string, p: nat, hex: string)
    requires |hex| == 4 && IsHex4(hex, 0) && Holds(t, p, "\\u" + hex)
    ensures p + 6 <= |t| && t[p] == BACKSLASH && t[p + 1] == 'u' && IsHex4(t, p + 2) && Hex4(t, p + 2) == Hex4(hex, 0)
  {
    HoldsSplit(t, p, "\\u", hex);
    Holds2(t, p, "\\u");
    HoldsAt(t, p + 2, hex, 0);
    HoldsAt(t, p + 2, hex, 1);
    HoldsAt(t, p + 2, hex, 2);
    HoldsAt(t, p + 2, hex, 3);
  }

  lemma LowFirstEscape(t: string, p: nat, us: seq<StringUnit>)
    requires HoldsUnits(t, p, us)
    ensures p < |t| && (LowEscape(t, p) <==> LowFirst(us))
  {
    hide Holds, HoldsUnits;
    if us == [] {
      NoUnits(t, p);
    } else {
      FirstHolds(t, p, us);
      match us[0] {
        case Byte(c) => HoldsAt(t, p, [c], 0);
        case Letter(c) =>
          HoldsAt(t, p, [BACKSLASH, c], 0);
          HoldsAt(t, p, [BACKSLASH, c], 1);
        case Unicode(hex) => HexHolds(t, p, hex);
      }
    }
  }

  /** A pending code point that is not completed to a pair is written by itself. */
  lemma FlushAlone(t: string, p: nat, pending: int, out: string)
    requires p <= |t| && pending < 0x1_0000 && !(IsHigh(pending) && LowEscape(t, p))
    ensures StringFrom(t, p, pending, out) == StringFrom(t, p, -1, out + Utf8(pending))
  {
    assert out + Utf8(pending) + Utf8(-1) == out + Utf8(pending);
  }

  lemma HexEscapeReads(t: string, p: nat, hex: string, out: string)
    requires |hex| == 4 && IsHex4(hex, 0) && Holds(t, p, "\\u" + hex)
    ensures p + 6 <= |t| && StringFrom(t, p, -1, out) == StringFrom(t, p + 6, Hex4(hex, 0), out)
  {
    HexHolds(t, p, hex);
    assert StringFrom(t, p, -1, out) == EscapeFrom(t, p + 1, -1, out);
    assert out + Utf8(-1) == out;
  }

  lemma PairReads(t: string, p: nat, high: string, low: string, out: string)
    requires |high| == 4 && IsHex4(high, 0) && IsHigh(Hex4(high, 0))
    requires |low| == 4 && IsHex4(low, 0) && IsLow(Hex4(low, 0))
    requires Holds(t, p, "\\u" + high) && Holds(t, p + 6, "\\u" + low)
    ensures p + 12 <= |t|
    ensures StringFrom(t, p, -1, out) == StringFrom(t, p + 12, -1, out + Utf8(Combine(Hex4(high, 0), Hex4(low, 0))))
  {
    HexEscapeReads(t, p, high, out);
    HexHolds(t, p + 6, low);
    assert StringFrom(t, p + 6, Hex4(high, 0), out) == EscapeFrom(t, p + 7, Hex4(high, 0), out);
  }

  lemma SingleReads(t: string, p: nat, u: StringUnit, out: string)
    requires Holds(t, p, UnitText(u)) && !(IsHigh(CodeOf(u)) && LowEscape(t, p + |UnitText(u)|))
    ensures StringFrom(t, p, -1, out) == StringFrom(t, p + |UnitText(u)|, -1, out + UnitBytes(u))
  {
    match u {
      case Byte(c) =>
        HoldsAt(t, p, [c], 0);
        PlainByteReads(t, p, out);
      case Letter(c) =>
        SimpleEscapeReads(t, p, c, out);
      case Unicode(hex) =>
        HexEscapeReads(t, p, hex, out);
        FlushAlone(t, p + 6, Hex4(hex, 0), out);
    }
  }

  /** One unit, or a pair of surrogates, is read. */
  lemma UnitReads(t: string, p: nat, us: seq<StringUnit>, out: string) returns (q: nat, n: nat, bytes: string)
    requires us != [] && HoldsUnits(t, p, us)
    ensures 0 < n <= |us| && q + |UnitsText(us[n..])| == p + |UnitsText(us)| && HoldsUnits(t, q, us[n..])
    ensures Decoded(us) == bytes + Decoded(us[n..])
    ensures StringFrom(t, p, -1, out) == StringFrom(t, q, -1, out + bytes)
  {
    hide StringFrom, Holds, HoldsUnits, Utf8;
    FirstHolds(t, p, us);
    q, n := p + |UnitText(us[0])|, 1;
    if PairFirst(us) {
      var rest := us[1..];
      FirstHolds(t, q, rest);
      assert rest[1..] == us[2..];
      PairReads(t, p, us[0].hex, us[1].hex, out);
      bytes := Utf8(Combine(CodeOf(us[0]), CodeOf(us[1])));
      q, n := q + |UnitText(us[1])|, 2;
    } else {
      LowFirstEscape(t, q, us[1..]);
      SingleReads(t, p, us[0], out);
      bytes := UnitBytes(us[0]);
    }
  }

  /** Any text made of units is read as the bytes the units stand for. */
  lemma {:induction false} UnitsRead(t: string, p: nat, us: seq<StringUnit>, out: string)
    requires HoldsUnits(t, p, us)
    ensures StringFrom(t, p, -1, out) == Ok(p + |UnitsText(us)| + 1, out + Decoded(us))
    decreases |us|
  {
    hide StringFrom, HoldsUnits, UnitText, UnitBytes, Utf8;
    if us == [] {
      NoUnits(t, p);
      ClosingQuote(t, p, out);
      assert out + "" == out;
    } else {
      var q, n, bytes := UnitReads(t, p, us, out);
      UnitsRead(t, q, us[n..], out + bytes);
      assert out + bytes + Decoded(us[n..]) == out + (bytes + Decoded(us[n..]));
    }
  }

  lemma ByteHolds(t: string, p: nat)
    requires p < |t|
    ensures Holds(t, p, [t[p]])
  {
  }

  lemma LetterHolds(t: string, p: nat)
    requires p + 2 <= |t| && t[p] == BACKSLASH
    ensures Holds(t, p, [BACKSLASH, t[p + 1]])
  {
  }

  lemma UnicodeHolds(t: string, p: nat)
    requires p + 6 <= |t| && t[p] == BACKSLASH && t[p + 1] == 'u' && IsHex4(t, p + 2)
    ensures var hex := t[p + 2..p + 6];
            Holds(t, p, "\\u" + hex) && |hex| == 4 && IsHex4(hex, 0) && Hex4(hex, 0) == Hex4(t, p + 2)
  {
  }

  /** A unit stands at position `p`. */
  predicate UnitAt(t: string, p: nat) {
    && p < |t| && t[p] != QUOTE && t[p] as int > 0x1F
    && (t[p] == BACKSLASH ==>
          p + 1 < |t| && (if t[p + 1] == 'u' then IsHex4(t, p + 2) else IsSimpleEscape(t[p + 1])))
  }

  /** The first unit of a text, and what is left to read behind it. */
  lemma FirstUnit(t: string, p: nat, pending: int, out: string) returns (u: StringUnit, pending': int, out': string)
    requires UnitAt(t, p) && pending < 0x1_0000
    ensures Holds(t, p, UnitText(u)) && p < p + |UnitText(u)| <= |t| && pending' < 0x1_0000
    ensures StringFrom(t, p + |UnitText(u)|, pending', out') == StringFrom(t, p, pending, out)
  {
    hide Utf8, Combine, HexValue, Holds;
    if t[p] != BACKSLASH {
      ByteHolds(t, p);
      u, pending', out' := Byte(t[p]), -1, out + Utf8(pending) + [t[p]];
    } else if t[p + 1] != 'u' {
      LetterHolds(t, p);
      u, pending', out' := Letter(t[p + 1]), -1, out + Utf8(pending) + [SimpleEscape(t[p + 1])];
    } else {
      UnicodeHolds(t, p);
      u := Unicode(t[p + 2..p + 6]);
      if IsHigh(pending) && IsLow(Hex4(t, p + 2)) {
        pending', out' := -1, out + Utf8(Combine(pending, Hex4(t, p + 2)));
      } else {
        pending', out' := Hex4(t, p + 2), out + Utf8(pending);
      }
    }
  }

  lemma AcceptedUnit(t: string, p: nat, pending: int, out: string)
    requires p < |t| && pending < 0x1_0000 && StringFrom(t, p, pending, out).Ok?
    ensures t[p] == QUOTE || UnitAt(t, p)
  {
  }

  /** The text that is read up to its closing quote is made of units. */
  lemma {:induction false} FindUnits(t: string, p: nat, pending: int, out: string) returns (us: seq<StringUnit>)
    requires p <= |t| && pending < 0x1_0000 && StringFrom(t, p, pending, out).Ok?
    ensures HoldsUnits(t, p, us)
    decreases |t| - p
  {
    hide StringFrom, Holds, HoldsUnits, UnitText;
    us := [];
    NoUnits(t, p);
    if t[p] != QUOTE {
      AcceptedUnit(t, p, pending, out);
      var u, pending', out' := FirstUnit(t, p, pending, out);
      var rest := FindUnits(t, p + |UnitText(u)|, pending', out');
      us := [u] + rest;
      FirstHolds(t, p, us);
      assert us[1..] == rest;
    }
  }

  /**
   What stands behind an opening quote is accepted exactly when it is a sequence of units with a
   closing quote, and then it is read as the bytes they stand for.
   */
  lemma StringsAreUnits(t: string, p: nat, q: nat, s: string)
    requires p <= |t|
    ensures StringFrom(t, p, -1, "") == Ok(q, s)
       <==> exists us: seq<StringUnit> :: HoldsUnits(t, p, us) && q == p + |UnitsText(us)| + 1 && s == Decoded(us)
  {
    hide StringFrom, HoldsUnits, Decoded, UnitsText;
    forall us: seq<StringUnit> | HoldsUnits(t, p, us)
      ensures StringFrom(t, p, -1, "") == Ok(p + |UnitsText(us)| + 1, Decoded(us))
    {
      UnitsRead(t, p, us, "");
      assert "" + Decoded(us) == Decoded(us);
    }
    if StringFrom(t, p, -1, "").Ok? {
      var us := FindUnits(t, p, -1, "");
    }
  }

  // ---- Unicode written as escapes ----

  type ScalarValue = pt: int | Scalar(pt) witness 0

  /** The unit is an escape of the number, whatever the case of its digits. */
  predicate Escapes(u: StringUnit, n: int) {
    u.Unicode? && CodeOf(u) == n
  }

  /** The units write the code points, each as one escape or as a surrogate pair (section 7 of RFC 8259). */
  predicate Spells(us: seq<StringUnit>, pts: seq<ScalarValue>) {
    if us == [] || pts == [] then us == [] && pts == []
    else if pts[0] < 0x1_0000 then Escapes(us[0], pts[0]) && Spells(us[1..], pts[1..])
    else
      && |us| >= 2 && Escapes(us[0], HighSurrogate(pts[0])) && Escapes(us[1], LowSurrogate(pts[0]))
      && Spells(us[2..], pts[1..])
  }

  function Utf8Of(pts: seq<ScalarValue>): string {
    if pts == [] then "" else Utf8(pts[0]) + Utf8Of(pts[1..])
  }

  /** Any Unicode text written in escapes stands for its UTF-8 form. */
  lemma {:induction false} SpelledDecoded(us: seq<StringUnit>, pts: seq<ScalarValue>)
    requires Spells(us, pts)
    ensures Decoded(us) == Utf8Of(pts)
    decreases |us|
  {
    hide Utf8;
    if us != [] {
      if pts[0] < 0x1_0000 {
        SpelledDecoded(us[1..], pts[1..]);
      } else {
        CombineSplit(pts[0]);
        SpelledDecoded(us[2..], pts[1..]);
      }
    }
  }

  /** Any Unicode text written in escapes is read as its UTF-8 form. */
  lemma EscapesRead(t: string, p: nat, us: seq<StringUnit>, pts: seq<ScalarValue>)
    requires Spells(us, pts) && HoldsUnits(t, p, us)
    ensures StringFrom(t, p, -1, "") == Ok(p + |UnitsText(us)| + 1, Utf8Of(pts))
  {
    hide StringFrom, Decoded, HoldsUnits;
    SpelledDecoded(us, pts);
    UnitsRead(t, p, us, "");
    assert "" + Decoded(us) == Decoded(us);
  }
}
