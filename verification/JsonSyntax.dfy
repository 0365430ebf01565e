/**
 What the JSON parser reads, as functions on the text and a position.

 Every function follows the branches of the parser method of the same name; the class in
 `JsonParser` is proved against them. A failure carries the first error message.
 */
module JsonSyntax {
  import opened JsonValue
  import opened JsonErrors
  import opened JsonUtf8
  import opened JsonText

  datatype Parsed<T> = Ok(pos: nat, value: T) | Fail(error: Error)

  /** `str[i]`, which is the terminating NUL at the end. */
  function At(s: string, i: nat): char {
    if i < |s| then s[i] else '\0'
  }

  predicate InRange(c: char, lo: char, hi: char) {
    lo <= c <= hi
  }

  predicate IsDigit(c: char) {
    InRange(c, '0', '9')
  }

  // ---- White space and comments ----

  predicate IsSpace(c: char) {
    c == ' ' || c == '\r' || c == '\n' || c == '\t'
  }

  function SkipSpace(s: string, i: nat): (j: nat)
    requires i <= |s|
    ensures i <= j <= |s| && !IsSpace(At(s, j))
    decreases |s| - i
  {
    if i < |s| && IsSpace(s[i]) then SkipSpace(s, i + 1) else i
  }

  function LineEnd(s: string, i: nat): (j: nat)
    requires i <= |s|
    ensures i <= j <= |s|
    decreases |s| - i
  {
    if i < |s| && s[i] != '\n' then LineEnd(s, i + 1) else i
  }

  /** Behind the `*` and `/` that close a comment. */
  function BlockEnd(s: string, i: nat): (r: Parsed<()>)
    requires i <= |s|
    ensures r.Ok? ==> i < r.pos <= |s|
    decreases |s| - i
  {
    if i + 2 > |s| then Fail(EndInsideComment)
    else if s[i] == '*' && s[i + 1] == '/' then Ok(i + 2, ())
    else BlockEnd(s, i + 1)
  }

  /** The comment that starts with the `/` at position `i`. */
  function Comment(s: string, i: nat): (r: Parsed<()>)
    requires i < |s|
    ensures r.Ok? ==> i < r.pos <= |s|
  {
    if i + 1 == |s| then Fail(EndAfterCommentStart)
    else if s[i + 1] == '/' then Ok(LineEnd(s, i + 2), ())
    else if s[i + 1] == '*' then BlockEnd(s, i + 2)
    else Fail(MalformedComment)
  }

  /** Comments and the white space behind them. */
  function Comments(s: string, i: nat): (r: Parsed<()>)
    requires i <= |s|
    ensures r.Ok? ==> i <= r.pos <= |s|
    decreases |s| - i
  {
    if At(s, i) != '/' then Ok(i, ())
    else
      match Comment(s, i)
      case Fail(m) => Fail(m)
      case Ok(j, _) => Comments(s, SkipSpace(s, j))
  }

  function Garbage(s: string, i: nat, comments: bool): (r: Parsed<()>)
    requires i <= |s|
    ensures r.Ok? ==> i <= r.pos <= |s|
  {
    var j := SkipSpace(s, i);
    if comments then Comments(s, j) else Ok(j, ())
  }

  function Token(s: string, i: nat, comments: bool): (r: Parsed<char>)
    requires i <= |s|
    ensures r.Ok? ==> i < r.pos <= |s| && r.value == s[r.pos - 1]
  {
    match Garbage(s, i, comments)
    case Fail(m) => Fail(m)
    case Ok(j, _) => if j == |s| then Fail(EndOfInput) else Ok(j + 1, s[j])
  }

  // ---- Strings ----

  predicate IsHex(c: char) {
    InRange(c, 'a', 'f') || InRange(c, 'A', 'F') || IsDigit(c)
  }

  function HexValue(c: char): (v: nat)
    requires IsHex(c)
    ensures v < 16
  {
    if IsDigit(c) then c as int - '0' as int
    else if InRange(c, 'a', 'f') then c as int - 'a' as int + 10
    else c as int - 'A' as int + 10
  }

  predicate IsHex4(s: string, i: nat) {
    i + 4 <= |s| && IsHex(s[i]) && IsHex(s[i + 1]) && IsHex(s[i + 2]) && IsHex(s[i + 3])
  }

  /** `strtol` of four hexadecimal digits. */
  function Hex4(s: string, i: nat): (v: nat)
    requires IsHex4(s, i)
    ensures v < 0x1_0000
  {
    HexValue(s[i]) * 4096 + HexValue(s[i + 1]) * 256 + HexValue(s[i + 2]) * 16 + HexValue(s[i + 3])
  }

  predicate IsHigh(pt: int) {
    0xD800 <= pt <= 0xDBFF
  }

  predicate IsLow(pt: int) {
    0xDC00 <= pt <= 0xDFFF
  }

  /** `str.substr(i, n)` */
  function Substr(s: string, i: nat, n: nat): string
    requires i <= |s|
  {
    if i + n <= |s| then s[i..i + n] else s[i..]
  }

  predicate IsSimpleEscape(c: char) {
    c == 'b' || c == 'f' || c == 'n' || c == 'r' || c == 't' || c == QUOTE || c == BACKSLASH || c == '/'
  }

  /** The byte a two-character escape stands for. */
  function SimpleEscape(c: char): char
    requires IsSimpleEscape(c)
  {
    if c == 'b' then BACKSPACE
    else if c == 'f' then FORMFEED
    else if c == 'n' then '\n'
    else if c == 'r' then '\r'
    else if c == 't' then '\t'
    else c
  }

  /**
   The rest of a string from position `i` on. `pending` is the code point of a `\u` escape
   that has not been written yet, or -1; `out` is what has been written.
   */
  function StringFrom(s: string, i: nat, pending: int, out: string): (r: Parsed<string>)
    requires i <= |s| && pending < 0x1_0000
    ensures r.Ok? ==> i < r.pos <= |s|
    decreases |s| - i
  {
    if i == |s| then Fail(EndInString)
    else if s[i] == QUOTE then Ok(i + 1, out + Utf8(pending))
    else if s[i] as int <= 0x1F then Fail(Unescaped(s[i]))
    else if s[i] != BACKSLASH then StringFrom(s, i + 1, -1, out + Utf8(pending) + [s[i]])
    else if i + 1 == |s| then Fail(EndInString)
    else EscapeFrom(s, i + 1, pending, out)
  }

  /** The rest of a string from behind a backslash on. */
  function EscapeFrom(s: string, i: nat, pending: int, out: string): (r: Parsed<string>)
    requires i < |s| && pending < 0x1_0000
    ensures r.Ok? ==> i < r.pos <= |s|
    decreases |s| - i
  {
    if s[i] == 'u' then
      if !IsHex4(s, i + 1) then Fail(BadUnicodeEscape(Substr(s, i + 1, 4)))
      else if IsHigh(pending) && IsLow(Hex4(s, i + 1)) then
        StringFrom(s, i + 5, -1, out + Utf8(Combine(pending, Hex4(s, i + 1))))
      else StringFrom(s, i + 5, Hex4(s, i + 1), out + Utf8(pending))
    else if !IsSimpleEscape(s[i]) then Fail(InvalidEscape(s[i]))
    else StringFrom(s, i + 1, -1, out + Utf8(pending) + [SimpleEscape(s[i])])
  }

  // ---- Numbers ----

  function DigitsEnd(s: string, i: nat): (j: nat)
    requires i <= |s|
    ensures i <= j <= |s| && !IsDigit(At(s, j))
    ensures forall k :: i <= k < j ==> IsDigit(s[k])
    decreases |s| - i
  {
    if i < |s| && IsDigit(s[i]) then DigitsEnd(s, i + 1) else i
  }

  function DigitValue(c: char): (v: nat)
    requires IsDigit(c)
    ensures v < 10
  {
    c as int - '0' as int
  }

  /** The value of the decimal digits from `i` to `j`, behind a leading part worth `acc`. */
  function DigitsValue(s: string, i: nat, j: nat, acc: nat): nat
    requires i <= j <= |s|
    requires forall k :: i <= k < j ==> IsDigit(s[k])
    decreases j - i
  {
    if i == j then acc else DigitsValue(s, i + 1, j, 10 * acc + DigitValue(s[i]))
  }

  function Pow10(n: nat): (p: real)
    ensures p > 0.0
  {
    if n == 0 then 1.0 else 10.0 * Pow10(n - 1)
  }

  function Scale(m: int, e: int): real {
    if e >= 0 then m as real * Pow10(e) else m as real / Pow10(-e)
  }

  /** The integer part; its end. */
  function IntegerPart(s: string, i: nat): (r: Parsed<()>)
    requires i <= |s|
    ensures r.Ok? ==> i < r.pos <= |s| && forall k :: i <= k < r.pos ==> IsDigit(s[k])
  {
    if At(s, i) == '0' then
      if IsDigit(At(s, i + 1)) then Fail(LeadingZeros) else Ok(i + 1, ())
    else if InRange(At(s, i), '1', '9') then Ok(DigitsEnd(s, i + 1), ())
    else Fail(InvalidInNumber(At(s, i)))
  }

  /** The fractional part, if there is one. */
  function Fraction(s: string, i: nat): (r: Parsed<()>)
    requires i <= |s|
    ensures r.Ok? ==> i <= r.pos <= |s|
    ensures r.Ok? && At(s, i) == '.' ==> i + 1 <= r.pos && forall k :: i + 1 <= k < r.pos ==> IsDigit(s[k])
    ensures r.Ok? && At(s, i) != '.' ==> r.pos == i
  {
    if At(s, i) != '.' then Ok(i, ())
    else if !IsDigit(At(s, i + 1)) then Fail(NoFractionDigit)
    else Ok(DigitsEnd(s, i + 1), ())
  }

  predicate IsExponentMark(c: char) {
    c == 'e' || c == 'E'
  }

  predicate IsSign(c: char) {
    c == '+' || c == '-'
  }

  function Signed(negative: bool, m: int): int {
    if negative then -m else m
  }

  /** The exponent, if there is one, and its value. */
  function Exponent(s: string, i: nat): (r: Parsed<int>)
    requires i <= |s|
    ensures r.Ok? ==> i <= r.pos <= |s|
  {
    if !IsExponentMark(At(s, i)) then Ok(i, 0)
    else
      var j := if IsSign(At(s, i + 1)) then i + 2 else i + 1;
      if !IsDigit(At(s, j)) then Fail(NoExponentDigit)
      else
        var e := DigitsValue(s, j, DigitsEnd(s, j), 0);
        Ok(DigitsEnd(s, j), Signed(At(s, i + 1) == '-', e))
  }

  /** A number at position `i`. */
  function NumberAt(s: string, i: nat): (r: Parsed<Json>)
    requires i <= |s|
    ensures r.Ok? ==> i < r.pos <= |s|
  {
    var negative := At(s, i) == '-';
    var j := if negative then i + 1 else i;
    match IntegerPart(s, j)
    case Fail(m) => Fail(m)
    case Ok(k, _) =>
      if At(s, k) != '.' && !IsExponentMark(At(s, k)) && k - i <= 9
      then Ok(k, Int(Signed(negative, DigitsValue(s, j, k, 0))))
      else RealAt(s, j, k, negative)
  }

  /** A number that is not a small integer, with its integer part from `j` to `k`. */
  function RealAt(s: string, j: nat, k: nat, negative: bool): (r: Parsed<Json>)
    requires j <= k <= |s| && forall n :: j <= n < k ==> IsDigit(s[n])
    ensures r.Ok? ==> k <= r.pos <= |s|
  {
    match Fraction(s, k)
    case Fail(m) => Fail(m)
    case Ok(l, _) =>
      match Exponent(s, l)
      case Fail(m) => Fail(m)
      case Ok(end, e) => Ok(end, Double(nearest(RealValue(s, j, k, l, negative, e))))
  }

  /** Digits from `j` to `k`, a point and digits up to `l` if `l` is beyond `k`, and an exponent `e`. */
  function RealValue(s: string, j: nat, k: nat, l: nat, negative: bool, e: int): real
    requires j <= k <= l <= |s|
    requires forall n :: j <= n < k ==> IsDigit(s[n])
    requires forall n :: k < n < l ==> IsDigit(s[n])
  {
    var whole := DigitsValue(s, j, k, 0);
    if l == k then Scale(Signed(negative, whole), e)
    else Scale(Signed(negative, DigitsValue(s, k + 1, l, whole)), e - (l - (k + 1)))
  }

  // ---- Values ----

  /** `expect`: the word that starts at the character in front of `i`. */
  function Expect(s: string, i: nat, word: string, v: Json): (r: Parsed<Json>)
    requires 0 < i <= |s| && 1 <= |word|
    ensures r.Ok? ==> i <= r.pos <= |s|
  {
    if Substr(s, i - 1, |word|) == word then Ok(i - 1 + |word|, v)
    else Fail(NotTheWord(word, Substr(s, i - 1, |word|)))
  }

  function StringValue(r: Parsed<string>): Parsed<Json> {
    match r
    case Fail(m) => Fail(m)
    case Ok(j, t) => Ok(j, String(t))
  }

  function ValueAt(s: string, i: nat, depth: int, comments: bool): (r: Parsed<Json>)
    requires i <= |s|
    ensures r.Ok? ==> i < r.pos <= |s|
    decreases |s| - i, 0
  {
    if depth > MAX_DEPTH then Fail(TooDeep)
    else
      match Token(s, i, comments)
      case Fail(m) => Fail(m)
      case Ok(j, ch) => ValueFrom(s, j, ch, depth, comments)
  }

  /** The value that starts with the token `ch`, just read. */
  function ValueFrom(s: string, j: nat, ch: char, depth: int, comments: bool): (r: Parsed<Json>)
    requires 0 < j <= |s| && s[j - 1] == ch
    ensures r.Ok? ==> j <= r.pos <= |s|
    decreases |s| - j, 4
  {
    if ch == '-' || IsDigit(ch) then NumberAt(s, j - 1)
    else if ch == 't' then Expect(s, j, "true", Bool(true))
    else if ch == 'f' then Expect(s, j, "false", Bool(false))
    else if ch == 'n' then Expect(s, j, "null", Null)
    else if ch == QUOTE then StringValue(StringFrom(s, j, -1, ""))
    else if ch == '{' then ObjectFrom(s, j, depth, comments)
    else if ch == '[' then ArrayFrom(s, j, depth, comments)
    else Fail(NotAValue(ch))
  }

  /** An array, from behind its opening bracket on. */
  function ArrayFrom(s: string, j: nat, depth: int, comments: bool): (r: Parsed<Json>)
    requires j <= |s|
    ensures r.Ok? ==> j < r.pos <= |s|
    decreases |s| - j, 3
  {
    match Token(s, j, comments)
    case Fail(m) => Fail(m)
    case Ok(k, c) => if c == ']' then Ok(k, Array([])) else ItemsAt(s, k, depth, comments, [])
  }

  /** The rest of an array, behind the token an element starts with. */
  function ItemsAt(s: string, i: nat, depth: int, comments: bool, data: seq<Json>): (r: Parsed<Json>)
    requires 0 < i <= |s|
    ensures r.Ok? ==> i <= r.pos <= |s|
    decreases |s| - (i - 1), 1
  {
    match ValueAt(s, i - 1, depth + 1, comments)
    case Fail(m) => Fail(m)
    case Ok(j, v) => BehindItem(s, j, depth, comments, data + [v])
  }

  /** The rest of an array, behind an element. */
  function BehindItem(s: string, j: nat, depth: int, comments: bool, data: seq<Json>): (r: Parsed<Json>)
    requires j <= |s|
    ensures r.Ok? ==> j < r.pos <= |s|
    decreases |s| - j, 2
  {
    match Token(s, j, comments)
    case Fail(m) => Fail(m)
    case Ok(k, c) =>
      if c == ']' then Ok(k, Array(data))
      else if c != ',' then Fail(NotAnItemComma(c))
      else
        match Token(s, k, comments)
        case Fail(m) => Fail(m)
        case Ok(l, _) => ItemsAt(s, l, depth, comments, data)
  }

  /** An object, from behind its opening brace on. */
  function ObjectFrom(s: string, j: nat, depth: int, comments: bool): (r: Parsed<Json>)
    requires j <= |s|
    ensures r.Ok? ==> j < r.pos <= |s|
    decreases |s| - j, 3
  {
    match Token(s, j, comments)
    case Fail(m) => Fail(m)
    case Ok(k, c) => if c == '}' then Ok(k, Object([])) else MembersAt(s, k, c, depth, comments, [])
  }

  /** The rest of an object, behind the token `ch` that should open a key. */
  function MembersAt(s: string, i: nat, ch: char, depth: int, comments: bool, data: seq<Member>): (r: Parsed<Json>)
    requires i <= |s|
    ensures r.Ok? ==> i < r.pos <= |s|
    decreases |s| - i, 1
  {
    if ch != QUOTE then Fail(NotAKey(ch))
    else
      match StringFrom(s, i, -1, "")
      case Fail(m) => Fail(m)
      case Ok(j, key) => BehindKey(s, j, key, depth, comments, data)
  }

  /** The rest of an object, behind a key. */
  function BehindKey(s: string, j: nat, key: string, depth: int, comments: bool, data: seq<Member>): (r: Parsed<Json>)
    requires j <= |s|
    ensures r.Ok? ==> j < r.pos <= |s|
    decreases |s| - j, 2
  {
    match Token(s, j, comments)
    case Fail(m) => Fail(m)
    case Ok(k, c) =>
      if c != ':' then Fail(NotAColon(c))
      else MemberValue(s, k, key, depth, comments, data)
  }

  /** The rest of an object, behind the colon of a member. */
  function MemberValue(s: string, k: nat, key: string, depth: int, comments: bool, data: seq<Member>): (r: Parsed<Json>)
    requires k <= |s|
    ensures r.Ok? ==> k < r.pos <= |s|
    decreases |s| - k, 1
  {
    match ValueAt(s, k, depth + 1, comments)
    case Fail(m) => Fail(m)
    case Ok(l, v) => BehindMember(s, l, depth, comments, Assign(data, key, v))
  }

  /** The rest of an object, behind a member. */
  function BehindMember(s: string, l: nat, depth: int, comments: bool, data: seq<Member>): (r: Parsed<Json>)
    requires l <= |s|
    ensures r.Ok? ==> l < r.pos <= |s|
    decreases |s| - l, 2
  {
    match Token(s, l, comments)
    case Fail(m) => Fail(m)
    case Ok(n, d) =>
      if d == '}' then Ok(n, Object(data))
      else if d != ',' then Fail(NotAMemberComma(d))
      else
        match Token(s, n, comments)
        case Fail(m) => Fail(m)
        case Ok(o, e) => MembersAt(s, o, e, depth, comments, data)
  }

  // ---- One step of each, as the parser methods take it ----

  lemma ValueStep(s: string, i: nat, depth: int, comments: bool, t: Parsed<char>)
    requires i <= |s| && depth <= MAX_DEPTH && t == Token(s, i, comments)
    ensures ValueAt(s, i, depth, comments)
         == match t case Fail(m) => Fail(m) case Ok(j, ch) => ValueFrom(s, j, ch, depth, comments)
  {
  }

  lemma ElementStep(s: string, i: nat, j: nat, depth: int, inner: int, comments: bool, data: seq<Json>, r: Parsed<Json>)
    requires j == i - 1 && i <= |s| && inner == depth + 1 && r == ValueAt(s, j, inner, comments)
    ensures r.Fail? ==> ItemsAt(s, i, depth, comments, data) == r
    ensures r.Ok? ==> ItemsAt(s, i, depth, comments, data) == BehindItem(s, r.pos, depth, comments, data + [r.value])
  {
  }

  lemma MemberStep(s: string, k: nat, key: string, depth: int, inner: int, comments: bool, data: seq<Member>,
                   r: Parsed<Json>)
    requires k <= |s| && inner == depth + 1 && r == ValueAt(s, k, inner, comments)
    ensures r.Fail? ==> MemberValue(s, k, key, depth, comments, data) == r
    ensures r.Ok? ==>
      var more := Assign(data, key, r.value);
      MemberValue(s, k, key, depth, comments, data) == BehindMember(s, r.pos, depth, comments, more)
  {
  }

  lemma KeyStep(s: string, i: nat, ch: char, depth: int, comments: bool, data: seq<Member>, r: Parsed<string>)
    requires i <= |s| && ch == QUOTE && r == StringFrom(s, i, -1, "")
    ensures r.Fail? ==> MembersAt(s, i, ch, depth, comments, data) == Fail(r.error)
    ensures r.Ok? ==> MembersAt(s, i, ch, depth, comments, data) == BehindKey(s, r.pos, r.value, depth, comments, data)
  {
  }

  /** `Json::parse`: one value and nothing behind it. */
  function Document(s: string, comments: bool): Parsed<Json> {
    match ValueAt(s, 0, 0, comments)
    case Fail(m) => Fail(m)
    case Ok(i, v) =>
      match Garbage(s, i, comments)
      case Fail(m) => Fail(m)
      case Ok(j, _) => if j == |s| then Ok(j, v) else Fail(Trailing(s[j]))
  }

  /** What `parse_multi` leaves behind: the values, where it stopped, and the error if there was one. */
  datatype Multi = Multi(values: seq<Json>, stop: nat, error: Parsed<()>)

  /** What `parse_json` returns at position `i` when it fails: null, but an empty string for a string. */
  function FailedValue(s: string, i: nat, comments: bool): Json
    requires i <= |s|
  {
    match Token(s, i, comments)
    case Fail(_) => Null
    case Ok(_, ch) => if ch == QUOTE then String("") else Null
  }

  /** `Json::parse_multi` from position `i` on. A value that fails is still pushed. */
  function MultiFrom(s: string, i: nat, comments: bool, stop: nat, values: seq<Json>): Multi
    requires i <= |s|
    decreases |s| - i
  {
    if i == |s| then Multi(values, stop, Ok(i, ()))
    else
      match ValueAt(s, i, 0, comments)
      case Fail(m) => Multi(values + [FailedValue(s, i, comments)], stop, Fail(m))
      case Ok(j, v) =>
        match Garbage(s, j, comments)
        case Fail(m) => Multi(values + [v], stop, Fail(m))
        case Ok(k, _) => MultiFrom(s, k, comments, k, values + [v])
  }

  // ---- The characters of the standard ----

  /** White space, digits, exponent marks and signs, by their codes (sections 2 and 6 of RFC 8259). */
  lemma Characters(c: char)
    ensures IsSpace(c) <==> c as int == 0x20 || c as int == 0x09 || c as int == 0x0A || c as int == 0x0D
    ensures IsDigit(c) <==> 0x30 <= c as int <= 0x39
    ensures IsExponentMark(c) <==> c as int == 0x65 || c as int == 0x45
    ensures IsSign(c) <==> c as int == 0x2B || c as int == 0x2D
  {
  }

  /** The two-character escapes, by the codes of their letters (section 7 of RFC 8259). */
  lemma EscapeLetters(c: char)
    ensures IsSimpleEscape(c) <==> c as int in {0x22, 0x5C, 0x2F, 0x62, 0x66, 0x6E, 0x72, 0x74}
    ensures IsSimpleEscape(c) ==>
      var code, byte := c as int, SimpleEscape(c) as int;
      && (code == 0x22 || code == 0x5C || code == 0x2F ==> byte == code)
      && (code == 0x62 ==> byte == 0x08) && (code == 0x66 ==> byte == 0x0C) && (code == 0x6E ==> byte == 0x0A)
      && (code == 0x72 ==> byte == 0x0D) && (code == 0x74 ==> byte == 0x09)
  {
  }

  /** Hexadecimal digits in either case count up to fifteen. */
  lemma HexDigits(c: char, n: nat)
    requires n < 16
    ensures IsHex(c) && HexValue(c) == n <==> c == "0123456789abcdef"[n] || c == "0123456789ABCDEF"[n]
  {
  }
}
