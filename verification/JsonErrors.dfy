/** The messages of the JSON parser. */
module JsonErrors {
  import opened JsonText

  /** An error message, or the text (`Given`) the caller left in the error string before the parse. */
  datatype Error =
    | Given(text: string)
    | EndOfInput
    | EndAfterCommentStart
    | EndInsideComment
    | MalformedComment
    | EndInString
    | Unescaped(c: char)
    | BadUnicodeEscape(digits: string)
    | InvalidEscape(c: char)
    | LeadingZeros
    | NoFractionDigit
    | NoExponentDigit
    | InvalidInNumber(c: char)
    | NotTheWord(word: string, got: string)
    | TooDeep
    | NotAKey(c: char)
    | NotAColon(c: char)
    | NotAMemberComma(c: char)
    | NotAnItemComma(c: char)
    | NotAValue(c: char)
    | Trailing(c: char)

  /** `(%d)` of a signed character, with the character itself when it is ASCII and printable or DEL. */
  function Esc(c: char): string {
    var code := c as int;
    if 0x20 <= code <= 0x7F then "'" + [c] + "' (" + IntText(code) + ")"
    else "(" + IntText(if code < 0x80 then code else code - 256) + ")"
  }

  function Show(e: Error): string {
    match e
    case Given(text) => text
    case EndOfInput => "unexpected end of input"
    case EndAfterCommentStart => "unexpected end of input after start of comment"
    case EndInsideComment => "unexpected end of input inside multi-line comment"
    case MalformedComment => "malformed comment"
    case EndInString => "unexpected end of input in string"
    case Unescaped(c) => "unescaped " + Esc(c) + " in string"
    case BadUnicodeEscape(digits) => "bad \\u escape: " + digits
    case InvalidEscape(c) => "invalid escape character " + Esc(c)
    case LeadingZeros => "leading 0s not permitted in numbers"
    case NoFractionDigit => "at least one digit required in fractional part"
    case NoExponentDigit => "at least one digit required in exponent"
    case InvalidInNumber(c) => "invalid " + Esc(c) + " in number"
    case NotTheWord(word, got) => "parse error: expected " + word + ", got " + got
    case TooDeep => "exceeded maximum nesting depth"
    case NotAKey(c) => "expected '\"' in object, got " + Esc(c)
    case NotAColon(c) => "expected ':' in object, got " + Esc(c)
    case NotAMemberComma(c) => "expected ',' in object, got " + Esc(c)
    case NotAnItemComma(c) => "expected ',' in list, got " + Esc(c)
    case NotAValue(c) => "expected value, got " + Esc(c)
    case Trailing(c) => "unexpected trailing " + Esc(c)
  }
}
