/** The recursive-descent parser of json11, with its mutable cursor and its sticky error. */
module JsonParser {
  import opened JsonValue
  import opened JsonErrors
  import opened JsonFailures
  import opened JsonUtf8
  import opened JsonText
  import opened JsonSyntax

  class JsonParser {
    const str: string
    const comments: bool
    var i: nat
    var err: Error
    var failed: bool

    constructor (str: string, comments: bool, err: string)
      ensures this.str == str && this.comments == comments
      ensures i == 0 && this.err == Given(err) && !failed
    {
      this.str, this.comments := str, comments;
      i, this.err, failed := 0, Given(err), false;
    }

    /** The cursor is inside the text or at its end. */
    ghost predicate Valid()
      reads this
    {
      i <= |str|
    }

    /** Where the parse stands: it got here with the value `v`, or it failed with the first message. */
    function Now<T>(v: T): Parsed<T>
      reads this
    {
      if failed then Parsed.Fail(err) else Ok(i, v)
    }

    /** The parse did what `r` says. The error string `was` is left alone unless it failed. */
    ghost predicate Follows<T>(r: Parsed<T>, was: Error, v: T)
      reads this
    {
      r == Now(v) && (failed || err == was)
    }

    method Fail(msg: Error)
      modifies this`err, this`failed
      ensures failed && err == if old(failed) then old(err) else msg
    {
      if !failed {
        err := msg;
      }
      failed := true;
    }

    method ConsumeWhitespace()
      requires Valid()
      modifies this`i
      ensures i == SkipSpace(str, old(i))
    {
      while IsSpace(At(str, i))
        invariant Valid() && SkipSpace(str, i) == SkipSpace(str, old(i))
        decreases |str| - i
      {
        i := i + 1;
      }
    }

    /** The loop over a comment that ends with `*` and `/`. */
    method SkipBlockComment()
      requires Valid()
      modifies this
      ensures Valid() && old(i) <= i && (old(failed) ==> failed && err == old(err))
      ensures !old(failed) ==> Follows(BlockEnd(str, old(i)), old(err), ())
      ensures old(failed) || !failed ==> BlockEnd(str, old(i)).Ok? ==> old(i) < i
    {
      if i + 2 > |str| {
        Fail(EndInsideComment);
        return;
      }
      while !(str[i] == '*' && str[i + 1] == '/')
        invariant old(i) <= i && i + 2 <= |str| && BlockEnd(str, i) == BlockEnd(str, old(i))
        invariant failed == old(failed) && err == old(err)
        decreases |str| - i
      {
        i := i + 1;
        if i + 2 > |str| {
          Fail(EndInsideComment);
          return;
        }
      }
      i := i + 2;
    }

    method ConsumeComment() returns (found: bool)
      requires Valid() && !failed
      modifies this
      ensures Valid() && old(i) <= i
      ensures At(str, old(i)) != '/' ==> !found && i == old(i) && !failed && err == old(err)
      ensures At(str, old(i)) == '/' ==> Follows(Comment(str, old(i)), old(err), ()) && found == !failed
      ensures found ==> old(i) < i
    {
      found := false;
      if At(str, i) == '/' {
        i := i + 1;
        if i == |str| {
          Fail(EndAfterCommentStart);
          return;
        }
        if str[i] == '/' {
          i := i + 1;
          while i < |str| && str[i] != '\n'
            invariant Valid() && old(i) + 2 <= i && LineEnd(str, i) == LineEnd(str, old(i) + 2)
            invariant !failed && err == old(err)
          {
            i := i + 1;
          }
          found := true;
        } else if str[i] == '*' {
          i := i + 1;
          SkipBlockComment();
          found := !failed;
        } else {
          Fail(MalformedComment);
        }
      }
    }

    /**
     Called again after a failure, this may only move the cursor forward. A comment behind a
     failed array bracket is the one place where that happens.
     */
    method ConsumeGarbage()
      requires Valid()
      modifies this
      ensures Valid() && old(i) <= i && (old(failed) ==> failed && err == old(err))
      ensures !old(failed) ==> Follows(Garbage(str, old(i), comments), old(err), ())
    {
      ConsumeWhitespace();
      if comments {
        var found := true;
        while found
          invariant Valid() && old(i) <= i && !IsSpace(At(str, i))
          invariant failed == old(failed) && err == old(err)
          invariant !failed ==> Garbage(str, old(i), comments) == if found then Comments(str, i) else Ok(i, ())
          decreases |str| - i, found
        {
          if failed {
            SkipFailedComment();
            return;
          }
          found := ConsumeComment();
          if failed {
            return;
          }
          ConsumeWhitespace();
        }
      }
    }

    /** `consume_comment` on a parse that has failed: the cursor moves, the error stays. */
    method SkipFailedComment()
      requires Valid() && failed
      modifies this
      ensures Valid() && old(i) <= i && failed && err == old(err)
    {
      if At(str, i) == '/' {
        i := i + 1;
        if i == |str| {
          Fail(EndAfterCommentStart);
          return;
        }
        if str[i] == '/' {
          i := i + 1;
          while i < |str| && str[i] != '\n'
            invariant Valid() && old(i) <= i && failed && err == old(err)
          {
            i := i + 1;
          }
        } else if str[i] == '*' {
          i := i + 1;
          SkipBlockComment();
        } else {
          Fail(MalformedComment);
        }
      }
    }

    method GetNextToken() returns (ch: char)
      requires Valid()
      modifies this
      ensures Valid() && old(i) <= i && (old(failed) ==> failed && err == old(err))
      ensures failed ==> ch == '\0'
      ensures !old(failed) ==> Follows(Token(str, old(i), comments), old(err), ch)
    {
      ConsumeGarbage();
      if failed {
        return '\0';
      }
      if i == |str| {
        Fail(EndOfInput);
        return '\0';
      }
      i := i + 1;
      return str[i - 1];
    }

    /** `encode_utf8` */
    method EncodeUtf8(pt: int, before: string) returns (out: string)
      requires pt < 0x11_0000
      ensures out == before + Utf8(pt)
    {
      out := before;
      if pt < 0 {
        return;
      }
      if pt < 0x80 {
        out := out + [Byte(pt)];
      } else if pt < 0x800 {
        out := out + [Byte(pt / 64 + 0xC0)];
        out := out + [Byte(pt % 64 + 0x80)];
      } else if pt < 0x1_0000 {
        out := out + [Byte(pt / 4096 + 0xE0)];
        out := out + [Byte(pt / 64 % 64 + 0x80)];
        out := out + [Byte(pt % 64 + 0x80)];
      } else {
        out := out + [Byte(pt / 262144 + 0xF0)];
        out := out + [Byte(pt / 4096 % 64 + 0x80)];
        out := out + [Byte(pt / 64 % 64 + 0x80)];
        out := out + [Byte(pt % 64 + 0x80)];
      }
    }

    method ParseString() returns (out: string)
      requires Valid() && !failed
      modifies this
      ensures Valid() && Follows(StringFrom(str, old(i), -1, ""), old(err), out) && (failed ==> out == "")
    {
      hide Utf8, Combine;
      out := "";
      var lastEscapedCodepoint: int := -1;
      while true
        invariant Valid() && !failed && err == old(err)
        invariant lastEscapedCodepoint < 0x1_0000
        invariant StringFrom(str, old(i), -1, "") == StringFrom(str, i, lastEscapedCodepoint, out)
        decreases |str| - i
      {
        if i == |str| {
          Fail(EndInString);
          return "";
        }
        var ch := str[i];
        i := i + 1;
        if ch == QUOTE {
          out := EncodeUtf8(lastEscapedCodepoint, out);
          return;
        }
        if ch as int <= 0x1F {
          Fail(Unescaped(ch));
          return "";
        }
        if ch != BACKSLASH {
          out := EncodeUtf8(lastEscapedCodepoint, out);
          lastEscapedCodepoint := -1;
          out := out + [ch];
        } else {
          if i == |str| {
            Fail(EndInString);
            return "";
          }
          ch := str[i];
          i := i + 1;
          if ch == 'u' {
            if !IsHex4(str, i) {
              Fail(BadUnicodeEscape(Substr(str, i, 4)));
              return "";
            }
            var codepoint := Hex4(str, i);
            if IsHigh(lastEscapedCodepoint) && IsLow(codepoint) {
              out := EncodeUtf8(Combine(lastEscapedCodepoint, codepoint), out);
              lastEscapedCodepoint := -1;
            } else {
              out := EncodeUtf8(lastEscapedCodepoint, out);
              lastEscapedCodepoint := codepoint;
            }
            i := i + 4;
          } else {
            out := EncodeUtf8(lastEscapedCodepoint, out);
            lastEscapedCodepoint := -1;
            if !IsSimpleEscape(ch) {
              Fail(InvalidEscape(ch));
              return "";
            }
            out := out + [SimpleEscape(ch)];
          }
        }
      }
    }

    method ParseDigits()
      requires Valid()
      modifies this`i
      ensures i == DigitsEnd(str, old(i))
    {
      while IsDigit(At(str, i))
        invariant Valid() && DigitsEnd(str, i) == DigitsEnd(str, old(i))
        decreases |str| - i
      {
        i := i + 1;
      }
    }

    method ParseIntegerPart()
      requires Valid() && !failed
      modifies this
      ensures Valid() && Follows(IntegerPart(str, old(i)), old(err), ())
    {
      if At(str, i) == '0' {
        i := i + 1;
        if IsDigit(At(str, i)) {
          Fail(LeadingZeros);
        }
      } else if InRange(At(str, i), '1', '9') {
        i := i + 1;
        ParseDigits();
      } else {
        Fail(InvalidInNumber(At(str, i)));
      }
    }

    method ParseFraction()
      requires Valid() && !failed
      modifies this
      ensures Valid() && Follows(Fraction(str, old(i)), old(err), ())
    {
      if At(str, i) == '.' {
        i := i + 1;
        if !IsDigit(At(str, i)) {
          Fail(NoFractionDigit);
          return;
        }
        ParseDigits();
      }
    }

    method ParseExponent() returns (e: int)
      requires Valid() && !failed
      modifies this
      ensures Valid() && Follows(Exponent(str, old(i)), old(err), e)
    {
      e := 0;
      if IsExponentMark(At(str, i)) {
        i := i + 1;
        var negative := At(str, i) == '-';
        if IsSign(At(str, i)) {
          i := i + 1;
        }
        if !IsDigit(At(str, i)) {
          Fail(NoExponentDigit);
          return;
        }
        var from := i;
        ParseDigits();
        e := Signed(negative, DigitsValue(str, from, i, 0));
      }
    }

    /** `atoi` and `strtod` read the digits again from where the number started. */
    method ParseNumber() returns (v: Json)
      requires Valid() && !failed
      modifies this
      ensures Valid() && Follows(NumberAt(str, old(i)), old(err), v) && (failed ==> v == Null)
    {
      v := Null;
      var start := i;
      var negative := At(str, i) == '-';
      if negative {
        i := i + 1;
      }
      var first := i;
      ParseIntegerPart();
      if failed {
        return;
      }
      if At(str, i) != '.' && !IsExponentMark(At(str, i)) && i - start <= 9 {
        return Int(Signed(negative, DigitsValue(str, first, i, 0)));
      }
      v := ParseReal(first, negative);
    }

    method ParseReal(first: nat, negative: bool) returns (v: Json)
      requires Valid() && !failed
      requires first <= i && forall n :: first <= n < i ==> IsDigit(str[n])
      modifies this
      ensures Valid() && Follows(RealAt(str, first, old(i), negative), old(err), v) && (failed ==> v == Null)
    {
      v := Null;
      var afterInteger := i;
      ParseFraction();
      if failed {
        return;
      }
      var afterFraction := i;
      var e := ParseExponent();
      if failed {
        return;
      }
      v := Double(nearest(RealValue(str, first, afterInteger, afterFraction, negative, e)));
    }

    method ParseExpected(word: string, res: Json) returns (v: Json)
      requires Valid() && !failed && 0 < i && 1 <= |word|
      modifies this
      ensures Valid() && Follows(Expect(str, old(i), word, res), old(err), v) && (failed ==> v == Null)
    {
      v := Null;
      i := i - 1;
      if Substr(str, i, |word|) == word {
        i := i + |word|;
        v := res;
      } else {
        Fail(NotTheWord(word, Substr(str, i, |word|)));
      }
    }

    /** `parse_json`. After a failure it is entered once more, and gives up at its first token. */
    method ParseJson(depth: int) returns (v: Json)
      requires Valid()
      modifies this
      ensures Valid() && (old(failed) ==> failed && err == old(err))
      ensures !old(failed) ==> Follows(ValueAt(str, old(i), depth, comments), old(err), v)
      ensures !old(failed) && failed && depth <= MAX_DEPTH ==> v == FailedValue(str, old(i), comments)
      decreases if failed then 0 else 1 + |str| - i, 0
    {
      v := Null;
      if depth > MAX_DEPTH {
        Fail(TooDeep);
        return;
      }
      ghost var running := !failed;
      var ch := GetNextToken();
      if running {
        ValueStep(str, old(i), depth, comments, Now(ch));
      }
      if failed {
        return;
      }
      if ch == '-' || IsDigit(ch) {
        i := i - 1;
        v := ParseNumber();
      } else if ch == 't' {
        v := ParseExpected("true", Bool(true));
      } else if ch == 'f' {
        v := ParseExpected("false", Bool(false));
      } else if ch == 'n' {
        v := ParseExpected("null", Null);
      } else if ch == QUOTE {
        var text := ParseString();
        v := String(text);
      } else if ch == '{' {
        v := ParseObject(depth);
      } else if ch == '[' {
        v := ParseArray(depth);
      } else {
        Fail(NotAValue(ch));
      }
    }

    /** The branch of `parse_json` behind an opening brace. */
    method ParseObject(depth: int) returns (v: Json)
      requires Valid() && !failed
      modifies this
      ensures Valid() && Follows(ObjectFrom(str, old(i), depth, comments), old(err), v) && (failed ==> v == Null)
      decreases 1 + |str| - i, 1
    {
      hide ValueAt, StringFrom, Token, Assign, MemberValue;
      ghost var rest, was := ObjectFrom(str, i, depth, comments), err;
      v := Null;
      var data: seq<Member> := [];
      var ch := GetNextToken();
      if ch == '}' {
        return Object(data);
      }
      while true
        invariant Valid() && old(i) <= i && (!failed ==> old(i) < i)
        invariant failed ==> ch == '\0' && rest == Parsed.Fail(err)
        invariant !failed ==> err == was && rest == MembersAt(str, i, ch, depth, comments, data)
        decreases if failed then 0 else 1 + |str| - i
      {
        if ch != QUOTE {
          Fail(NotAKey(ch));
          return;
        }
        ghost var behindQuote, before := i, data;
        var key := ParseString();
        KeyStep(str, behindQuote, QUOTE, depth, comments, before, Now(key));
        if failed {
          return;
        }
        ch := GetNextToken();
        if ch != ':' {
          Fail(NotAColon(ch));
          return;
        }
        ghost var start := i;
        var value := ParseJson(depth + 1);
        data := Assign(data, key, value);
        MemberStep(str, start, key, depth, depth + 1, comments, before, Now(value));
        if failed {
          return;
        }
        ch := GetNextToken();
        if ch == '}' {
          return Object(data);
        }
        if ch != ',' {
          Fail(NotAMemberComma(ch));
          return;
        }
        ch := GetNextToken();
      }
    }

    /** The branch of `parse_json` behind an opening bracket. */
    method ParseArray(depth: int) returns (v: Json)
      requires Valid() && !failed && 0 < i
      modifies this
      ensures Valid() && Follows(ArrayFrom(str, old(i), depth, comments), old(err), v) && (failed ==> v == Null)
      decreases 1 + |str| - i, 1
    {
      hide ValueAt, Token;
      ghost var rest, was := ArrayFrom(str, i, depth, comments), err;
      v := Null;
      var data: seq<Json> := [];
      var ch := GetNextToken();
      if ch == ']' {
        return Array(data);
      }
      while true
        invariant Valid() && old(i) <= i && (!failed ==> old(i) < i)
        invariant failed ==> rest == Parsed.Fail(err)
        invariant !failed ==> err == was && rest == ItemsAt(str, i, depth, comments, data)
        decreases if failed then 0 else 1 + |str| - i
      {
        ghost var start, before, running := i, data, !failed;
        i := i - 1;
        ghost var at := i;
        var value := ParseJson(depth + 1);
        data := data + [value];
        if running {
          ElementStep(str, start, at, depth, depth + 1, comments, before, Now(value));
        }
        if failed {
          return;
        }
        ch := GetNextToken();
        if ch == ']' {
          return Array(data);
        }
        if ch != ',' {
          Fail(NotAnItemComma(ch));
          return;
        }
        ch := GetNextToken();
      }
    }
  }

  /** `Json::parse`. The error string is left alone when nothing goes wrong. */
  method Parse(text: string, comments: bool, before: string) returns (v: Json, err: string)
    ensures match Document(text, comments)
            case Fail(m) => v == Null && err == Show(m) && Told(text, m, comments)
            case Ok(_, w) => v == w && err == before
  {
    hide Told;
    if Document(text, comments).Fail? {
      ErrorTold(text, comments);
    }
    var parser := new JsonParser(text, comments, before);
    v := parser.ParseJson(0);
    parser.ConsumeGarbage();
    if parser.failed {
      return Null, Show(parser.err);
    }
    if parser.i != |text| {
      parser.Fail(Trailing(text[parser.i]));
      return Null, Show(parser.err);
    }
    err := Show(parser.err);
  }

  /** `Json::parse_multi` */
  method ParseMulti(text: string, comments: bool, before: string)
    returns (values: seq<Json>, parserStopPos: nat, err: string)
    ensures var m := MultiFrom(text, 0, comments, 0, []);
            && parserStopPos == m.stop
            && err == (if m.error.Fail? then Show(m.error.error) else before)
            && values == m.values
  {
    var parser := new JsonParser(text, comments, before);
    parserStopPos := 0;
    values := [];
    while parser.i != |text| && !parser.failed
      invariant parser.Valid() && !parser.failed && parser.err == Given(before)
      invariant parser.str == text && parser.comments == comments
      invariant MultiFrom(text, 0, comments, 0, []) == MultiFrom(text, parser.i, comments, parserStopPos, values)
      decreases |text| - parser.i
    {
      var value := parser.ParseJson(0);
      values := values + [value];
      if parser.failed {
        break;
      }
      parser.ConsumeGarbage();
      if parser.failed {
        break;
      }
      parserStopPos := parser.i;
    }
    err := Show(parser.err);
  }
}
