/** The serializer of json11: what `dump` appends, and the loops that append it. */
module JsonText {
  import opened JsonValue

  const QUOTE: char := '\"'
  const BACKSLASH: char := '\\'
  const BACKSPACE: char := '\U{08}'
  const FORMFEED: char := '\U{0C}'
  const MAX_DEPTH: int := 200

  // ---- Numbers ----

  function DigitChar(d: nat): char
    requires d < 10
  {
    ('0' as int + d) as char
  }

  function NatText(n: nat): (t: string)
    ensures t != []
  {
    if n < 10 then [DigitChar(n)] else NatText(n / 10) + [DigitChar(n % 10)]
  }

  /** `%d` */
  function IntText(n: int): string {
    if n < 0 then "-" + NatText(-n) else NatText(n)
  }

  // ---- Strings ----

  function HexChar(d: nat): char
    requires d < 16
  {
    if d < 10 then DigitChar(d) else ('a' as int + d - 10) as char
  }

  /** `\u%04x` for a control character. */
  function ControlEscape(c: char): string
    requires c as int <= 0x1F
  {
    "\\u00" + [HexChar(c as int / 16), HexChar(c as int % 16)]
  }

  /** The bytes of U+2028 or U+2029 at position `i`, which JavaScript takes for line ends. */
  predicate LineSeparatorAt(s: string, i: nat, last: char) {
    i + 2 < |s| && s[i] == '\U{E2}' && s[i + 1] == '\U{80}' && s[i + 2] == last
  }

  /** How many bytes of the string one step of the loop consumes. */
  function PieceWidth(s: string, i: nat): (w: nat)
    requires i < |s|
    ensures 1 <= w && i + w <= |s|
  {
    if LineSeparatorAt(s, i, '\U{A8}') || LineSeparatorAt(s, i, '\U{A9}') then 3 else 1
  }

  /** What one step of the loop appends. */
  function Piece(s: string, i: nat): string
    requires i < |s|
  {
    var ch := s[i];
    if ch == BACKSLASH then "\\\\"
    else if ch == QUOTE then "\\\""
    else if ch == BACKSPACE then "\\b"
    else if ch == FORMFEED then "\\f"
    else if ch == '\n' then "\\n"
    else if ch == '\r' then "\\r"
    else if ch == '\t' then "\\t"
    else if ch as int <= 0x1F then ControlEscape(ch)
    else if LineSeparatorAt(s, i, '\U{A8}') then "\\u2028"
    else if LineSeparatorAt(s, i, '\U{A9}') then "\\u2029"
    else [ch]
  }

  function EscapedFrom(s: string, i: nat): string
    requires i <= |s|
    decreases |s| - i
  {
    if i == |s| then "" else Piece(s, i) + EscapedFrom(s, i + PieceWidth(s, i))
  }

  function Quoted(s: string): string {
    [QUOTE] + EscapedFrom(s, 0) + [QUOTE]
  }

  // ---- Values ----

  /** What `dump` appends. `fmt` is the `%.17g` of the C library. */
  function Text(v: Json, fmt: real -> string): string
    decreases v, 0
  {
    match v
    case Null => "null"
    case Int(n) => IntText(n)
    case Double(r) => fmt(r)
    case Bool(b) => if b then "true" else "false"
    case String(s) => Quoted(s)
    case Array(items) => "[" + ItemsText(items, 0, fmt) + "]"
    case Object(ms) => "{" + MembersText(ms, 0, fmt) + "}"
  }

  function Comma(i: nat): string {
    if i == 0 then "" else ", "
  }

  function ItemsText(items: seq<Json>, i: nat, fmt: real -> string): string
    requires i <= |items|
    decreases items, |items| - i
  {
    if i == |items| then "" else Comma(i) + Text(items[i], fmt) + ItemsText(items, i + 1, fmt)
  }

  function MembersText(ms: seq<Member>, i: nat, fmt: real -> string): string
    requires i <= |ms|
    decreases ms, |ms| - i
  {
    if i == |ms| then ""
    else Comma(i) + (Quoted(ms[i].key) + ": " + Text(ms[i].value, fmt)) + MembersText(ms, i + 1, fmt)
  }

  // ---- The loops ----

  lemma Assoc(a: string, b: string, c: string)
    ensures a + b + c == a + (b + c)
  {
  }

  /** `dump(const string &, string &)` */
  method DumpString(value: string, before: string) returns (out: string)
    ensures out == before + Quoted(value)
  {
    out := before + [QUOTE];
    var i := 0;
    while i < |value|
      invariant 0 <= i <= |value|
      invariant out + EscapedFrom(value, i) == before + [QUOTE] + EscapedFrom(value, 0)
    {
      ghost var was := out;
      var piece := Piece(value, i);
      out := out + piece;
      EscapedStep(was, piece, value, i);
      if PieceWidth(value, i) == 3 {
        i := i + 2;
      }
      i := i + 1;
    }
    Assoc(before, [QUOTE], EscapedFrom(value, 0));
    out := out + [QUOTE];
    Assoc(before, [QUOTE] + EscapedFrom(value, 0), [QUOTE]);
  }

  lemma EscapedStep(out: string, piece: string, s: string, i: nat)
    requires i < |s| && piece == Piece(s, i)
    ensures out + piece + EscapedFrom(s, i + PieceWidth(s, i)) == out + EscapedFrom(s, i)
  {
  }

  /** `Json::dump` */
  method Dump(v: Json, fmt: real -> string, before: string) returns (out: string)
    ensures out == before + Text(v, fmt)
    decreases v, 0
  {
    match v {
      case Null => out := before + "null";
      case Int(n) => out := before + IntText(n);
      case Double(r) => out := before + fmt(r);
      case Bool(b) => out := before + if b then "true" else "false";
      case String(s) => out := DumpString(s, before);
      case Array(items) =>
        out := DumpItems(items, fmt, before + "[");
        out := out + "]";
      case Object(ms) =>
        out := DumpMembers(ms, fmt, before + "{");
        out := out + "}";
    }
  }

  method DumpItems(items: seq<Json>, fmt: real -> string, before: string) returns (out: string)
    ensures out == before + ItemsText(items, 0, fmt)
    decreases items, |items| + 1
  {
    out := before;
    var i := 0;
    while i < |items|
      invariant 0 <= i <= |items|
      invariant out + ItemsText(items, i, fmt) == before + ItemsText(items, 0, fmt)
    {
      ghost var was := out;
      if i > 0 {
        out := out + ", ";
      }
      out := Dump(items[i], fmt, out);
      ItemAppended(was, out, items, i, fmt);
      i := i + 1;
    }
  }

  lemma ItemAppended(was: string, out: string, items: seq<Json>, i: nat, fmt: real -> string)
    requires i < |items| && out == was + Comma(i) + Text(items[i], fmt)
    ensures out + ItemsText(items, i + 1, fmt) == was + ItemsText(items, i, fmt)
  {
    Assoc(was, Comma(i), Text(items[i], fmt));
    Assoc(was, Comma(i) + Text(items[i], fmt), ItemsText(items, i + 1, fmt));
  }

  method DumpMembers(ms: seq<Member>, fmt: real -> string, before: string) returns (out: string)
    ensures out == before + MembersText(ms, 0, fmt)
    decreases ms, |ms| + 1
  {
    out := before;
    var i := 0;
    while i < |ms|
      invariant 0 <= i <= |ms|
      invariant out + MembersText(ms, i, fmt) == before + MembersText(ms, 0, fmt)
    {
      ghost var was := out;
      if i > 0 {
        out := out + ", ";
      }
      out := DumpString(ms[i].key, out);
      out := out + ": ";
      out := Dump(ms[i].value, fmt, out);
      MemberAppended(was, out, ms, i, fmt);
      i := i + 1;
    }
  }

  lemma MemberAppended(was: string, out: string, ms: seq<Member>, i: nat, fmt: real -> string)
    requires i < |ms|
    requires out == was + Comma(i) + Quoted(ms[i].key) + ": " + Text(ms[i].value, fmt)
    ensures out + MembersText(ms, i + 1, fmt) == was + MembersText(ms, i, fmt)
  {
    var key, value := Quoted(ms[i].key), Text(ms[i].value, fmt);
    Assoc(was + Comma(i), key, ": ");
    Assoc(was + Comma(i), key + ": ", value);
    Assoc(was, Comma(i), key + ": " + value);
    Assoc(was, Comma(i) + (key + ": " + value), MembersText(ms, i + 1, fmt));
  }

  // ---- What it looks like ----

  /** The three bytes of U+2028 or U+2029 stand at position `i`. */
  predicate Separator(s: string, i: nat, last: int) {
    i + 3 <= |s| && s[i] as int == 0xE2 && s[i + 1] as int == 0x80 && s[i + 2] as int == last
  }

  /**
   How a byte is printed: seven of them with a letter behind a backslash, the other control
   characters with two small hexadecimal digits, the line separators of JavaScript as escapes
   for three bytes at once, and everything else as it is.
   */
  lemma PieceLooks(s: string, i: nat)
    requires i < |s|
    ensures var c, w, n := s[i] as int, Piece(s, i), PieceWidth(s, i);
      var letters := map[0x22 := '"', 0x5C := '\\', 0x08 := 'b', 0x0C := 'f', 0x0A := 'n', 0x0D := 'r', 0x09 := 't'];
      if c in letters then n == 1 && w == ['\\', letters[c]]
      else if c < 0x20 then n == 1 && w == "\\u00" + ["0123456789abcdef"[c / 16], "0123456789abcdef"[c % 16]]
      else if Separator(s, i, 0xA8) then n == 3 && w == "\\u2028"
      else if Separator(s, i, 0xA9) then n == 3 && w == "\\u2029"
      else n == 1 && w == [s[i]]
  {
    if s[i] as int < 0x20 {
      HexLooks(s[i] as int / 16);
      HexLooks(s[i] as int % 16);
    }
  }

  lemma HexLooks(d: nat)
    requires d < 16
    ensures HexChar(d) == "0123456789abcdef"[d]
  {
  }

  /** Commas and colons have a blank behind them. */
  lemma DumpLooks(fmt: real -> string)
    ensures Text(Array([Int(1), Null, Bool(true)]), fmt) == "[1, null, true]"
    ensures Text(Object([Member("a", Bool(false)), Member("b", Int(-20))]), fmt) == "{\"a\": false, \"b\": -20}"
    ensures Text(Array([]), fmt) == "[]" && Text(Object([]), fmt) == "{}"
  {
    ArrayLooks(fmt);
    ObjectLooks(fmt);
  }

  lemma ArrayLooks(fmt: real -> string)
    ensures Text(Array([Int(1), Null, Bool(true)]), fmt) == "[1, null, true]"
  {
    hide IntText;
    var items := [Int(1), Null, Bool(true)];
    NumbersLook();
    assert ItemsText(items, 3, fmt) == "";
    assert ItemsText(items, 2, fmt) == ", true";
    assert ItemsText(items, 1, fmt) == ", null, true";
    assert ItemsText(items, 0, fmt) == "1, null, true";
  }

  lemma NumbersLook()
    ensures IntText(1) == "1" && IntText(-20) == "-20"
  {
    assert NatText(20) == NatText(2) + "0" == "20";
  }

  lemma KeysLook()
    ensures Quoted("a") == "\"a\"" && Quoted("b") == "\"b\""
  {
    assert EscapedFrom("a", 1) == "" && EscapedFrom("b", 1) == "";
  }

  lemma ObjectLooks(fmt: real -> string)
    ensures Text(Object([Member("a", Bool(false)), Member("b", Int(-20))]), fmt) == "{\"a\": false, \"b\": -20}"
  {
    hide Quoted, IntText;
    var ms := [Member("a", Bool(false)), Member("b", Int(-20))];
    NumbersLook();
    KeysLook();
    assert MembersText(ms, 2, fmt) == "";
    assert MembersText(ms, 1, fmt) == ", \"b\": -20";
    assert MembersText(ms, 0, fmt) == "\"a\": false, \"b\": -20";
  }
}
