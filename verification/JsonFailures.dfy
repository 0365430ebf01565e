/** What the error messages of the parser say is true of the text. */
module JsonFailures {
  import opened JsonAccepts
  import opened JsonErrors
  import opened JsonGaps
  import opened JsonGrammar
  import opened JsonStrings
  import opened JsonSyntax
  import opened JsonText
  import opened JsonValue
  import opened Occurrence

  // ---- Where something stands in a text ----

  ghost predicate GapBetween(t: string, p: nat, q: nat, comments: bool) {
    exists g: Gap :: Holds(t, p, GapText(g)) && p + |GapText(g)| == q && GapFits(g, comments, q == |t|)
  }

  ghost predicate TreeBetween(t: string, p: nat, q: nat, comments: bool) {
    exists tree: Tree :: TreeFits(tree, comments) && Holds(t, p, TreeText(tree)) && p + |TreeText(tree)| == q
  }

  ghost predicate UnitsBetween(t: string, p: nat, q: nat) {
    exists us: seq<StringUnit> :: Holds(t, p, UnitsText(us)) && p + |UnitsText(us)| == q
  }

  /** In front of position `p` stands a bracket, a comma, a colon, a value or a key, or nothing. */
  ghost predicate Boundary(t: string, p: nat, comments: bool) {
    || p == 0
    || (p <= |t| && t[p - 1] in {'[', '{', ',', ':'})
    || exists q: nat :: TreeBetween(t, q, p, comments)
  }

  /** The next token is looked for at position `q`: it is a boundary but for a gap. */
  ghost predicate Looked(t: string, q: nat, comments: bool) {
    exists p: nat :: Boundary(t, p, comments) && GapBetween(t, p, q, comments)
  }

  /** A token `c` stands at position `q`, behind a gap and one of the characters `before`. */
  ghost predicate TokenBehind(t: string, q: nat, c: char, before: set<char>, comments: bool) {
    q < |t| && t[q] == c && exists p: nat :: 0 < p <= q && t[p - 1] in before && GapBetween(t, p, q, comments)
  }

  /** A token `c` stands at position `q`, behind a value that stands behind one of the characters `before`. */
  ghost predicate TokenBehindValue(t: string, q: nat, c: char, before: set<char>, comments: bool) {
    && q < |t| && t[q] == c
    && exists k: nat, n: nat, p: nat ::
         && 0 < k <= n <= p <= q && t[k - 1] in before
         && GapBetween(t, k, n, comments) && TreeBetween(t, n, p, comments) && GapBetween(t, p, q, comments)
  }

  /** The opening brackets and braces in front of position `p`. */
  function Opened(t: string, p: nat): (n: nat)
    requires p <= |t|
  {
    if p == 0 then 0 else Opened(t, p - 1) + if t[p - 1] == '[' || t[p - 1] == '{' then 1 else 0
  }

  // ---- What each message says ----

  /** A comment starts at position `q`, where a token is looked for. */
  ghost predicate CommentStarts(t: string, q: nat, comments: bool) {
    comments && q < |t| && t[q] == '/' && Looked(t, q, comments)
  }

  /** The text of a string goes from behind a quote at position `q` to position `k`. */
  ghost predicate StringGoes(t: string, q: nat, k: nat, comments: bool) {
    q < |t| && t[q] == QUOTE && Looked(t, q, comments) && UnitsBetween(t, q + 1, k) && k <= |t|
  }

  /** A number goes from position `q` to position `k`: a sign, then the characters of numbers. */
  ghost predicate NumberGoes(t: string, q: nat, k: nat, comments: bool) {
    && q <= k <= |t| && Looked(t, q, comments)
    && forall n :: q <= n < k ==> IsDigit(t[n]) || (n == q && t[n] == '-') || (n > q && t[n] == '.')
  }

  ghost predicate Told(t: string, m: Error, comments: bool) {
    match m
    case Given(_) => false
    case EndOfInput => Looked(t, |t|, comments)
    case EndAfterCommentStart => |t| > 0 && CommentStarts(t, |t| - 1, comments)
    case EndInsideComment =>
      exists q: nat :: CommentStarts(t, q, comments) && q + 1 < |t| && t[q + 1] == '*'
        && forall k :: q + 2 <= k < |t| - 1 ==> !(t[k] == '*' && t[k + 1] == '/')
    case MalformedComment =>
      exists q: nat :: CommentStarts(t, q, comments) && q + 1 < |t| && t[q + 1] != '*' && t[q + 1] != '/'
    case EndInString =>
      exists q: nat, k: nat :: StringGoes(t, q, k, comments) && (k == |t| || (k + 1 == |t| && t[k] == BACKSLASH))
    case Unescaped(c) =>
      exists q: nat, k: nat :: StringGoes(t, q, k, comments) && k < |t| && t[k] == c && c as int < 0x20
    case InvalidEscape(c) =>
      exists q: nat, k: nat :: StringGoes(t, q, k, comments) && k + 1 < |t| && t[k] == BACKSLASH && t[k + 1] == c
        && c != 'u' && !IsSimpleEscape(c)
    case BadUnicodeEscape(w) =>
      exists q: nat, k: nat :: StringGoes(t, q, k, comments) && k + 1 < |t| && t[k] == BACKSLASH && t[k + 1] == 'u'
        && Holds(t, k + 2, w) && (|w| == 4 || (|w| < 4 && k + 2 + |w| == |t|))
        && (|w| == 4 ==> exists n :: 0 <= n < 4 && !IsHex(w[n]))
    case LeadingZeros =>
      exists q: nat, k: nat :: NumberGoes(t, q, k, comments) && k <= q + 1 && (k == q + 1 ==> t[q] == '-')
        && k + 1 < |t| && t[k] == '0' && IsDigit(t[k + 1])
    case InvalidInNumber(c) =>
      exists q: nat :: NumberGoes(t, q, q + 1, comments) && t[q] == '-' && c == At(t, q + 1) && !IsDigit(c)
    case NoFractionDigit =>
      exists q: nat, k: nat :: NumberGoes(t, q, k, comments) && q < k && IsDigit(t[k - 1])
        && k < |t| && t[k] == '.' && !IsDigit(At(t, k + 1))
    case NoExponentDigit =>
      exists q: nat, k: nat :: NumberGoes(t, q, k, comments) && q < k && IsDigit(t[k - 1])
        && k < |t| && IsExponentMark(t[k])
        && !IsDigit(At(t, if IsSign(At(t, k + 1)) then k + 2 else k + 1))
    case NotTheWord(word, got) =>
      exists q: nat :: Looked(t, q, comments) && q < |t| && word in {"true", "false", "null"} && t[q] == word[0]
        && got != word && Holds(t, q, got) && (|got| == |word| || (|got| < |word| && q + |got| == |t|))
    case TooDeep => Opened(t, |t|) > 200
    case NotAKey(c) => c != QUOTE && exists q: nat :: TokenBehind(t, q, c, {'{', ','}, comments)
    case NotAColon(c) =>
      c != ':' && exists q: nat, n: nat, p: nat ::
        && n < p <= q < |t| && t[q] == c && t[n] == QUOTE
        && TreeBetween(t, n, p, comments) && GapBetween(t, p, q, comments)
    case NotAMemberComma(c) =>
      c != ',' && c != '}' && exists q: nat :: TokenBehindValue(t, q, c, {':'}, comments)
    case NotAnItemComma(c) =>
      c != ',' && c != ']' && exists q: nat :: TokenBehindValue(t, q, c, {'[', ','}, comments)
    case NotAValue(c) =>
      && c !in {'-', 't', 'f', 'n', QUOTE, '{', '['} && !IsDigit(c)
      && exists q: nat :: q < |t| && t[q] == c && Looked(t, q, comments)
    case Trailing(c) =>
      exists n: nat, p: nat, q: nat ::
        && q < |t| && t[q] == c
        && GapBetween(t, 0, n, comments) && TreeBetween(t, n, p, comments) && GapBetween(t, p, q, comments)
  }

  // ---- Gaps and comments ----

  /** A gap stops at the comment that makes it fail. */
  lemma {:induction false} FindBadRemark(t: string, p: nat) returns (g: Gap, q: nat)
    requires p <= |t| && Comments(t, SkipSpace(t, p)).Fail?
    ensures Holds(t, p, GapText(g)) && p + |GapText(g)| == q && q < |t| && GapFits(g, true, false) && t[q] == '/'
    ensures Comments(t, SkipSpace(t, p)) == Comment(t, q)
    decreases |t| - p
  {
    hide Holds, Blank, RemarkFits, Comment, RemarkText;
    var i := SkipSpace(t, p);
    SkippedBlank(t, p);
    HoldsOwn(t, p, i);
    if Comment(t, i).Fail? {
      g, q := Space(t[p..i]), i;
    } else {
      var c := FindRemark(t, i);
      var j := Comment(t, i).pos;
      var rest;
      rest, q := FindBadRemark(t, j);
      g := Remarked(t[p..i], c, rest);
      HoldsJoin(t, p, t[p..i], RemarkText(c));
      HoldsJoin(t, p, t[p..i] + RemarkText(c), GapText(rest));
      FirstOf(t, j, GapText(rest));
    }
  }

  lemma {:induction false} Unclosed(t: string, i: nat)
    requires i <= |t| && BlockEnd(t, i).Fail?
    ensures BlockEnd(t, i) == Fail(EndInsideComment)
    ensures forall k :: i <= k < |t| - 1 ==> !(t[k] == '*' && t[k + 1] == '/')
    decreases |t| - i
  {
    if i + 2 <= |t| {
      Unclosed(t, i + 1);
    }
  }

  lemma BadComment(t: string, q: nat)
    requires q < |t| && t[q] == '/' && Comment(t, q).Fail? && Looked(t, q, true)
    ensures Told(t, Comment(t, q).error, true)
  {
    hide Looked, BlockEnd, LineEnd;
    assert CommentStarts(t, q, true);
    if q + 1 < |t| && t[q + 1] == '*' {
      Unclosed(t, q + 2);
    }
  }

  /** Behind a boundary a gap may fail. */
  lemma GarbageTold(t: string, p: nat, comments: bool)
    requires p <= |t| && Garbage(t, p, comments).Fail? && Boundary(t, p, comments)
    ensures Told(t, Garbage(t, p, comments).error, comments)
  {
    hide Boundary, Told, GapFits, Holds;
    var g, q := FindBadRemark(t, p);
    assert GapBetween(t, p, q, true);
    assert Looked(t, q, true);
    BadComment(t, q);
  }

  lemma GarbageGap(t: string, p: nat, comments: bool)
    requires p <= |t| && Garbage(t, p, comments).Ok?
    ensures GapBetween(t, p, Garbage(t, p, comments).pos, comments)
  {
    hide GapFits, Holds, Garbage;
    var g := FindGap(t, p, comments);
  }

  lemma TokenTold(t: string, p: nat, comments: bool)
    requires p <= |t| && Token(t, p, comments).Fail? && Boundary(t, p, comments)
    ensures Told(t, Token(t, p, comments).error, comments)
  {
    hide Boundary, GapBetween, Garbage;
    if Garbage(t, p, comments).Fail? {
      GarbageTold(t, p, comments);
    } else {
      GarbageGap(t, p, comments);
      assert Looked(t, |t|, comments);
    }
  }

  lemma TokenGap(t: string, p: nat, comments: bool)
    requires p <= |t| && Token(t, p, comments).Ok?
    ensures GapBetween(t, p, Token(t, p, comments).pos - 1, comments)
    ensures Boundary(t, p, comments) ==> Looked(t, Token(t, p, comments).pos - 1, comments)
  {
    hide Boundary, GapBetween, Garbage;
    GarbageGap(t, p, comments);
  }

  // ---- Strings ----

  /** What is wrong at position `k` of a string. */
  predicate Fault(t: string, k: nat, m: Error)
    requires k <= |t|
  {
    if k == |t| then m == EndInString
    else if t[k] as int < 0x20 then m == Unescaped(t[k])
    else if t[k] != BACKSLASH then false
    else if k + 1 == |t| then m == EndInString
    else if t[k + 1] == 'u' then !IsHex4(t, k + 2) && m == BadUnicodeEscape(Substr(t, k + 2, 4))
    else !IsSimpleEscape(t[k + 1]) && m == InvalidEscape(t[k + 1])
  }

  lemma FaultAt(t: string, p: nat, pending: int, out: string)
    requires p <= |t| && pending < 0x1_0000 && StringFrom(t, p, pending, out).Fail? && !UnitAt(t, p)
    ensures Fault(t, p, StringFrom(t, p, pending, out).error)
  {
  }

  lemma UnitsCons(t: string, p: nat, u: StringUnit, k: nat)
    requires Holds(t, p, UnitText(u)) && UnitsBetween(t, p + |UnitText(u)|, k)
    ensures UnitsBetween(t, p, k)
  {
    hide Holds, UnitText;
    var us: seq<StringUnit> :| Holds(t, p + |UnitText(u)|, UnitsText(us)) && p + |UnitText(u)| + |UnitsText(us)| == k;
    assert ([u] + us)[1..] == us;
    HoldsJoin(t, p, UnitText(u), UnitsText(us));
    assert UnitsText([u] + us) == UnitText(u) + UnitsText(us);
  }

  lemma NoUnitsBetween(t: string, p: nat)
    requires p <= |t|
    ensures UnitsBetween(t, p, p)
  {
    assert Holds(t, p, UnitsText([]));
  }

  /** A string that fails is made of units up to where something is wrong. */
  lemma {:induction false} FindFault(t: string, p: nat, pending: int, out: string) returns (k: nat)
    requires p <= |t| && pending < 0x1_0000 && StringFrom(t, p, pending, out).Fail?
    ensures k <= |t| && UnitsBetween(t, p, k) && Fault(t, k, StringFrom(t, p, pending, out).error)
    decreases |t| - p
  {
    hide StringFrom, UnitAt, UnitsBetween, Fault, UnitText, Holds;
    if UnitAt(t, p) {
      var u, pending', out' := FirstUnit(t, p, pending, out);
      k := FindFault(t, p + |UnitText(u)|, pending', out');
      UnitsCons(t, p, u, k);
    } else {
      FaultAt(t, p, pending, out);
      NoUnitsBetween(t, p);
      k := p;
    }
  }

  lemma StringTold(t: string, j: nat, comments: bool)
    requires 0 < j <= |t| && t[j - 1] == QUOTE && Looked(t, j - 1, comments) && StringFrom(t, j, -1, "").Fail?
    ensures Told(t, StringFrom(t, j, -1, "").error, comments)
  {
    hide Looked, StringFrom, UnitsBetween;
    var k := FindFault(t, j, -1, "");
    var m := StringFrom(t, j, -1, "").error;
    assert StringGoes(t, j - 1, k, comments);
    if m.BadUnicodeEscape? {
      BadEscape(t, k + 2);
    }
  }

  lemma BadEscape(t: string, i: nat)
    requires i <= |t| && !IsHex4(t, i)
    ensures var w := Substr(t, i, 4);
      && Holds(t, i, w) && (|w| == 4 || (|w| < 4 && i + |w| == |t|))
      && (|w| == 4 ==> exists n :: 0 <= n < 4 && !IsHex(w[n]))
  {
    var w := Substr(t, i, 4);
    if |w| == 4 {
      assert w[0] == t[i] && w[1] == t[i + 1] && w[2] == t[i + 2] && w[3] == t[i + 3];
    }
  }

  // ---- Numbers and words ----

  lemma DigitsGo(t: string, q: nat, p: nat, comments: bool)
    requires Looked(t, q, comments) && q <= |t|
    requires p == q || (p == q + 1 && q < |t| && t[q] == '-')
    requires IntegerPart(t, p).Ok?
    ensures NumberGoes(t, q, IntegerPart(t, p).pos, comments) && p < IntegerPart(t, p).pos
  {
    hide Looked;
  }

  /** The integer part of a number fails. */
  lemma WholeTold(t: string, q: nat, p: nat, comments: bool)
    requires q < |t| && Looked(t, q, comments) && (t[q] == '-' || IsDigit(t[q]))
    requires p == if t[q] == '-' then q + 1 else q
    requires IntegerPart(t, p).Fail?
    ensures Told(t, IntegerPart(t, p).error, comments)
  {
    hide Looked;
    assert NumberGoes(t, q, p, comments);
  }

  lemma FractionGoes(t: string, q: nat, k: nat, comments: bool)
    requires NumberGoes(t, q, k, comments) && q < k && IsDigit(t[k - 1])
    ensures Fraction(t, k).Fail? ==> Told(t, Fraction(t, k).error, comments)
    ensures Fraction(t, k).Ok? ==>
      var l := Fraction(t, k).pos; NumberGoes(t, q, l, comments) && q < l && IsDigit(t[l - 1])
  {
    hide Looked;
  }

  lemma ExponentTold(t: string, q: nat, l: nat, comments: bool)
    requires NumberGoes(t, q, l, comments) && q < l && IsDigit(t[l - 1]) && Exponent(t, l).Fail?
    ensures Told(t, Exponent(t, l).error, comments)
  {
    hide NumberGoes;
  }

  lemma NumberTold(t: string, q: nat, comments: bool)
    requires q < |t| && Looked(t, q, comments) && (t[q] == '-' || IsDigit(t[q])) && NumberAt(t, q).Fail?
    ensures Told(t, NumberAt(t, q).error, comments)
  {
    hide Looked, Told, Fraction, Exponent, NumberGoes;
    var p := if t[q] == '-' then q + 1 else q;
    if IntegerPart(t, p).Fail? {
      WholeTold(t, q, p, comments);
    } else {
      DigitsGo(t, q, p, comments);
      var k := IntegerPart(t, p).pos;
      FractionGoes(t, q, k, comments);
      if Fraction(t, k).Ok? {
        ExponentTold(t, q, Fraction(t, k).pos, comments);
      }
    }
  }

  lemma WordTold(t: string, q: nat, word: string, v: Json, comments: bool)
    requires q < |t| && Looked(t, q, comments) && word in {"true", "false", "null"} && t[q] == word[0]
    requires Expect(t, q + 1, word, v).Fail?
    ensures Told(t, Expect(t, q + 1, word, v).error, comments)
  {
    hide Looked;
    var got := Substr(t, q, |word|);
    assert Holds(t, q, got);
  }

  // ---- Values ----

  lemma {:induction false} OpenedGrows(t: string, p: nat, q: nat)
    requires p <= q <= |t|
    ensures Opened(t, p) <= Opened(t, q)
  {
    if p < q {
      OpenedGrows(t, p, q - 1);
    }
  }

  /** Behind a value stands a boundary. */
  lemma ValueBetween(t: string, p: nat, depth: int, comments: bool) returns (n: nat)
    requires p <= |t| && ValueAt(t, p, depth, comments).Ok?
    ensures p <= n < ValueAt(t, p, depth, comments).pos && GapBetween(t, p, n, comments)
    ensures TreeBetween(t, n, ValueAt(t, p, depth, comments).pos, comments)
    ensures Boundary(t, ValueAt(t, p, depth, comments).pos, comments)
    ensures Token(t, p, comments).Ok? && n == Token(t, p, comments).pos - 1
  {
    hide Token, ValueAt, ValueFrom, GapBetween, Holds, TreeFits, TreeText;
    ValueBehindGap(t, p, depth, comments);
    TokenGap(t, p, comments);
    n := Token(t, p, comments).pos - 1;
    var tree := FindTree(t, n + 1, depth, comments);
    assert TreeBetween(t, n, ValueAt(t, p, depth, comments).pos, comments);
  }

  lemma KeyBetween(t: string, i: nat, comments: bool)
    requires 0 < i <= |t| && t[i - 1] == QUOTE && StringFrom(t, i, -1, "").Ok?
    ensures TreeBetween(t, i - 1, StringFrom(t, i, -1, "").pos, comments)
    ensures Boundary(t, StringFrom(t, i, -1, "").pos, comments)
  {
    hide StringFrom, Holds, UnitsText;
    var us := FindKey(t, i);
    var tree := Str(us);
    assert TreeFits(tree, comments) && TreeText(tree) == KeyText(us);
  }

  lemma {:induction false} ValueTold(t: string, p: nat, depth: int, comments: bool)
    requires p <= |t| && Boundary(t, p, comments) && depth <= Opened(t, p) && ValueAt(t, p, depth, comments).Fail?
    ensures Told(t, ValueAt(t, p, depth, comments).error, comments)
    decreases |t| - p, 0
  {
    hide Token, ValueAt, ValueFrom, Boundary, Told, Looked, Opened;
    if depth > MAX_DEPTH {
      TooDeepFails(t, p, depth, comments);
      OpenedGrows(t, p, |t|);
      TooDeepTold(t, comments);
    } else {
      ValueStep(t, p, depth, comments, Token(t, p, comments));
      if Token(t, p, comments).Fail? {
        TokenTold(t, p, comments);
      } else {
        TokenGap(t, p, comments);
        var j := Token(t, p, comments).pos;
        OpenedGrows(t, p, j - 1);
        FromTold(t, j, depth, comments);
      }
    }
  }

  lemma TooDeepTold(t: string, comments: bool)
    requires Opened(t, |t|) > 200
    ensures Told(t, TooDeep, comments)
  {
  }

  lemma {:induction false} FromTold(t: string, j: nat, depth: int, comments: bool)
    requires 0 < j <= |t| && Looked(t, j - 1, comments) && depth <= Opened(t, j - 1)
    requires ValueFrom(t, j, t[j - 1], depth, comments).Fail?
    ensures Told(t, ValueFrom(t, j, t[j - 1], depth, comments).error, comments)
    decreases |t| - j, 4
  {
    hide NumberAt, Expect, StringFrom, ArrayFrom, ObjectFrom, Looked, Told;
    var ch := t[j - 1];
    if ch == '-' || IsDigit(ch) {
      NumberTold(t, j - 1, comments);
    } else if ch == 't' {
      WordTold(t, j - 1, "true", Bool(true), comments);
    } else if ch == 'f' {
      WordTold(t, j - 1, "false", Bool(false), comments);
    } else if ch == 'n' {
      WordTold(t, j - 1, "null", Null, comments);
    } else if ch == QUOTE {
      StringTold(t, j, comments);
    } else if ch == '{' {
      ObjectTold(t, j, depth, comments);
    } else if ch == '[' {
      ArrayTold(t, j, depth, comments);
    } else {
      NotAValueTold(t, j - 1, comments);
    }
  }

  lemma NotAValueTold(t: string, q: nat, comments: bool)
    requires q < |t| && Looked(t, q, comments)
    requires t[q] !in {'-', 't', 'f', 'n', QUOTE, '{', '['} && !IsDigit(t[q])
    ensures Told(t, NotAValue(t[q]), comments)
  {
    hide Looked;
  }

  lemma Behind(t: string, p: nat, comments: bool)
    requires 0 < p <= |t| && t[p - 1] in {'[', '{', ',', ':'}
    ensures Boundary(t, p, comments)
  {
  }

  // ---- Arrays ----

  lemma {:induction false} ArrayTold(t: string, j: nat, depth: int, comments: bool)
    requires 0 < j <= |t| && t[j - 1] == '[' && depth <= Opened(t, j - 1) && ArrayFrom(t, j, depth, comments).Fail?
    ensures Told(t, ArrayFrom(t, j, depth, comments).error, comments)
    decreases |t| - j, 3
  {
    hide Token, ItemsAt, Told, Boundary, GapBetween;
    Behind(t, j, comments);
    if Token(t, j, comments).Fail? {
      TokenTold(t, j, comments);
    } else {
      TokenGap(t, j, comments);
      var k := Token(t, j, comments).pos;
      OpenedGrows(t, j, k - 1);
      ItemsTold(t, j, k, depth, comments, []);
    }
  }

  /** The token found behind a gap is found again where it stands. */
  lemma TokenAgain(t: string, b: nat, comments: bool)
    requires b <= |t| && Token(t, b, comments).Ok?
    ensures var i := Token(t, b, comments).pos; Token(t, i - 1, comments) == Ok(i, t[i - 1])
  {
    hide Token;
    var g := FindToken(t, b, comments);
  }

  /** A value fails that starts with the token behind position `b`. */
  lemma {:induction false} ElementTold(t: string, b: nat, i: nat, depth: int, comments: bool)
    requires b < i <= |t| && Boundary(t, b, comments) && Token(t, b, comments).Ok? && Token(t, b, comments).pos == i
    requires depth <= Opened(t, i - 1) && ValueAt(t, i - 1, depth, comments).Fail?
    ensures Told(t, ValueAt(t, i - 1, depth, comments).error, comments)
    decreases |t| - (i - 1), 0
  {
    hide Token, ValueAt, ValueFrom, Told, Boundary, Looked, Opened;
    TokenAgain(t, b, comments);
    TokenGap(t, b, comments);
    if depth > MAX_DEPTH {
      TooDeepFails(t, i - 1, depth, comments);
      OpenedGrows(t, i - 1, |t|);
      TooDeepTold(t, comments);
    } else {
      ValueStep(t, i - 1, depth, comments, Token(t, i - 1, comments));
      FromTold(t, i, depth, comments);
    }
  }

  /** Items fail, the first of which starts with the token behind position `b`. */
  lemma {:induction false} ItemsTold(t: string, b: nat, i: nat, depth: int, comments: bool, data: seq<Json>)
    requires 0 < b < i <= |t| && t[b - 1] in {'[', ','}
    requires Token(t, b, comments).Ok? && Token(t, b, comments).pos == i
    requires depth < Opened(t, i - 1) && ItemsAt(t, i, depth, comments, data).Fail?
    ensures Told(t, ItemsAt(t, i, depth, comments, data).error, comments)
    decreases |t| - (i - 1), 1
  {
    hide Token, ItemsAt, BehindItem, ValueAt, Told, Boundary, GapBetween, TreeBetween, Opened;
    Behind(t, b, comments);
    var r := ValueAt(t, i - 1, depth + 1, comments);
    ElementStep(t, i, i - 1, depth, depth + 1, comments, data, r);
    if r.Fail? {
      ElementTold(t, b, i, depth + 1, comments);
    } else {
      TokenGap(t, b, comments);
      TokenAgain(t, b, comments);
      var n := ValueBetween(t, i - 1, depth + 1, comments);
      BehindItemTold(t, b, i - 1, r.pos, depth, comments, data + [r.value]);
    }
  }

  /** Behind an item at position `n`, which is behind position `b`. */
  lemma {:induction false} BehindItemTold(t: string, b: nat, n: nat, j: nat, depth: int, comments: bool,
                                          data: seq<Json>)
    requires 0 < b <= n < j <= |t| && t[b - 1] in {'[', ','}
    requires GapBetween(t, b, n, comments) && TreeBetween(t, n, j, comments)
    requires depth < Opened(t, n) && BehindItem(t, j, depth, comments, data).Fail?
    ensures Told(t, BehindItem(t, j, depth, comments, data).error, comments)
    decreases |t| - j, 2
  {
    hide Token, ItemsAt, Told, GapBetween, TreeBetween, Opened;
    assert Boundary(t, j, comments);
    if Token(t, j, comments).Fail? {
      TokenTold(t, j, comments);
    } else {
      TokenGap(t, j, comments);
      var k := Token(t, j, comments).pos;
      OpenedGrows(t, n, k);
      if t[k - 1] != ',' {
        ItemCommaTold(t, b, n, j, k - 1, comments);
      } else if Token(t, k, comments).Fail? {
        TokenTold(t, k, comments);
      } else {
        OpenedGrows(t, k, Token(t, k, comments).pos - 1);
        ItemsTold(t, k, Token(t, k, comments).pos, depth, comments, data);
      }
    }
  }

  lemma ItemCommaTold(t: string, b: nat, n: nat, j: nat, q: nat, comments: bool)
    requires 0 < b <= n <= j <= q < |t| && t[b - 1] in {'[', ','} && t[q] != ',' && t[q] != ']'
    requires GapBetween(t, b, n, comments) && TreeBetween(t, n, j, comments) && GapBetween(t, j, q, comments)
    ensures Told(t, NotAnItemComma(t[q]), comments)
  {
    hide GapBetween, TreeBetween;
    assert TokenBehindValue(t, q, t[q], {'[', ','}, comments);
  }

  // ---- Objects ----

  lemma {:induction false} ObjectTold(t: string, j: nat, depth: int, comments: bool)
    requires 0 < j <= |t| && t[j - 1] == '{' && depth <= Opened(t, j - 1) && ObjectFrom(t, j, depth, comments).Fail?
    ensures Told(t, ObjectFrom(t, j, depth, comments).error, comments)
    decreases |t| - j, 3
  {
    hide Token, MembersAt, Told, Boundary;
    Behind(t, j, comments);
    if Token(t, j, comments).Fail? {
      TokenTold(t, j, comments);
    } else {
      var k := Token(t, j, comments).pos;
      OpenedGrows(t, j, k - 1);
      MembersTold(t, j, k, depth, comments, []);
    }
  }

  /** Members fail, the first of which starts with the token behind position `b`. */
  lemma {:induction false} MembersTold(t: string, b: nat, i: nat, depth: int, comments: bool, data: seq<Member>)
    requires 0 < b < i <= |t| && t[b - 1] in {'{', ','}
    requires Token(t, b, comments).Ok? && Token(t, b, comments).pos == i
    requires depth < Opened(t, i - 1) && MembersAt(t, i, t[i - 1], depth, comments, data).Fail?
    ensures Told(t, MembersAt(t, i, t[i - 1], depth, comments, data).error, comments)
    decreases |t| - i, 1
  {
    hide Token, BehindKey, StringFrom, Told, Boundary, GapBetween, TreeBetween, Looked, Opened;
    Behind(t, b, comments);
    TokenGap(t, b, comments);
    if t[i - 1] != QUOTE {
      KeyTold(t, b, i - 1, comments);
    } else if StringFrom(t, i, -1, "").Fail? {
      StringTold(t, i, comments);
    } else {
      KeyBetween(t, i, comments);
      var r := StringFrom(t, i, -1, "");
      OpenedGrows(t, i - 1, r.pos);
      BehindKeyTold(t, i - 1, r.pos, r.value, depth, comments, data);
    }
  }

  lemma KeyTold(t: string, b: nat, q: nat, comments: bool)
    requires 0 < b <= q < |t| && t[b - 1] in {'{', ','} && t[q] != QUOTE && GapBetween(t, b, q, comments)
    ensures Told(t, NotAKey(t[q]), comments)
  {
    hide GapBetween;
    assert TokenBehind(t, q, t[q], {'{', ','}, comments);
  }

  /** Behind a key that starts at position `n`. */
  lemma {:induction false} BehindKeyTold(t: string, n: nat, j: nat, key: string, depth: int, comments: bool,
                                         data: seq<Member>)
    requires n < j <= |t| && t[n] == QUOTE && TreeBetween(t, n, j, comments)
    requires depth < Opened(t, j) && BehindKey(t, j, key, depth, comments, data).Fail?
    ensures Told(t, BehindKey(t, j, key, depth, comments, data).error, comments)
    decreases |t| - j, 2
  {
    hide Token, MemberValue, Told, GapBetween, TreeBetween, Opened;
    assert Boundary(t, j, comments);
    if Token(t, j, comments).Fail? {
      TokenTold(t, j, comments);
    } else {
      TokenGap(t, j, comments);
      var k := Token(t, j, comments).pos;
      OpenedGrows(t, j, k);
      if t[k - 1] != ':' {
        ColonTold(t, n, j, k - 1, comments);
      } else {
        MemberTold(t, k, key, depth, comments, data);
      }
    }
  }

  lemma ColonTold(t: string, n: nat, p: nat, q: nat, comments: bool)
    requires n < p <= q < |t| && t[n] == QUOTE && t[q] != ':'
    requires TreeBetween(t, n, p, comments) && GapBetween(t, p, q, comments)
    ensures Told(t, NotAColon(t[q]), comments)
  {
    hide GapBetween, TreeBetween;
  }

  /** Behind the colon of a member. */
  lemma {:induction false} MemberTold(t: string, k: nat, key: string, depth: int, comments: bool, data: seq<Member>)
    requires 0 < k <= |t| && t[k - 1] == ':' && depth < Opened(t, k)
    requires MemberValue(t, k, key, depth, comments, data).Fail?
    ensures Told(t, MemberValue(t, k, key, depth, comments, data).error, comments)
    decreases |t| - k, 1
  {
    hide ValueAt, MemberValue, BehindMember, Told, Boundary, GapBetween, TreeBetween, Opened;
    Behind(t, k, comments);
    var r := ValueAt(t, k, depth + 1, comments);
    JsonSyntax.MemberStep(t, k, key, depth, depth + 1, comments, data, r);
    if r.Fail? {
      ValueTold(t, k, depth + 1, comments);
    } else {
      var n := ValueBetween(t, k, depth + 1, comments);
      OpenedGrows(t, k, r.pos);
      BehindMemberTold(t, k, n, r.pos, depth, comments, Assign(data, key, r.value));
    }
  }

  /** Behind a member whose value stands at position `n`, behind a colon in front of `k`. */
  lemma {:induction false} BehindMemberTold(t: string, k: nat, n: nat, l: nat, depth: int, comments: bool,
                                            data: seq<Member>)
    requires 0 < k <= n <= l <= |t| && t[k - 1] == ':'
    requires GapBetween(t, k, n, comments) && TreeBetween(t, n, l, comments)
    requires depth < Opened(t, l) && BehindMember(t, l, depth, comments, data).Fail?
    ensures Told(t, BehindMember(t, l, depth, comments, data).error, comments)
    decreases |t| - l, 2
  {
    hide Token, MembersAt, Told, GapBetween, TreeBetween, Opened;
    assert Boundary(t, l, comments);
    if Token(t, l, comments).Fail? {
      TokenTold(t, l, comments);
    } else {
      TokenGap(t, l, comments);
      var m := Token(t, l, comments).pos;
      OpenedGrows(t, l, m);
      if t[m - 1] != ',' {
        MemberCommaTold(t, k, n, l, m - 1, comments);
      } else if Token(t, m, comments).Fail? {
        TokenTold(t, m, comments);
      } else {
        OpenedGrows(t, m, Token(t, m, comments).pos - 1);
        MembersTold(t, m, Token(t, m, comments).pos, depth, comments, data);
      }
    }
  }

  lemma MemberCommaTold(t: string, k: nat, n: nat, l: nat, q: nat, comments: bool)
    requires 0 < k <= n <= l <= q < |t| && t[k - 1] == ':' && t[q] != ',' && t[q] != '}'
    requires GapBetween(t, k, n, comments) && TreeBetween(t, n, l, comments) && GapBetween(t, l, q, comments)
    ensures Told(t, NotAMemberComma(t[q]), comments)
  {
    hide GapBetween, TreeBetween;
    assert TokenBehindValue(t, q, t[q], {':'}, comments);
  }

  // ---- Texts ----

  /** Whatever the text, the error that `parse` reports is true of it. */
  lemma ErrorTold(t: string, comments: bool)
    requires Document(t, comments).Fail?
    ensures Told(t, Document(t, comments).error, comments)
  {
    hide ValueAt, Garbage, Told, GapBetween, TreeBetween;
    assert Boundary(t, 0, comments);
    var r := ValueAt(t, 0, 0, comments);
    if r.Fail? {
      ValueTold(t, 0, 0, comments);
    } else {
      var n := ValueBetween(t, 0, 0, comments);
      if Garbage(t, r.pos, comments).Fail? {
        GarbageTold(t, r.pos, comments);
      } else {
        GarbageGap(t, r.pos, comments);
        TrailingTold(t, n, r.pos, Garbage(t, r.pos, comments).pos, comments);
      }
    }
  }

  lemma TrailingTold(t: string, n: nat, p: nat, q: nat, comments: bool)
    requires q < |t| && GapBetween(t, 0, n, comments) && TreeBetween(t, n, p, comments) && GapBetween(t, p, q, comments)
    ensures Told(t, Trailing(t[q]), comments)
  {
    hide GapBetween, TreeBetween;
  }
}
