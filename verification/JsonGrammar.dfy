/**
 The grammar of JSON (section 2 of RFC 8259, with comments where they are allowed) as trees of
 tokens with everything that stands between them, and what a tree means.
 */
module JsonGrammar {
  import opened JsonErrors
  import opened JsonGaps
  import opened JsonNumbers
  import opened JsonStrings
  import opened JsonSyntax
  import opened JsonText
  import opened JsonValue
  import opened Occurrence

  /** A value that is written as a word. */
  type Literal = v: Json | v.Null? || v.Bool? witness Null

  datatype Tree =
    | Word(v: Literal)
    | Num(n: JsonNumber)
    | Str(us: seq<StringUnit>)
    | EmptyArr(gap: Gap)
    | Arr(items: seq<Elem>)
    | EmptyObj(gap: Gap)
    | Obj(entries: seq<Entry>)

  /** An item with the gaps around it. */
  datatype Elem = Elem(before: Gap, value: Tree, behind: Gap)

  /** A member, with gaps in front of its key, its colon and its value, and behind its value. */
  datatype Entry = Entry(before: Gap, key: seq<StringUnit>, colon: Gap, front: Gap, value: Tree, behind: Gap)

  // ---- Text ----

  function WordText(v: Literal): string {
    if v.Null? then "null" else if v.b then "true" else "false"
  }

  function KeyText(us: seq<StringUnit>): string {
    [QUOTE] + (UnitsText(us) + [QUOTE])
  }

  function TreeText(tree: Tree): string
    decreases tree, 0
  {
    match tree
    case Word(v) => WordText(v)
    case Num(n) => NumberText(n)
    case Str(us) => KeyText(us)
    case EmptyArr(g) => "[" + (GapText(g) + "]")
    case Arr(es) => "[" + ElemsText(es)
    case EmptyObj(g) => "{" + (GapText(g) + "}")
    case Obj(ms) => "{" + EntriesText(ms)
  }

  /** The items up to the closing bracket. (The rank of an item's value is what the recursions go down by.) */
  function ElemsText(es: seq<Elem>): string
    decreases es, 2
  {
    if es == [] then "]" else GapText(es[0].before) + ElemText(es)
  }

  function ElemText(es: seq<Elem>): string
    requires es != []
    decreases es, 1
  {
    assert es[0].value < es[0];
    TreeText(es[0].value) + BehindElemText(es)
  }

  /** What stands behind the first of the items. */
  function BehindElemText(es: seq<Elem>): string
    requires es != []
    decreases es, 0
  {
    GapText(es[0].behind) + (if |es| == 1 then "]" else "," + ElemsText(es[1..]))
  }

  /** The members up to the closing brace. */
  function EntriesText(ms: seq<Entry>): string
    decreases ms, 3
  {
    if ms == [] then "}" else GapText(ms[0].before) + EntryText(ms)
  }

  function EntryText(ms: seq<Entry>): string
    requires ms != []
    decreases ms, 2
  {
    KeyText(ms[0].key) + (GapText(ms[0].colon) + (":" + EntryValueText(ms)))
  }

  function EntryValueText(ms: seq<Entry>): string
    requires ms != []
    decreases ms, 1
  {
    GapText(ms[0].front) + (TreeText(ms[0].value) + BehindEntryText(ms))
  }

  /** What stands behind the first of the members. */
  function BehindEntryText(ms: seq<Entry>): string
    requires ms != []
    decreases ms, 0
  {
    GapText(ms[0].behind) + (if |ms| == 1 then "}" else "," + EntriesText(ms[1..]))
  }

  // ---- Well-formed trees ----

  /** The gaps are well formed, and there are items and members where there should be. */
  ghost predicate TreeFits(tree: Tree, comments: bool)
    decreases tree, 0
  {
    match tree
    case EmptyArr(g) => GapFits(g, comments, false)
    case Arr(es) => es != [] && ItemsFit(es, comments)
    case EmptyObj(g) => GapFits(g, comments, false)
    case Obj(ms) => ms != [] && EntriesFit(ms, comments)
    case _ => true
  }

  ghost predicate ItemsFit(es: seq<Elem>, comments: bool)
    decreases es, 0
  {
    es != [] ==>
      assert es[0].value < es[0];
      && GapFits(es[0].before, comments, false) && TreeFits(es[0].value, comments)
      && GapFits(es[0].behind, comments, false) && ItemsFit(es[1..], comments)
  }

  ghost predicate EntriesFit(ms: seq<Entry>, comments: bool)
    decreases ms, 0
  {
    ms != [] ==>
      && GapFits(ms[0].before, comments, false) && GapFits(ms[0].colon, comments, false)
      && GapFits(ms[0].front, comments, false) && TreeFits(ms[0].value, comments)
      && GapFits(ms[0].behind, comments, false) && EntriesFit(ms[1..], comments)
  }

  // ---- Meaning ----

  function Meaning(tree: Tree): Json
    decreases tree, 0
  {
    match tree
    case Word(v) => v
    case Num(n) => NumberValue(n)
    case Str(us) => String(Decoded(us))
    case EmptyArr(_) => Array([])
    case Arr(es) => Array(ItemsMeaning(es))
    case EmptyObj(_) => Object([])
    case Obj(ms) => Object(EntriesMeaning(ms, []))
  }

  function ItemsMeaning(es: seq<Elem>): seq<Json>
    decreases es, 0
  {
    if es == [] then []
    else
      assert es[0].value < es[0];
      [Meaning(es[0].value)] + ItemsMeaning(es[1..])
  }

  /** Of several members with the same key the last one counts. */
  function EntriesMeaning(ms: seq<Entry>, data: seq<Member>): seq<Member>
    decreases ms, 0
  {
    if ms == [] then data
    else EntriesMeaning(ms[1..], Assign(data, Decoded(ms[0].key), Meaning(ms[0].value)))
  }

  // ---- Nesting ----

  function Max(a: nat, b: nat): nat {
    if a < b then b else a
  }

  /** How many levels of non-empty arrays and objects a tree has. */
  function Levels(tree: Tree): nat
    decreases tree, 0
  {
    match tree
    case Arr(es) => 1 + ItemsLevels(es)
    case Obj(ms) => 1 + EntriesLevels(ms)
    case _ => 0
  }

  function ItemsLevels(es: seq<Elem>): nat
    decreases es, 0
  {
    if es == [] then 0
    else
      assert es[0].value < es[0];
      Max(Levels(es[0].value), ItemsLevels(es[1..]))
  }

  function EntriesLevels(ms: seq<Entry>): nat
    decreases ms, 0
  {
    if ms == [] then 0 else Max(Levels(ms[0].value), EntriesLevels(ms[1..]))
  }

  /** What parsing gives at nesting level `depth` of a tree with so many levels: the value, or the depth error. */
  function Outcome(depth: int, levels: nat, end: nat, v: Json): Parsed<Json> {
    if depth + levels <= MAX_DEPTH then Ok(end, v) else Fail(TooDeep)
  }

  // ---- Tokens ----

  predicate IsTokenStart(c: char) {
    !IsSpace(c) && c != '/'
  }

  lemma TokenReads(t: string, p: nat, comments: bool)
    requires p < |t| && IsTokenStart(t[p])
    ensures Token(t, p, comments) == Ok(p + 1, t[p])
  {
  }

  /** The token behind a gap. */
  lemma GapToken(t: string, p: nat, g: Gap, w: string, comments: bool)
    requires Holds(t, p, GapText(g) + w) && w != "" && IsTokenStart(w[0]) && GapFits(g, comments, false)
    ensures var q := p + |GapText(g)|;
            Holds(t, q, w) && q < |t| && t[q] == w[0] && Token(t, p, comments) == Ok(q + 1, w[0])
  {
    hide GapFits;
    HoldsSplit(t, p, GapText(g), w);
    HoldsAt(t, p + |GapText(g)|, w, 0);
    GapReads(t, p, g, comments, false);
  }

  /** A gap in front of a value changes nothing. */
  lemma GapValue(t: string, p: nat, g: Gap, w: string, depth: int, comments: bool)
    requires Holds(t, p, GapText(g) + w) && w != "" && IsTokenStart(w[0]) && GapFits(g, comments, false)
    ensures Holds(t, p + |GapText(g)|, w)
    ensures ValueAt(t, p, depth, comments) == ValueAt(t, p + |GapText(g)|, depth, comments)
  {
    hide GapFits, Holds, Token;
    var q := p + |GapText(g)|;
    GapToken(t, p, g, w, comments);
    TokenReads(t, q, comments);
    if depth <= MAX_DEPTH {
      ValueStep(t, p, depth, comments, Token(t, p, comments));
      ValueStep(t, q, depth, comments, Token(t, q, comments));
    }
  }

  /** Behind a value a gap, a comma or a bracket starts, or the text ends. */
  lemma GapEnds(t: string, p: nat, g: Gap, w: string, comments: bool)
    requires Holds(t, p, GapText(g) + w) && GapFits(g, comments, false)
    requires w != "" && Ends(w[0])
    ensures Ends(At(t, p))
  {
    HoldsAt(t, p, GapText(g) + w, 0);
    GapStarts(g, comments, false);
  }

  lemma GapStarts(g: Gap, comments: bool, last: bool)
    requires GapFits(g, comments, last)
    ensures GapText(g) != "" ==> Ends(GapText(g)[0])
  {
    if g.Remarked? && g.space == "" {
      assert RemarkText(g.remark)[0] == '/';
    }
  }

  /** A value starts with a token, which is no closing bracket. */
  lemma TreeStarts(tree: Tree)
    ensures TreeText(tree) != "" && IsTokenStart(TreeText(tree)[0]) && TreeText(tree)[0] != ']'
    ensures Ends(TreeText(tree)[0]) || IsDigit(TreeText(tree)[0])
  {
    if tree.Num? {
      NumberStarts(tree.n);
    }
  }

  lemma NumberStarts(n: JsonNumber)
    ensures NumberText(n) != "" && (NumberText(n)[0] == '-' || IsDigit(NumberText(n)[0]))
  {
    assert NumberText(n)[0] == if n.negative then '-' else n.whole[0];
  }

  // ---- Leaves ----

  lemma WordReads(t: string, p: nat, word: string, v: Json)
    requires Holds(t, p, word) && word != ""
    ensures Expect(t, p + 1, word, v) == Ok(p + |word|, v)
  {
  }

  lemma KeyReads(t: string, p: nat, us: seq<StringUnit>)
    requires Holds(t, p, KeyText(us))
    ensures p < |t| && t[p] == QUOTE
    ensures StringFrom(t, p + 1, -1, "") == Ok(p + |KeyText(us)|, Decoded(us))
  {
    hide StringFrom;
    HoldsSplit(t, p, [QUOTE], UnitsText(us) + [QUOTE]);
    HoldsAt(t, p, [QUOTE], 0);
    UnitsRead(t, p + 1, us, "");
    assert "" + Decoded(us) == Decoded(us);
  }

  lemma LeafReads(t: string, p: nat, tree: Tree, depth: int, comments: bool)
    requires tree.Word? || tree.Num? || tree.Str?
    requires Holds(t, p, TreeText(tree)) && TreeText(tree) != ""
    requires tree.Num? ==> Ends(At(t, p + |TreeText(tree)|))
    ensures p < |t| && ValueFrom(t, p + 1, t[p], depth, comments) == Ok(p + |TreeText(tree)|, Meaning(tree))
  {
    hide StringFrom, NumberText, NumberAt, NumberValue, Ends;
    HoldsAt(t, p, TreeText(tree), 0);
    match tree {
      case Word(v) => WordReads(t, p, WordText(v), v);
      case Num(n) =>
        NumberStarts(n);
        EndsAny(n, At(t, p + |NumberText(n)|));
        NumberReads(t, p, n);
      case Str(us) => KeyReads(t, p, us);
    }
  }

  // ---- Arrays ----

  lemma ItemStarts(es: seq<Elem>)
    requires es != []
    ensures ElemText(es) != "" && IsTokenStart(ElemText(es)[0]) && ElemText(es)[0] != ']'
  {
    TreeStarts(es[0].value);
  }

  /** The first item, and what stands behind it. */
  lemma ItemParts(t: string, p: nat, es: seq<Elem>, comments: bool)
    requires es != [] && ItemsFit(es, comments) && Holds(t, p, ElemText(es))
    ensures var j := p + |TreeText(es[0].value)|;
            && Holds(t, p, TreeText(es[0].value)) && Ends(At(t, j)) && Holds(t, j, BehindElemText(es))
  {
    hide TreeText, GapFits;
    HoldsSplit(t, p, TreeText(es[0].value), BehindElemText(es));
    var rest := if |es| == 1 then "]" else "," + ElemsText(es[1..]);
    GapEnds(t, p + |TreeText(es[0].value)|, es[0].behind, rest, comments);
  }

  lemma LastItem(t: string, j: nat, es: seq<Elem>, depth: int, comments: bool, data: seq<Json>)
    requires |es| == 1 && ItemsFit(es, comments) && Holds(t, j, BehindElemText(es))
    ensures BehindItem(t, j, depth, comments, data) == Ok(j + |BehindElemText(es)|, Array(data))
  {
    hide GapFits, Token, TreeFits;
    GapToken(t, j, es[0].behind, "]", comments);
  }

  /** Behind an item the next item is looked for. */
  lemma NextItem(t: string, j: nat, es: seq<Elem>, depth: int, comments: bool, data: seq<Json>)
    requires |es| > 1 && ItemsFit(es, comments) && Holds(t, j, BehindElemText(es))
    ensures var k := j + |BehindElemText(es)| - |ElemText(es[1..])|;
            && j < k < |t| && Holds(t, k, ElemText(es[1..]))
            && BehindItem(t, j, depth, comments, data) == ItemsAt(t, k + 1, depth, comments, data)
  {
    hide ItemsAt, ElemText, GapFits, Token, TreeFits, Holds;
    var tail := es[1..];
    GapToken(t, j, es[0].behind, "," + ElemsText(tail), comments);
    var c := j + |GapText(es[0].behind)|;
    HoldsSplit(t, c, ",", ElemsText(tail));
    ItemStarts(tail);
    GapToken(t, c + 1, tail[0].before, ElemText(tail), comments);
  }

  /** The items are read up to the closing bracket. */
  lemma {:induction false} ItemsRead(t: string, p: nat, es: seq<Elem>, depth: int, comments: bool, data: seq<Json>)
    requires es != [] && ItemsFit(es, comments) && Holds(t, p, ElemText(es))
    ensures p < |t|
    ensures ItemsAt(t, p + 1, depth, comments, data)
         == Outcome(depth, 1 + ItemsLevels(es), p + |ElemText(es)|, Array(data + ItemsMeaning(es)))
    decreases es, 0
  {
    hide ValueAt, ItemsAt, BehindItem, TreeText, BehindElemText, Meaning, Levels, Holds, GapFits, Ends, TreeFits;
    hide ItemsMeaning;
    ItemInside(t, p, es);
    ItemParts(t, p, es, comments);
    var first := es[0].value;
    assert first < es[0];
    TreeReads(t, p, first, depth + 1, comments);
    var r := ValueAt(t, p, depth + 1, comments);
    ElementStep(t, p + 1, p, depth, depth + 1, comments, data, r);
    if r.Ok? {
      var data' := data + [Meaning(first)];
      MeaningFrom(data, es);
      if |es| > 1 {
        NextItem(t, r.pos, es, depth, comments, data');
        ItemsRead(t, r.pos + |BehindElemText(es)| - |ElemText(es[1..])|, es[1..], depth, comments, data');
      } else {
        LastItem(t, r.pos, es, depth, comments, data');
        NoItems(data', es[1..]);
      }
    }
  }

  lemma MeaningFrom(data: seq<Json>, es: seq<Elem>)
    requires es != []
    ensures data + ItemsMeaning(es) == data + [Meaning(es[0].value)] + ItemsMeaning(es[1..])
  {
  }

  lemma NoItems(data: seq<Json>, es: seq<Elem>)
    requires es == []
    ensures data + ItemsMeaning(es) == data && ItemsLevels(es) == 0
  {
  }

  lemma ItemInside(t: string, p: nat, es: seq<Elem>)
    requires es != [] && Holds(t, p, ElemText(es))
    ensures p < |t|
  {
    ItemStarts(es);
  }

  lemma {:induction false} ArrReads(t: string, p: nat, es: seq<Elem>, depth: int, comments: bool)
    requires es != [] && ItemsFit(es, comments) && Holds(t, p, "[" + ElemsText(es))
    ensures p < |t| && t[p] == '['
    ensures ArrayFrom(t, p + 1, depth, comments)
         == Outcome(depth, 1 + ItemsLevels(es), p + 1 + |ElemsText(es)|, Array(ItemsMeaning(es)))
    decreases es, 1
  {
    hide ValueAt, ItemsAt, ElemText, GapFits, Token, ItemsMeaning, ItemsLevels;
    HoldsSplit(t, p, "[", ElemsText(es));
    HoldsAt(t, p, "[", 0);
    ItemStarts(es);
    GapToken(t, p + 1, es[0].before, ElemText(es), comments);
    ItemsRead(t, p + 1 + |GapText(es[0].before)|, es, depth, comments, []);
    assert [] + ItemsMeaning(es) == ItemsMeaning(es);
  }

  // ---- Objects ----

  lemma LastEntry(t: string, l: nat, ms: seq<Entry>, depth: int, comments: bool, data: seq<Member>)
    requires |ms| == 1 && EntriesFit(ms, comments) && Holds(t, l, BehindEntryText(ms))
    ensures BehindMember(t, l, depth, comments, data) == Ok(l + |BehindEntryText(ms)|, Object(data))
  {
    hide GapFits, Token, TreeFits;
    GapToken(t, l, ms[0].behind, "}", comments);
  }

  /** Behind a member the next key is looked for. */
  lemma NextEntry(t: string, l: nat, ms: seq<Entry>, depth: int, comments: bool, data: seq<Member>)
    requires |ms| > 1 && EntriesFit(ms, comments) && Holds(t, l, BehindEntryText(ms))
    ensures var k := l + |BehindEntryText(ms)| - |EntryText(ms[1..])|;
            && l < k < |t| && Holds(t, k, EntryText(ms[1..]))
            && BehindMember(t, l, depth, comments, data) == MembersAt(t, k + 1, QUOTE, depth, comments, data)
  {
    hide MembersAt, GapFits, Token, EntryValueText, UnitsText, TreeFits, Holds;
    var tail := ms[1..];
    GapToken(t, l, ms[0].behind, "," + EntriesText(tail), comments);
    var c := l + |GapText(ms[0].behind)|;
    HoldsSplit(t, c, ",", EntriesText(tail));
    GapToken(t, c + 1, tail[0].before, EntryText(tail), comments);
  }

  /** A key and its colon. */
  lemma EntryKeyReads(t: string, p: nat, ms: seq<Entry>, depth: int, comments: bool, data: seq<Member>)
    requires ms != [] && EntriesFit(ms, comments) && Holds(t, p, EntryText(ms))
    ensures var k := p + |EntryText(ms)| - |EntryValueText(ms)|;
            && p < k <= |t| && Holds(t, k, EntryValueText(ms))
            && MembersAt(t, p + 1, QUOTE, depth, comments, data)
               == MemberValue(t, k, Decoded(ms[0].key), depth, comments, data)
  {
    hide MembersAt, MemberValue, GapFits, Token, EntryValueText, StringFrom;
    var key, colon := ms[0].key, ms[0].colon;
    HoldsSplit(t, p, KeyText(key), GapText(colon) + (":" + EntryValueText(ms)));
    KeyReads(t, p, key);
    var j := p + |KeyText(key)|;
    KeyStep(t, p + 1, QUOTE, depth, comments, data, Ok(j, Decoded(key)));
    GapToken(t, j, colon, ":" + EntryValueText(ms), comments);
    HoldsSplit(t, j + |GapText(colon)|, ":", EntryValueText(ms));
  }

  /** The value of a member with the gap in front of it, and what stands behind it. */
  lemma EntryValueParts(t: string, k: nat, ms: seq<Entry>, depth: int, comments: bool)
    requires ms != [] && EntriesFit(ms, comments) && Holds(t, k, EntryValueText(ms))
    ensures var v := k + |GapText(ms[0].front)|; var l := v + |TreeText(ms[0].value)|;
            && l <= |t| && ValueAt(t, k, depth, comments) == ValueAt(t, v, depth, comments)
            && Holds(t, v, TreeText(ms[0].value)) && Ends(At(t, l)) && Holds(t, l, BehindEntryText(ms))
            && l + |BehindEntryText(ms)| == k + |EntryValueText(ms)|
  {
    hide ValueAt, GapFits, TreeText;
    var value := TreeText(ms[0].value);
    TreeStarts(ms[0].value);
    GapValue(t, k, ms[0].front, value + BehindEntryText(ms), depth, comments);
    var v := k + |GapText(ms[0].front)|;
    HoldsSplit(t, v, value, BehindEntryText(ms));
    GapEnds(t, v + |value|, ms[0].behind, if |ms| == 1 then "}" else "," + EntriesText(ms[1..]), comments);
  }

  /** The members are read up to the closing brace. */
  lemma {:induction false} EntriesRead(t: string, p: nat, ms: seq<Entry>, depth: int, comments: bool,
                                       data: seq<Member>)
    requires ms != [] && EntriesFit(ms, comments) && Holds(t, p, EntryText(ms))
    ensures p < |t|
    ensures MembersAt(t, p + 1, QUOTE, depth, comments, data)
         == Outcome(depth, 1 + EntriesLevels(ms), p + |EntryText(ms)|, Object(EntriesMeaning(ms, data)))
    decreases ms, 0
  {
    hide ValueAt, MembersAt, MemberValue, BehindMember, TreeText, BehindEntryText, EntryValueText, EntryText;
    hide Meaning, Levels, Holds, GapFits, Ends, Decoded, Assign;
    EntryKeyReads(t, p, ms, depth, comments, data);
    var k := p + |EntryText(ms)| - |EntryValueText(ms)|;
    EntryValueParts(t, k, ms, depth + 1, comments);
    var key, value, v := Decoded(ms[0].key), ms[0].value, k + |GapText(ms[0].front)|;
    TreeReads(t, v, value, depth + 1, comments);
    var r := ValueAt(t, k, depth + 1, comments);
    JsonSyntax.MemberStep(t, k, key, depth, depth + 1, comments, data, r);
    if r.Ok? {
      var data' := Assign(data, key, Meaning(value));
      if |ms| > 1 {
        NextEntry(t, r.pos, ms, depth, comments, data');
        EntriesRead(t, r.pos + |BehindEntryText(ms)| - |EntryText(ms[1..])|, ms[1..], depth, comments, data');
      } else {
        LastEntry(t, r.pos, ms, depth, comments, data');
        assert ms[1..] == [];
      }
    }
  }

  lemma {:induction false} ObjReads(t: string, p: nat, ms: seq<Entry>, depth: int, comments: bool)
    requires ms != [] && EntriesFit(ms, comments) && Holds(t, p, "{" + EntriesText(ms))
    ensures p < |t| && t[p] == '{'
    ensures ObjectFrom(t, p + 1, depth, comments)
         == Outcome(depth, 1 + EntriesLevels(ms), p + 1 + |EntriesText(ms)|, Object(EntriesMeaning(ms, [])))
    decreases ms, 1
  {
    hide ValueAt, MembersAt, GapFits, Token, EntriesMeaning, EntriesLevels, EntryValueText, UnitsText;
    HoldsSplit(t, p, "{", EntriesText(ms));
    HoldsAt(t, p, "{", 0);
    GapToken(t, p + 1, ms[0].before, EntryText(ms), comments);
    EntriesRead(t, p + 1 + |GapText(ms[0].before)|, ms, depth, comments, []);
  }

  // ---- Values ----

  lemma EmptyReads(t: string, p: nat, tree: Tree, depth: int, comments: bool)
    requires (tree.EmptyArr? || tree.EmptyObj?) && TreeFits(tree, comments) && Holds(t, p, TreeText(tree))
    ensures p < |t| && ValueFrom(t, p + 1, t[p], depth, comments) == Ok(p + |TreeText(tree)|, Meaning(tree))
  {
    hide GapFits, Token;
    HoldsAt(t, p, TreeText(tree), 0);
    if tree.EmptyArr? {
      HoldsSplit(t, p, "[", GapText(tree.gap) + "]");
      GapToken(t, p + 1, tree.gap, "]", comments);
    } else {
      HoldsSplit(t, p, "{", GapText(tree.gap) + "}");
      GapToken(t, p + 1, tree.gap, "}", comments);
    }
  }

  lemma TooDeepFails(t: string, p: nat, depth: int, comments: bool)
    requires p <= |t| && depth > MAX_DEPTH
    ensures ValueAt(t, p, depth, comments) == Fail(TooDeep)
  {
  }

  /** The text of a tree is read as what the tree means, exactly when it is not nested too deeply. */
  lemma {:induction false} TreeReads(t: string, p: nat, tree: Tree, depth: int, comments: bool)
    requires TreeFits(tree, comments) && Holds(t, p, TreeText(tree))
    requires tree.Num? ==> Ends(At(t, p + |TreeText(tree)|))
    ensures ValueAt(t, p, depth, comments)
         == Outcome(depth, Levels(tree), p + |TreeText(tree)|, Meaning(tree))
    decreases tree, 2
  {
    hide ValueAt, Token, NumberAt, StringFrom, ArrayFrom, ObjectFrom, Ends, IsSpace, GapFits, NumberText, NumberValue;
    hide ElemsText, EntriesText, ItemsMeaning, EntriesMeaning, ItemsLevels, EntriesLevels, UnitsText, Decoded;
    if depth <= MAX_DEPTH {
      TreeStarts(tree);
      HoldsAt(t, p, TreeText(tree), 0);
      TokenReads(t, p, comments);
      ValueStep(t, p, depth, comments, Ok(p + 1, t[p]));
      match tree {
        case Arr(es) => ArrReads(t, p, es, depth, comments);
        case Obj(ms) => ObjReads(t, p, ms, depth, comments);
        case EmptyArr(_) => EmptyReads(t, p, tree, depth, comments);
        case EmptyObj(_) => EmptyReads(t, p, tree, depth, comments);
        case _ => LeafReads(t, p, tree, depth, comments);
      }
    } else {
      TooDeepFails(t, p, depth, comments);
    }
  }

  // ---- What an object means ----

  /** An entry has this key and this value, and no entry behind it has the key. */
  ghost predicate Latest(ms: seq<Entry>, m: Member) {
    exists i ::
      && 0 <= i < |ms| && Decoded(ms[i].key) == m.key && Meaning(ms[i].value) == m.value
      && forall j :: i < j < |ms| ==> Decoded(ms[j].key) != m.key
  }

  ghost predicate HasKey(ms: seq<Entry>, key: string) {
    exists i :: 0 <= i < |ms| && Decoded(ms[i].key) == key
  }

  lemma {:induction false} EntriesHold(ms: seq<Entry>, data: seq<Member>, m: Member)
    requires KeysAscend(data)
    ensures KeysAscend(EntriesMeaning(ms, data))
    ensures m in EntriesMeaning(ms, data) <==> Latest(ms, m) || (m in data && !HasKey(ms, m.key))
    decreases |ms|
  {
    hide Decoded, Meaning, Assign, KeysAscend;
    if ms != [] {
      var key, value := Decoded(ms[0].key), Meaning(ms[0].value);
      AssignKeepsOrder(data, key, value);
      AssignHolds(data, key, value, m);
      EntriesHold(ms[1..], Assign(data, key, value), m);
      LatestStep(ms, m);
    }
  }

  lemma LatestStep(ms: seq<Entry>, m: Member)
    requires ms != []
    ensures var tail := ms[1..];
            && (HasKey(ms, m.key) <==> Decoded(ms[0].key) == m.key || HasKey(tail, m.key))
            && (Latest(ms, m) <==>
                  || Latest(tail, m)
                  || (Decoded(ms[0].key) == m.key && Meaning(ms[0].value) == m.value && !HasKey(tail, m.key)))
  {
    hide Decoded, Meaning;
    var tail := ms[1..];
    assert forall i :: 0 <= i < |tail| ==> tail[i] == ms[i + 1];
    if HasKey(tail, m.key) {
      var i :| 0 <= i < |tail| && Decoded(tail[i].key) == m.key;
      assert Decoded(ms[i + 1].key) == m.key;
    }
    if Latest(tail, m) {
      var i :| && 0 <= i < |tail| && Decoded(tail[i].key) == m.key && Meaning(tail[i].value) == m.value
               && forall j :: i < j < |tail| ==> Decoded(tail[j].key) != m.key;
      assert Decoded(ms[i + 1].key) == m.key && Meaning(ms[i + 1].value) == m.value;
      assert forall j :: i + 1 < j < |ms| ==> ms[j] == tail[j - 1];
    }
    if Latest(ms, m) {
      var i :| && 0 <= i < |ms| && Decoded(ms[i].key) == m.key && Meaning(ms[i].value) == m.value
               && forall j :: i < j < |ms| ==> Decoded(ms[j].key) != m.key;
      if i > 0 {
        assert tail[i - 1] == ms[i];
      }
    }
  }

  /** An object means a map that holds, under each key, what the last entry with this key means; and nothing else. */
  lemma ObjectMeans(ms: seq<Entry>, members: seq<Member>)
    ensures Meaning(Obj(ms)) == Object(members)
       <==> KeysAscend(members) && forall m :: m in members <==> Latest(ms, m)
  {
    hide Decoded, KeysAscend;
    var all := EntriesMeaning(ms, []);
    NothingAscends();
    forall m
      ensures KeysAscend(all) && (m in all <==> Latest(ms, m))
    {
      EntriesHold(ms, [], m);
    }
    EntriesHold(ms, [], Member("", Null));
    if KeysAscend(members) && forall m :: m in members <==> Latest(ms, m) {
      MapDetermined(members, all);
    }
  }

  lemma NothingAscends()
    ensures KeysAscend([])
  {
  }
}
