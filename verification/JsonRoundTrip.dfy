/** `parse(dump(v))`: the text that was dumped is one of the grammar, so it is read as what it means. */
module JsonRoundTrip {
  import opened JsonAccepts
  import opened JsonErrors
  import opened JsonGaps
  import opened JsonGrammar
  import opened JsonNumbers
  import opened JsonStrings
  import opened JsonSyntax
  import opened JsonText
  import opened JsonValue
  import opened Occurrence

  // ---- Doubles ----

  /** The value of a number, an integer converted to a double. */
  function Num(v: Json): real
    requires v.Int? || v.Double?
  {
    match v
    case Int(n) => nearest(n as real)
    case Double(r) => r
  }

  /** The text of a double is a number, and is read back as the double. */
  ghost predicate Prints(fmt: real -> string, r: real, n: JsonNumber) {
    NumberText(n) == fmt(r) && Num(NumberValue(n)) == r
  }

  /** The doubles inside are printed like that, as `%.17g` does with finite ones. */
  ghost predicate Printable(v: Json, fmt: real -> string)
    decreases v
  {
    match v
    case Double(r) => exists n: JsonNumber :: Prints(fmt, r, n)
    case Array(items) => forall i :: 0 <= i < |items| ==> Printable(items[i], fmt)
    case Object(ms) => forall i :: 0 <= i < |ms| ==> Printable(ms[i].value, fmt)
    case _ => true
  }

  // ---- Nesting ----

  /** How many levels of non-empty arrays and objects a value has. */
  function Depth(v: Json): nat
    decreases v, 0
  {
    match v
    case Array(items) => if items == [] then 0 else 1 + ItemsDepth(items, 0)
    case Object(ms) => if ms == [] then 0 else 1 + MembersDepth(ms, 0)
    case _ => 0
  }

  /** The deepest of the values from position `i` on. */
  function ItemsDepth(items: seq<Json>, i: nat): nat
    requires i <= |items|
    decreases items, |items| - i
  {
    if i == |items| then 0 else Max(Depth(items[i]), ItemsDepth(items, i + 1))
  }

  function MembersDepth(ms: seq<Member>, i: nat): nat
    requires i <= |ms|
    decreases ms, |ms| - i
  {
    if i == |ms| then 0 else Max(Depth(ms[i].value), MembersDepth(ms, i + 1))
  }

  // ---- The value read back ----

  ghost function PrintedNumber(fmt: real -> string, r: real): (n: JsonNumber)
    requires exists n: JsonNumber :: Prints(fmt, r, n)
    ensures Prints(fmt, r, n)
  {
    var n: JsonNumber :| Prints(fmt, r, n);
    n
  }

  /** The same value, with every number as `parse_number` reads its text. */
  ghost function Norm(v: Json, fmt: real -> string): Json
    decreases v, 0
  {
    match v
    case Int(n) => NormInt(n)
    case Double(r) => if exists n: JsonNumber :: Prints(fmt, r, n) then NumberValue(PrintedNumber(fmt, r)) else v
    case Array(items) => Array(NormItems(items, fmt))
    case Object(ms) => Object(NormMembers(ms, fmt))
    case _ => v
  }

  ghost function NormItems(items: seq<Json>, fmt: real -> string): (r: seq<Json>)
    ensures |r| == |items|
    decreases items, 0
  {
    seq(|items|, i requires 0 <= i < |items| => Norm(items[i], fmt))
  }

  ghost function NormMembers(ms: seq<Member>, fmt: real -> string): (r: seq<Member>)
    ensures |r| == |ms|
    decreases ms, 0
  {
    seq(|ms|, i requires 0 <= i < |ms| => Member(ms[i].key, Norm(ms[i].value, fmt)))
  }

  // ---- The tree of a dumped value ----

  /** A dumped string is made of units. */
  lemma QuotedUnits(s: string) returns (us: seq<StringUnit>)
    ensures KeyText(us) == Quoted(s) && Decoded(us) == s
  {
    hide StringFrom, Quoted, KeyText;
    var t := Quoted(s);
    HoldsAll(t);
    StringReads(t, 0, s);
    us := FindKey(t, 1);
    HoldsWhole(t, KeyText(us));
  }

  lemma SpaceFits(w: string, comments: bool)
    requires w == "" || w == " "
    ensures GapFits(Space(w), comments, false) && GapText(Space(w)) == w
  {
  }

  lemma LeafTree(v: Json, fmt: real -> string, comments: bool) returns (tree: Tree)
    requires Printable(v, fmt) && !v.Array? && !v.Object?
    ensures IsTreeOf(tree, v, fmt, comments)
  {
    hide NumberText, NumberValue, KeyText, Quoted, IntText, NormInt;
    match v {
      case Null => tree := Word(Null);
      case Bool(_) => tree := Word(v);
      case Int(n) =>
        IntTextNumber(n);
        tree := JsonGrammar.Num(NumberOf(n));
      case Double(r) =>
        var n := PrintedNumber(fmt, r);
        tree := JsonGrammar.Num(n);
      case String(s) =>
        var us := QuotedUnits(s);
        tree := Str(us);
    }
  }

  /** Blank in front of every item but the first. */
  function Lead(i: nat): Gap {
    Space(if i == 0 then "" else " ")
  }

  function Separator(i: nat): string {
    if i == 0 then "" else ","
  }

  /** A value as an item. */
  lemma ElemStep(items: seq<Json>, i: nat, fmt: real -> string, tree: Tree, rest: seq<Elem>, comments: bool)
    returns (es: seq<Elem>)
    requires i < |items| && TreeFits(tree, comments) && TreeText(tree) == Text(items[i], fmt)
    requires ItemsFit(rest, comments)
    requires if i + 1 == |items| then rest == []
             else rest != [] && Separator(i + 1) + ElemsText(rest) == ItemsText(items, i + 1, fmt) + "]"
    ensures es == [Elem(Lead(i), tree, NO_GAP)] + rest && ItemsFit(es, comments)
    ensures Separator(i) + ElemsText(es) == ItemsText(items, i, fmt) + "]"
  {
    hide Text, TreeText, GapFits, TreeFits;
    var e := Elem(Lead(i), tree, NO_GAP);
    es := [e] + rest;
    SpaceFits("", comments);
    SpaceFits(" ", comments);
    assert es[1..] == rest;
    var w, tail := Text(items[i], fmt), ItemsText(items, i + 1, fmt) + "]";
    if rest == [] {
      assert ItemsText(items, i + 1, fmt) == "";
    }
    assert BehindElemText(es) == tail;
    assert Separator(i) + GapText(Lead(i)) == Comma(i);
    Assoc(Separator(i), GapText(Lead(i)), w + tail);
    Assoc(Comma(i), w, tail);
    Assoc(Comma(i) + w, ItemsText(items, i + 1, fmt), "]");
  }

  lemma NormsFrom(items: seq<Json>, i: nat, fmt: real -> string)
    requires i <= |items|
    ensures i < |items| ==> NormItems(items, fmt)[i..] == [Norm(items[i], fmt)] + NormItems(items, fmt)[i + 1..]
    ensures i == |items| ==> NormItems(items, fmt)[i..] == []
  {
    hide Norm;
  }

  lemma NoElems(comments: bool)
    ensures ItemsFit([], comments)
  {
  }

  lemma {:induction false} ItemsTree(items: seq<Json>, i: nat, fmt: real -> string, comments: bool)
    returns (es: seq<Elem>)
    requires i <= |items|
    requires forall k :: 0 <= k < |items| ==> Printable(items[k], fmt) && Proper(items[k])
    ensures ItemsFit(es, comments) && |es| == |items| - i
    ensures i < |items| ==> Separator(i) + ElemsText(es) == ItemsText(items, i, fmt) + "]"
    ensures ItemsMeaning(es) == NormItems(items, fmt)[i..] && ItemsLevels(es) == ItemsDepth(items, i)
    decreases items, |items| - i
  {
    hide Text, TreeText, TreeFits, GapFits, Meaning, Norm, Levels, Depth, NormItems, ElemsText, ItemsText, ItemsFit;
    NormsFrom(items, i, fmt);
    if i == |items| {
      es := [];
      NoElems(comments);
    } else {
      var tree := TreeOf(items[i], fmt, comments);
      var rest := ItemsTree(items, i + 1, fmt, comments);
      es := ElemStep(items, i, fmt, tree, rest, comments);
      assert es[1..] == rest;
    }
  }

  lemma EntryStep(ms: seq<Member>, i: nat, fmt: real -> string, us: seq<StringUnit>, tree: Tree, rest: seq<Entry>,
                  comments: bool) returns (es: seq<Entry>)
    requires i < |ms| && KeyText(us) == Quoted(ms[i].key)
    requires TreeFits(tree, comments) && TreeText(tree) == Text(ms[i].value, fmt) && EntriesFit(rest, comments)
    requires if i + 1 == |ms| then rest == []
             else rest != [] && Separator(i + 1) + EntriesText(rest) == MembersText(ms, i + 1, fmt) + "}"
    ensures es == [Entry(Lead(i), us, NO_GAP, Space(" "), tree, NO_GAP)] + rest && EntriesFit(es, comments)
    ensures Separator(i) + EntriesText(es) == MembersText(ms, i, fmt) + "}"
  {
    hide Text, TreeText, GapFits, TreeFits, KeyText, Quoted;
    var e := Entry(Lead(i), us, NO_GAP, Space(" "), tree, NO_GAP);
    es := [e] + rest;
    SpaceFits("", comments);
    SpaceFits(" ", comments);
    assert es[1..] == rest;
    var key, w, tail := Quoted(ms[i].key), Text(ms[i].value, fmt), MembersText(ms, i + 1, fmt) + "}";
    if rest == [] {
      assert MembersText(ms, i + 1, fmt) == "";
    }
    assert BehindEntryText(es) == tail;
    assert EntryText(es) == key + (":" + (" " + (w + tail)));
    MemberAssoc(key, w, tail);
    assert Separator(i) + GapText(Lead(i)) == Comma(i);
    Assoc(Separator(i), GapText(Lead(i)), EntryText(es));
    Assoc(Comma(i), key + ": " + w, tail);
    Assoc(Comma(i) + (key + ": " + w), MembersText(ms, i + 1, fmt), "}");
  }

  lemma MemberAssoc(key: string, w: string, tail: string)
    ensures key + (":" + (" " + (w + tail))) == key + ": " + w + tail
  {
    assert ":" + (" " + (w + tail)) == ": " + w + tail;
  }

  lemma {:induction false} MembersTree(ms: seq<Member>, i: nat, fmt: real -> string, comments: bool)
    returns (es: seq<Entry>)
    requires i <= |ms| && KeysAscend(ms)
    requires forall k :: 0 <= k < |ms| ==> Printable(ms[k].value, fmt) && Proper(ms[k].value)
    ensures EntriesFit(es, comments) && |es| == |ms| - i
    ensures i < |ms| ==> Separator(i) + EntriesText(es) == MembersText(ms, i, fmt) + "}"
    ensures EntriesMeaning(es, NormMembers(ms, fmt)[..i]) == NormMembers(ms, fmt)
    ensures EntriesLevels(es) == MembersDepth(ms, i)
    decreases ms, |ms| - i
  {
    hide Text, TreeText, TreeFits, GapFits, Meaning, Norm, Levels, Depth, KeyText, Quoted, Decoded, Assign;
    if i == |ms| {
      es := [];
      assert NormMembers(ms, fmt)[..i] == NormMembers(ms, fmt);
    } else {
      var us := QuotedUnits(ms[i].key);
      var tree := TreeOf(ms[i].value, fmt, comments);
      var rest := MembersTree(ms, i + 1, fmt, comments);
      es := EntryStep(ms, i, fmt, us, tree, rest, comments);
      assert es[1..] == rest;
      NextAssigned(ms, i, fmt);
    }
  }

  lemma NextAssigned(ms: seq<Member>, i: nat, fmt: real -> string)
    requires i < |ms| && KeysAscend(ms)
    ensures var done := NormMembers(ms, fmt);
            Assign(done[..i], ms[i].key, Norm(ms[i].value, fmt)) == done[..i + 1]
  {
    hide Norm, StringLess, Assign, LowerBound;
    var done := NormMembers(ms, fmt);
    forall j | 0 <= j < i
      ensures StringLess(done[..i][j].key, ms[i].key)
    {
      assert done[j] == Member(ms[j].key, Norm(ms[j].value, fmt));
    }
    assert done[..i + 1] == done[..i] + [done[i]];
    AssignLast(done[..i], ms[i].key, Norm(ms[i].value, fmt));
  }

  /** A tree for a value. */
  ghost predicate IsTreeOf(tree: Tree, v: Json, fmt: real -> string, comments: bool) {
    && TreeFits(tree, comments) && TreeText(tree) == Text(v, fmt)
    && Meaning(tree) == Norm(v, fmt) && Levels(tree) == Depth(v)
  }

  lemma NothingDumped(fmt: real -> string)
    ensures Text(Array([]), fmt) == "[" + ("" + "]") && Text(Object([]), fmt) == "{" + ("" + "}")
  {
  }

  lemma ArrayTree(items: seq<Json>, es: seq<Elem>, fmt: real -> string, comments: bool) returns (tree: Tree)
    requires ItemsFit(es, comments) && |es| == |items|
    requires items != [] ==> Separator(0) + ElemsText(es) == ItemsText(items, 0, fmt) + "]"
    requires ItemsMeaning(es) == NormItems(items, fmt)[0..] && ItemsLevels(es) == ItemsDepth(items, 0)
    ensures IsTreeOf(tree, Array(items), fmt, comments)
  {
    hide GapFits, ItemsFit, ElemsText, NormItems, ItemsMeaning, ItemsLevels, ItemsDepth, ItemsText;
    NoGapFits(comments);
    NothingDumped(fmt);
    var all := NormItems(items, fmt);
    assert all[0..] == all;
    if items == [] {
      tree := EmptyArr(NO_GAP);
      assert all == [];
    } else {
      tree := Arr(es);
      assert Separator(0) + ElemsText(es) == ElemsText(es);
      Assoc("[", ItemsText(items, 0, fmt), "]");
    }
  }

  lemma ObjectTree(ms: seq<Member>, es: seq<Entry>, fmt: real -> string, comments: bool) returns (tree: Tree)
    requires EntriesFit(es, comments) && |es| == |ms|
    requires ms != [] ==> Separator(0) + EntriesText(es) == MembersText(ms, 0, fmt) + "}"
    requires EntriesMeaning(es, NormMembers(ms, fmt)[..0]) == NormMembers(ms, fmt)
    requires EntriesLevels(es) == MembersDepth(ms, 0)
    ensures IsTreeOf(tree, Object(ms), fmt, comments)
  {
    hide GapFits, EntriesFit, EntriesText, NormMembers, EntriesMeaning, EntriesLevels, MembersDepth, MembersText;
    NoGapFits(comments);
    NothingDumped(fmt);
    var all := NormMembers(ms, fmt);
    assert all[..0] == [];
    if ms == [] {
      tree := EmptyObj(NO_GAP);
      assert all == [];
    } else {
      tree := Obj(es);
      assert Separator(0) + EntriesText(es) == EntriesText(es);
      Assoc("{", MembersText(ms, 0, fmt), "}");
    }
  }

  /** A dumped value is the text of a tree that means it. */
  lemma {:induction false} TreeOf(v: Json, fmt: real -> string, comments: bool) returns (tree: Tree)
    requires Printable(v, fmt) && Proper(v)
    ensures IsTreeOf(tree, v, fmt, comments)
    decreases v
  {
    hide IsTreeOf, ItemsFit, EntriesFit, ElemsText, EntriesText, ItemsMeaning, EntriesMeaning, NormItems, NormMembers;
    match v {
      case Array(items) =>
        var es := ItemsTree(items, 0, fmt, comments);
        tree := ArrayTree(items, es, fmt, comments);
      case Object(ms) =>
        var es := MembersTree(ms, 0, fmt, comments);
        tree := ObjectTree(ms, es, fmt, comments);
      case _ =>
        tree := LeafTree(v, fmt, comments);
    }
  }

  // ---- What is read ----

  /** A serialized value is read back wherever it stands, exactly when it is not nested too deeply. */
  lemma ValueReads(t: string, p: nat, v: Json, depth: int, comments: bool, fmt: real -> string)
    requires Printable(v, fmt) && Proper(v)
    requires Holds(t, p, Text(v, fmt)) && Ends(At(t, p + |Text(v, fmt)|))
    ensures ValueAt(t, p, depth, comments) == Outcome(depth, Depth(v), p + |Text(v, fmt)|, Norm(v, fmt))
  {
    hide ValueAt, Text, TreeText, TreeFits, Holds, Printable, Proper;
    var tree := TreeOf(v, fmt, comments);
    TreeReads(t, p, tree, depth, comments);
  }

  /**
   `parse(dump(v))` with either strategy: it succeeds, with all of the text consumed, exactly
   when `v` is nested at most 200 levels deep, and then gives the same value back.
   */
  lemma RoundTrip(v: Json, comments: bool, fmt: real -> string)
    requires Printable(v, fmt) && Proper(v)
    ensures Document(Text(v, fmt), comments)
         == if Depth(v) <= MAX_DEPTH then Ok(|Text(v, fmt)|, Norm(v, fmt)) else Fail(TooDeep)
  {
    hide Document, Text, TreeText, TreeFits, Printable, Proper, Norm, Meaning, Depth, Levels;
    var tree := TreeOf(v, fmt, comments);
    var d := Doc(NO_GAP, tree, NO_GAP);
    SpaceFits("", comments);
    assert DocText(d) == TreeText(tree);
    NothingBehind(comments);
    DocReads(d, comments);
  }

  lemma NothingBehind(comments: bool)
    ensures GapFits(NO_GAP, comments, true)
  {
  }
}
