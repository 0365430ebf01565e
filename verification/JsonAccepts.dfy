/** The parser accepts exactly the texts of the grammar, and reads them as what they mean. */
module JsonAccepts {
  import opened JsonGaps
  import opened JsonGrammar
  import opened JsonNumbers
  import opened JsonStrings
  import opened JsonSyntax
  import opened JsonText
  import opened JsonValue
  import opened Occurrence

  // ---- What is read is a tree ----

  /** In front of a token stands a gap; behind the gap the same token is found. */
  lemma FindToken(t: string, p: nat, comments: bool) returns (g: Gap)
    requires p <= |t| && Token(t, p, comments).Ok?
    ensures var q := Token(t, p, comments).pos - 1;
            && p <= q < |t| && Holds(t, p, GapText(g)) && p + |GapText(g)| == q && GapFits(g, comments, false)
            && Token(t, q, comments) == Ok(q + 1, t[q])
  {
    hide GapFits, Holds, GapText;
    g := FindGap(t, p, comments);
    var q := Garbage(t, p, comments).pos;
    StopAgain(t, q, comments);
  }

  lemma StopAgain(t: string, q: nat, comments: bool)
    requires q < |t| && StopsAt(t, q, comments)
    ensures Token(t, q, comments) == Ok(q + 1, t[q])
  {
  }

  /** A value behind its gap. */
  lemma ValueBehindGap(t: string, p: nat, depth: int, comments: bool)
    requires p <= |t| && ValueAt(t, p, depth, comments).Ok?
    ensures depth <= MAX_DEPTH && Token(t, p, comments).Ok?
    ensures var q := Token(t, p, comments).pos;
            0 < q <= |t| && ValueAt(t, p, depth, comments) == ValueFrom(t, q, t[q - 1], depth, comments)
  {
    hide Token, ValueFrom;
    if depth <= MAX_DEPTH {
      ValueStep(t, p, depth, comments, Token(t, p, comments));
    } else {
      TooDeepFails(t, p, depth, comments);
    }
  }

  lemma WordHolds(t: string, p: nat, word: string, v: Json)
    requires 0 < p <= |t| && word != "" && Expect(t, p, word, v).Ok?
    ensures Holds(t, p - 1, word) && p - 1 + |word| == Expect(t, p, word, v).pos
  {
  }

  lemma {:induction false} FindTree(t: string, j: nat, depth: int, comments: bool) returns (tree: Tree)
    requires 0 < j <= |t| && ValueFrom(t, j, t[j - 1], depth, comments).Ok?
    ensures TreeFits(tree, comments) && Holds(t, j - 1, TreeText(tree))
    ensures j - 1 + |TreeText(tree)| == ValueFrom(t, j, t[j - 1], depth, comments).pos
    ensures tree.Num? ==> ValueFrom(t, j, t[j - 1], depth, comments).value == Meaning(tree)
    decreases |t| - j, 4
  {
    hide NumberAt, NumberText, StringFrom, ArrayFrom, ObjectFrom, Expect, Holds, GapFits;
    var ch := t[j - 1];
    if ch == '-' || IsDigit(ch) {
      var n := FindNumber(t, j - 1);
      tree := Num(n);
    } else if ch == 't' {
      WordHolds(t, j, "true", Bool(true));
      tree := Word(Bool(true));
    } else if ch == 'f' {
      WordHolds(t, j, "false", Bool(false));
      tree := Word(Bool(false));
    } else if ch == 'n' {
      WordHolds(t, j, "null", Null);
      tree := Word(Null);
    } else if ch == QUOTE {
      var us := FindKey(t, j);
      tree := Str(us);
    } else if ch == '[' {
      tree := FindArr(t, j, depth, comments);
    } else {
      tree := FindObj(t, j, depth, comments);
    }
  }

  lemma FindKey(t: string, i: nat) returns (us: seq<StringUnit>)
    requires 0 < i <= |t| && t[i - 1] == QUOTE && StringFrom(t, i, -1, "").Ok?
    ensures Holds(t, i - 1, KeyText(us))
    ensures StringFrom(t, i, -1, "") == Ok(i - 1 + |KeyText(us)|, Decoded(us))
  {
    hide StringFrom, Decoded;
    us := FindUnits(t, i, -1, "");
    UnitsRead(t, i, us, "");
    assert "" + Decoded(us) == Decoded(us);
    HoldsOwn(t, i - 1, i);
    assert t[i - 1..i] == [QUOTE];
    HoldsJoin(t, i - 1, [QUOTE], UnitsText(us) + [QUOTE]);
  }

  /** The character of a token behind a gap. */
  lemma CharHolds(t: string, p: nat, g: Gap, c: char)
    requires Holds(t, p, GapText(g)) && p + |GapText(g)| < |t| && t[p + |GapText(g)|] == c
    ensures Holds(t, p, GapText(g) + [c])
  {
    HoldsOwn(t, p + |GapText(g)|, p + |GapText(g)| + 1);
    HoldsJoin(t, p, GapText(g), [c]);
  }

  lemma OneHolds(t: string, p: nat, c: char, w: string)
    requires 0 < p <= |t| && t[p - 1] == c && Holds(t, p, w)
    ensures Holds(t, p - 1, [c] + w)
  {
    HoldsOwn(t, p - 1, p);
    HoldsJoin(t, p - 1, [c], w);
  }

  // ---- Arrays ----

  lemma {:induction false} FindArr(t: string, j: nat, depth: int, comments: bool) returns (tree: Tree)
    requires 0 < j <= |t| && t[j - 1] == '[' && ArrayFrom(t, j, depth, comments).Ok?
    ensures TreeFits(tree, comments) && Holds(t, j - 1, TreeText(tree))
    ensures j - 1 + |TreeText(tree)| == ArrayFrom(t, j, depth, comments).pos
    ensures !tree.Num?
    decreases |t| - j, 3
  {
    hide Token, ItemsAt, Holds, GapFits, GapText, ElemText;
    var g := FindToken(t, j, comments);
    var k := Token(t, j, comments).pos;
    if t[k - 1] == ']' {
      tree := EmptyArr(g);
      CharHolds(t, j, g, ']');
      OneHolds(t, j, '[', GapText(g) + "]");
    } else {
      var es := FindItems(t, k, depth, comments, []);
      Reopened(es, g, comments);
      es := es[0 := es[0].(before := g)];
      tree := Arr(es);
      HoldsJoin(t, j, GapText(g), ElemText(es));
      OneHolds(t, j, '[', ElemsText(es));
    }
  }

  /** Another gap in front of the first item changes nothing else. */
  lemma Reopened(es: seq<Elem>, g: Gap, comments: bool)
    requires es != [] && ItemsFit(es, comments) && GapFits(g, comments, false)
    ensures var es' := es[0 := es[0].(before := g)];
            && ElemText(es') == ElemText(es) && ElemsText(es') == GapText(g) + ElemText(es) && ItemsFit(es', comments)
  {
    hide GapFits, GapText, TreeFits, TreeText;
    var es' := es[0 := es[0].(before := g)];
    assert es'[1..] == es[1..];
  }

  lemma {:induction false} FindItems(t: string, i: nat, depth: int, comments: bool, data: seq<Json>)
    returns (es: seq<Elem>)
    requires 0 < i <= |t| && ItemsAt(t, i, depth, comments, data).Ok? && Token(t, i - 1, comments) == Ok(i, t[i - 1])
    ensures es != [] && ItemsFit(es, comments) && Holds(t, i - 1, ElemText(es))
    ensures i - 1 + |ElemText(es)| == ItemsAt(t, i, depth, comments, data).pos
    decreases |t| - (i - 1), 1
  {
    hide Token, ItemsAt, ValueAt, ValueFrom, Holds, GapFits, GapText, TreeText, TreeFits, ElemText;
    var r := ValueAt(t, i - 1, depth + 1, comments);
    ElementStep(t, i, i - 1, depth, depth + 1, comments, data, r);
    ValueBehindGap(t, i - 1, depth + 1, comments);
    var tree := FindTree(t, i, depth + 1, comments);
    var j, data' := r.pos, data + [r.value];
    var behind := FindToken(t, j, comments);
    var k := Token(t, j, comments).pos;
    var first := Elem(NO_GAP, tree, behind);
    NoGapFits(comments);
    if t[k - 1] == ']' {
      CharHolds(t, j, behind, ']');
      HoldsJoin(t, i - 1, TreeText(tree), GapText(behind) + "]");
      es := [first];
      OneItem(first, comments);
    } else {
      var before := FindToken(t, k, comments);
      var l := Token(t, k, comments).pos;
      var rest := FindItems(t, l, depth, comments, data');
      Reopened(rest, before, comments);
      rest := rest[0 := rest[0].(before := before)];
      HoldsJoin(t, k, GapText(before), ElemText(rest));
      OneHolds(t, k, ',', ElemsText(rest));
      HoldsJoin(t, j, GapText(behind), "," + ElemsText(rest));
      HoldsJoin(t, i - 1, TreeText(tree), GapText(behind) + ("," + ElemsText(rest)));
      es := [first] + rest;
      MoreItems(first, rest, comments);
    }
  }

  lemma NoGapFits(comments: bool)
    ensures GapFits(NO_GAP, comments, false) && GapText(NO_GAP) == ""
  {
  }

  lemma OneItem(e: Elem, comments: bool)
    requires GapFits(e.before, comments, false) && TreeFits(e.value, comments) && GapFits(e.behind, comments, false)
    ensures ElemText([e]) == TreeText(e.value) + (GapText(e.behind) + "]") && ItemsFit([e], comments)
  {
    hide GapFits, GapText, TreeFits, TreeText;
    assert [e][1..] == [];
  }

  lemma MoreItems(e: Elem, rest: seq<Elem>, comments: bool)
    requires GapFits(e.before, comments, false) && TreeFits(e.value, comments) && GapFits(e.behind, comments, false)
    requires rest != [] && ItemsFit(rest, comments)
    ensures ElemText([e] + rest) == TreeText(e.value) + (GapText(e.behind) + ("," + ElemsText(rest)))
    ensures ItemsFit([e] + rest, comments)
  {
    hide GapFits, GapText, TreeFits, TreeText;
    assert ([e] + rest)[1..] == rest;
  }

  // ---- Objects ----

  lemma {:induction false} FindObj(t: string, j: nat, depth: int, comments: bool) returns (tree: Tree)
    requires 0 < j <= |t| && t[j - 1] == '{' && ObjectFrom(t, j, depth, comments).Ok?
    ensures TreeFits(tree, comments) && Holds(t, j - 1, TreeText(tree))
    ensures j - 1 + |TreeText(tree)| == ObjectFrom(t, j, depth, comments).pos
    ensures !tree.Num?
    decreases |t| - j, 3
  {
    hide Token, StringFrom, Holds, GapFits, GapText, EntryText;
    var g := FindToken(t, j, comments);
    var k := Token(t, j, comments).pos;
    if t[k - 1] == '}' {
      tree := EmptyObj(g);
      CharHolds(t, j, g, '}');
      OneHolds(t, j, '{', GapText(g) + "}");
    } else {
      var ms := FindEntries(t, k, depth, comments, []);
      ReopenedEntry(ms, g, comments);
      ms := ms[0 := ms[0].(before := g)];
      tree := Obj(ms);
      HoldsJoin(t, j, GapText(g), EntryText(ms));
      OneHolds(t, j, '{', EntriesText(ms));
    }
  }

  lemma ReopenedEntry(ms: seq<Entry>, g: Gap, comments: bool)
    requires ms != [] && EntriesFit(ms, comments) && GapFits(g, comments, false)
    ensures var ms' := ms[0 := ms[0].(before := g)];
            && EntryText(ms') == EntryText(ms) && EntriesText(ms') == GapText(g) + EntryText(ms)
            && EntriesFit(ms', comments)
  {
    hide GapFits, GapText, TreeFits, TreeText, KeyText;
    var ms' := ms[0 := ms[0].(before := g)];
    assert ms'[1..] == ms[1..];
    assert BehindEntryText(ms') == BehindEntryText(ms);
    assert EntryValueText(ms') == EntryValueText(ms);
  }

  /** A gap and a value. */
  lemma {:induction false} FindGapped(t: string, k: nat, depth: int, comments: bool) returns (g: Gap, tree: Tree)
    requires k <= |t| && ValueAt(t, k, depth, comments).Ok?
    ensures GapFits(g, comments, false) && TreeFits(tree, comments)
    ensures Holds(t, k, GapText(g) + TreeText(tree))
    ensures k + |GapText(g) + TreeText(tree)| == ValueAt(t, k, depth, comments).pos
    decreases |t| - k, 0
  {
    hide Token, ValueAt, ValueFrom, Holds, GapFits, GapText, TreeText, TreeFits;
    ValueBehindGap(t, k, depth, comments);
    g := FindToken(t, k, comments);
    tree := FindTree(t, Token(t, k, comments).pos, depth, comments);
    HoldsJoin(t, k, GapText(g), TreeText(tree));
  }

  /** A key with the gap and the colon behind it. */
  lemma FindColon(t: string, i: nat, depth: int, comments: bool, data: seq<Member>)
    returns (us: seq<StringUnit>, colon: Gap, k: nat)
    requires 0 < i <= |t| && t[i - 1] == QUOTE && MembersAt(t, i, QUOTE, depth, comments, data).Ok?
    ensures GapFits(colon, comments, false) && Holds(t, i - 1, KeyText(us))
    ensures var j := i - 1 + |KeyText(us)|;
            && Holds(t, j, GapText(colon)) && j + |GapText(colon)| == k - 1 && i < k <= |t| && t[k - 1] == ':'
    ensures MembersAt(t, i, QUOTE, depth, comments, data)
         == MemberValue(t, k, Decoded(us), depth, comments, data)
  {
    hide Token, MembersAt, MemberValue, StringFrom, Holds, GapFits, GapText, Decoded;
    KeyStep(t, i, QUOTE, depth, comments, data, StringFrom(t, i, -1, ""));
    us := FindKey(t, i);
    var j := i - 1 + |KeyText(us)|;
    colon := FindToken(t, j, comments);
    k := Token(t, j, comments).pos;
  }

  /** The key of a member, its colon, and the value behind it. */
  lemma {:induction false} FindEntry(t: string, i: nat, depth: int, comments: bool, data: seq<Member>)
    returns (m: Entry, l: nat, data': seq<Member>)
    requires 0 < i <= |t| && t[i - 1] == QUOTE && MembersAt(t, i, QUOTE, depth, comments, data).Ok?
    ensures i < l <= |t| && m.before == NO_GAP && m.behind == NO_GAP
    ensures GapFits(m.colon, comments, false) && GapFits(m.front, comments, false) && TreeFits(m.value, comments)
    ensures Holds(t, i - 1, EntryHead(m)) && i - 1 + |EntryHead(m)| == l
    ensures MembersAt(t, i, QUOTE, depth, comments, data) == BehindMember(t, l, depth, comments, data')
    decreases |t| - (i - 1), 0
  {
    hide MembersAt, MemberValue, BehindMember, ValueAt, Holds, GapFits, GapText, TreeText, TreeFits, KeyText, Decoded;
    var us, colon, k := FindColon(t, i, depth, comments, data);
    var r := ValueAt(t, k, depth + 1, comments);
    JsonSyntax.MemberStep(t, k, Decoded(us), depth, depth + 1, comments, data, r);
    var front, tree := FindGapped(t, k, depth + 1, comments);
    l, data' := r.pos, Assign(data, Decoded(us), r.value);
    m := Entry(NO_GAP, us, colon, front, tree, NO_GAP);
    var value := GapText(front) + TreeText(tree);
    OneHolds(t, k, ':', value);
    HoldsJoin(t, k - 1 - |GapText(colon)|, GapText(colon), ":" + value);
    HoldsJoin(t, i - 1, KeyText(us), GapText(colon) + (":" + value));
  }

  /** A member up to the end of its value. */
  function EntryHead(m: Entry): string {
    KeyText(m.key) + (GapText(m.colon) + (":" + (GapText(m.front) + TreeText(m.value))))
  }

  lemma {:induction false} FindEntries(t: string, i: nat, depth: int, comments: bool, data: seq<Member>)
    returns (ms: seq<Entry>)
    requires 0 < i <= |t| && MembersAt(t, i, t[i - 1], depth, comments, data).Ok?
    ensures ms != [] && EntriesFit(ms, comments) && Holds(t, i - 1, EntryText(ms))
    ensures i - 1 + |EntryText(ms)| == MembersAt(t, i, t[i - 1], depth, comments, data).pos
    decreases |t| - (i - 1), 1
  {
    hide Token, MembersAt, MemberValue, Holds, GapFits, GapText, TreeText, TreeFits, EntryText, EntryHead;
    QuoteFirst(t, i, depth, comments, data);
    var m, l, data' := FindEntry(t, i, depth, comments, data);
    var behind := FindToken(t, l, comments);
    var n := Token(t, l, comments).pos;
    m := m.(behind := behind);
    assert EntryHead(m) == EntryHead(m.(behind := NO_GAP)) by { SameHead(m); }
    NoGapFits(comments);
    if t[n - 1] == '}' {
      CharHolds(t, l, behind, '}');
      HoldsJoin(t, i - 1, EntryHead(m), GapText(behind) + "}");
      ms := [m];
      OneEntry(m, comments);
    } else {
      var before := FindToken(t, n, comments);
      var o := Token(t, n, comments).pos;
      var rest := FindEntries(t, o, depth, comments, data');
      ReopenedEntry(rest, before, comments);
      rest := rest[0 := rest[0].(before := before)];
      HoldsJoin(t, n, GapText(before), EntryText(rest));
      OneHolds(t, n, ',', EntriesText(rest));
      HoldsJoin(t, l, GapText(behind), "," + EntriesText(rest));
      HoldsJoin(t, i - 1, EntryHead(m), GapText(behind) + ("," + EntriesText(rest)));
      ms := [m] + rest;
      MoreEntries(m, rest, comments);
    }
  }

  lemma SameHead(m: Entry)
    ensures EntryHead(m) == EntryHead(m.(behind := NO_GAP))
  {
  }

  lemma QuoteFirst(t: string, i: nat, depth: int, comments: bool, data: seq<Member>)
    requires 0 < i <= |t| && MembersAt(t, i, t[i - 1], depth, comments, data).Ok?
    ensures t[i - 1] == QUOTE
  {
  }

  ghost predicate EntryFits(m: Entry, comments: bool) {
    && GapFits(m.before, comments, false) && GapFits(m.colon, comments, false) && GapFits(m.front, comments, false)
    && TreeFits(m.value, comments) && GapFits(m.behind, comments, false)
  }

  /** The parts of a member put together in the other way. */
  lemma EntryParts(m: Entry, rest: string)
    ensures KeyText(m.key) + (GapText(m.colon) + (":" + (GapText(m.front) + (TreeText(m.value) + rest))))
         == EntryHead(m) + rest
  {
    hide KeyText, GapText, TreeText;
    var a, b, c, d, e := KeyText(m.key), GapText(m.colon), ":", GapText(m.front), TreeText(m.value);
    assert d + (e + rest) == (d + e) + rest;
    assert c + ((d + e) + rest) == (c + (d + e)) + rest;
    assert b + ((c + (d + e)) + rest) == (b + (c + (d + e))) + rest;
  }

  lemma OneEntry(m: Entry, comments: bool)
    requires EntryFits(m, comments)
    ensures EntryText([m]) == EntryHead(m) + (GapText(m.behind) + "}") && EntriesFit([m], comments)
  {
    hide GapFits, GapText, TreeFits, TreeText, KeyText, EntryHead;
    assert [m][1..] == [];
    assert BehindEntryText([m]) == GapText(m.behind) + "}";
    assert EntryValueText([m]) == GapText(m.front) + (TreeText(m.value) + BehindEntryText([m]));
    EntryParts(m, GapText(m.behind) + "}");
  }

  lemma MoreEntries(m: Entry, rest: seq<Entry>, comments: bool)
    requires EntryFits(m, comments) && rest != [] && EntriesFit(rest, comments)
    ensures EntryText([m] + rest) == EntryHead(m) + (GapText(m.behind) + ("," + EntriesText(rest)))
    ensures EntriesFit([m] + rest, comments)
  {
    hide GapFits, GapText, TreeFits, TreeText, KeyText, EntryHead;
    assert ([m] + rest)[1..] == rest;
    assert BehindEntryText([m] + rest) == GapText(m.behind) + ("," + EntriesText(rest));
    assert EntryValueText([m] + rest) == GapText(m.front) + (TreeText(m.value) + BehindEntryText([m] + rest));
    EntryParts(m, GapText(m.behind) + ("," + EntriesText(rest)));
  }

  // ---- Documents ----

  /** A value with what stands around it. */
  datatype Doc = Doc(before: Gap, tree: Tree, behind: Gap)

  function DocText(d: Doc): string {
    GapText(d.before) + (TreeText(d.tree) + GapText(d.behind))
  }

  ghost predicate DocFits(d: Doc, comments: bool) {
    GapFits(d.before, comments, false) && TreeFits(d.tree, comments) && GapFits(d.behind, comments, true)
  }

  lemma BehindEnds(t: string, p: nat, g: Gap, comments: bool)
    requires Holds(t, p, GapText(g)) && GapFits(g, comments, true) && p + |GapText(g)| == |t|
    ensures Ends(At(t, p))
  {
    GapStarts(g, comments, true);
    if GapText(g) != "" {
      HoldsAt(t, p, GapText(g), 0);
    }
  }

  /** A text of the grammar is read as what it means, up to its end, or fails with the depth error. */
  lemma DocReads(d: Doc, comments: bool)
    requires DocFits(d, comments)
    ensures Document(DocText(d), comments) == Outcome(0, Levels(d.tree), |DocText(d)|, Meaning(d.tree))
  {
    hide ValueAt, Garbage, GapFits, TreeFits, TreeText, GapText, Holds, Meaning, Levels, Ends;
    var t := DocText(d);
    var p := |GapText(d.before)|;
    var q := p + |TreeText(d.tree)|;
    HoldsAll(t);
    TreeStarts(d.tree);
    GapValue(t, 0, d.before, TreeText(d.tree) + GapText(d.behind), 0, comments);
    HoldsSplit(t, p, TreeText(d.tree), GapText(d.behind));
    BehindEnds(t, q, d.behind, comments);
    TreeReads(t, p, d.tree, 0, comments);
    StopsAtEnd(t, comments);
    GapReads(t, q, d.behind, comments, true);
  }

  lemma HoldsAll(t: string)
    ensures Holds(t, 0, t)
  {
  }

  lemma StopsAtEnd(t: string, comments: bool)
    ensures StopsAt(t, |t|, comments)
  {
  }

  lemma FindDoc(t: string, comments: bool) returns (d: Doc)
    requires Document(t, comments).Ok?
    ensures DocFits(d, comments) && t == DocText(d)
  {
    hide ValueAt, ValueFrom, Garbage, Token, GapFits, TreeFits, TreeText, GapText, Holds;
    ValueBehindGap(t, 0, 0, comments);
    var before := FindToken(t, 0, comments);
    var tree := FindTree(t, Token(t, 0, comments).pos, 0, comments);
    var i := ValueAt(t, 0, 0, comments).pos;
    var behind := FindGap(t, i, comments);
    d := Doc(before, tree, behind);
    HoldsJoin(t, |GapText(before)|, TreeText(tree), GapText(behind));
    HoldsJoin(t, 0, GapText(before), TreeText(tree) + GapText(behind));
    HoldsWhole(t, DocText(d));
  }

  lemma HoldsWhole(t: string, w: string)
    requires Holds(t, 0, w) && |w| == |t|
    ensures t == w
  {
    HoldsSlice(t, 0, w);
  }

  /**
   `Json::parse` succeeds with a value exactly on the texts of the grammar that have this
   meaning and are nested at most 200 levels deep.
   */
  lemma AcceptsGrammar(t: string, comments: bool, v: Json)
    ensures Document(t, comments) == Ok(|t|, v)
       <==> exists d :: DocFits(d, comments) && t == DocText(d) && Levels(d.tree) <= 200 && v == Meaning(d.tree)
  {
    hide Document, DocFits, DocText, Meaning, Levels;
    forall d | DocFits(d, comments) && t == DocText(d)
      ensures Document(t, comments) == Outcome(0, Levels(d.tree), |t|, Meaning(d.tree))
    {
      DocReads(d, comments);
    }
    if Document(t, comments).Ok? {
      var d := FindDoc(t, comments);
    }
  }
}
