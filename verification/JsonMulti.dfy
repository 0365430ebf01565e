/** What `parse_multi` returns, and what every value the parser builds is like. */
module JsonMulti {
  import opened JsonAccepts
  import opened JsonFailures
  import opened JsonGaps
  import opened JsonGrammar
  import opened JsonNumbers
  import opened JsonRoundTrip
  import opened JsonSyntax
  import opened JsonText
  import opened JsonValue
  import opened Occurrence

  // ---- Several values in one text ----

  /** A value with the gap behind it. */
  datatype Section = Section(tree: Tree, behind: Gap)

  function SectionsText(ss: seq<Section>): string {
    if ss == [] then "" else TreeText(ss[0].tree) + BehindText(ss)
  }

  /** What stands behind the first of the values. */
  function BehindText(ss: seq<Section>): string
    requires ss != []
    decreases ss, 0
  {
    GapText(ss[0].behind) + SectionsText(ss[1..])
  }

  /** The values fit, are not nested too deeply, and no digit follows a number. */
  ghost predicate SectionsFit(ss: seq<Section>, comments: bool) {
    ss != [] ==>
      && TreeFits(ss[0].tree, comments) && Levels(ss[0].tree) <= MAX_DEPTH
      && GapFits(ss[0].behind, comments, |ss| == 1)
      && (ss[0].tree.Num? && BehindText(ss) != "" ==> !IsDigit(BehindText(ss)[0]))
      && SectionsFit(ss[1..], comments)
  }

  function SectionsMeaning(ss: seq<Section>): seq<Json> {
    if ss == [] then [] else [Meaning(ss[0].tree)] + SectionsMeaning(ss[1..])
  }

  /** What stands behind a value ends a number, if it is not a digit. */
  lemma BehindStarts(ss: seq<Section>, comments: bool)
    requires ss != [] && SectionsFit(ss, comments)
    ensures BehindText(ss) != "" ==> Ends(BehindText(ss)[0]) || IsDigit(BehindText(ss)[0])
    ensures SectionsText(ss) != "" && IsTokenStart(SectionsText(ss)[0])
  {
    hide TreeText, GapText, GapFits, TreeFits;
    GapStarts(ss[0].behind, comments, |ss| == 1);
    TreeStarts(ss[0].tree);
    if |ss| > 1 {
      TreeStarts(ss[1].tree);
      assert ss[1..] != [] && SectionsText(ss[1..])[0] == TreeText(ss[1].tree)[0];
    }
  }

  /** The first value, and the gap behind it. */
  lemma SectionReads(t: string, p: nat, ss: seq<Section>, comments: bool) returns (j: nat, k: nat)
    requires ss != [] && SectionsFit(ss, comments)
    requires Holds(t, p, SectionsText(ss)) && p + |SectionsText(ss)| == |t|
    ensures p < j <= k <= |t| && ValueAt(t, p, 0, comments) == Ok(j, Meaning(ss[0].tree))
    ensures Garbage(t, j, comments) == Ok(k, ())
    ensures Holds(t, k, SectionsText(ss[1..])) && k + |SectionsText(ss[1..])| == |t|
  {
    hide ValueAt, Garbage, TreeText, GapText, GapFits, TreeFits, Levels, Meaning, Holds, Ends;
    var tree := ss[0].tree;
    j := p + |TreeText(tree)|;
    k := j + |GapText(ss[0].behind)|;
    HoldsSplit(t, p, TreeText(tree), BehindText(ss));
    HoldsSplit(t, j, GapText(ss[0].behind), SectionsText(ss[1..]));
    BehindStarts(ss, comments);
    EndAt(t, j, BehindText(ss));
    TreeStarts(tree);
    TreeReads(t, p, tree, 0, comments);
    if |ss| > 1 {
      BehindStarts(ss[1..], comments);
      EndAt(t, k, SectionsText(ss[1..]));
    } else {
      StopsAtEnd(t, comments);
    }
    GapReads(t, j, ss[0].behind, comments, |ss| == 1);
  }

  /** The character that stands at the start of what is left, or the end. */
  lemma EndAt(t: string, p: nat, w: string)
    requires Holds(t, p, w) && p + |w| == |t|
    ensures if w == "" then p == |t| && Ends(At(t, p)) else p < |t| && At(t, p) == w[0]
  {
    if w != "" {
      HoldsAt(t, p, w, 0);
    }
  }

  lemma {:induction false} SectionsRead(t: string, p: nat, ss: seq<Section>, comments: bool, stop: nat,
                                        values: seq<Json>)
    requires SectionsFit(ss, comments) && Holds(t, p, SectionsText(ss)) && p + |SectionsText(ss)| == |t|
    ensures MultiFrom(t, p, comments, stop, values)
         == Multi(values + SectionsMeaning(ss), if ss == [] then stop else |t|, Ok(|t|, ()))
    decreases |ss|
  {
    hide ValueAt, Garbage, SectionsText, TreeText, GapFits, TreeFits, Levels, Meaning, Holds, BehindText;
    if ss == [] {
      NoSections(t, p);
      assert values + [] == values;
    } else {
      var j, k := SectionReads(t, p, ss, comments);
      var v := Meaning(ss[0].tree);
      SectionsRead(t, k, ss[1..], comments, k, values + [v]);
      assert values + [v] + SectionsMeaning(ss[1..]) == values + SectionsMeaning(ss);
      if ss[1..] == [] {
        NoSections(t, k);
      }
    }
  }

  lemma NoSections(t: string, p: nat)
    requires p + |SectionsText([])| == |t|
    ensures p == |t|
  {
  }

  // ---- What is read are sections ----

  lemma {:induction false} FindSections(t: string, p: nat, comments: bool, stop: nat, values: seq<Json>)
    returns (ss: seq<Section>)
    requires p <= |t| && StopsAt(t, p, comments) && MultiFrom(t, p, comments, stop, values).error.Ok?
    ensures SectionsFit(ss, comments) && Holds(t, p, SectionsText(ss)) && p + |SectionsText(ss)| == |t|
    ensures p < |t| <==> ss != []
    decreases |t| - p
  {
    hide ValueAt, ValueFrom, Garbage, Token, TreeText, GapText, GapFits, TreeFits, Levels, Meaning, Holds;
    if p == |t| {
      ss := [];
      HoldsOwn(t, p, p);
      assert t[p..p] == "";
    } else {
      StopAgain(t, p, comments);
      ValueBehindGap(t, p, 0, comments);
      var tree := FindTree(t, p + 1, 0, comments);
      var j, v := ValueAt(t, p, 0, comments).pos, ValueAt(t, p, 0, comments).value;
      var behind := FindGap(t, j, comments);
      var k := Garbage(t, j, comments).pos;
      var rest := FindSections(t, k, comments, k, values + [v]);
      ss := [Section(tree, behind)] + rest;
      NumberStops(t, p, tree, comments);
      LevelsFit(t, p, tree, comments);
      MoreSections(t, p, tree, behind, rest, comments);
    }
  }

  // ---- What is left behind by a failure ----

  lemma {:induction false} GapFitsBeforeEnd(g: Gap, comments: bool)
    requires GapFits(g, comments, false)
    ensures GapFits(g, comments, true)
    decreases g
  {
    if g.Remarked? {
      GapFitsBeforeEnd(g.rest, comments);
    }
  }

  /** At position `q` a value fails, or what stands behind a value: the last value pushed. */
  ghost predicate FailsWith(t: string, q: nat, comments: bool, m: Multi, last: Json)
    requires q <= |t|
  {
    var r := ValueAt(t, q, 0, comments);
    if r.Fail? then
      && m.error == Fail(r.error)
      && (if q < |t| && t[q] == QUOTE then last == String("") else last == Null)
    else last == r.value && Garbage(t, r.pos, comments) == m.error
  }

  /**
   A failure leaves the values in front of it, one more for the one that failed, and the position
   behind the last of them and its gap.
   */
  lemma {:induction false} MultiFails(t: string, b: nat, p: nat, comments: bool, stop: nat, values: seq<Json>)
    returns (ss: seq<Section>, last: Json)
    requires b <= p < |t| && Boundary(t, b, comments) && Token(t, b, comments) == Ok(p + 1, t[p])
    requires StopsAt(t, p, comments) && MultiFrom(t, p, comments, stop, values).error.Fail?
    ensures Told(t, MultiFrom(t, p, comments, stop, values).error.error, comments)
    ensures SectionsFit(ss, comments) && Holds(t, p, SectionsText(ss))
    ensures var q, m := p + |SectionsText(ss)|, MultiFrom(t, p, comments, stop, values);
      && m.values == values + SectionsMeaning(ss) + [last] && m.stop == (if ss == [] then stop else q)
      && FailsWith(t, q, comments, m, last)
    decreases |t| - p
  {
    hide ValueAt, ValueFrom, Garbage, Token, TreeText, GapText, GapFits, TreeFits, Levels, Meaning, Holds;
    hide Told, Boundary, IsSpace, IsDigit, GapBetween, TreeBetween;
    StopAgain(t, p, comments);
    var r := ValueAt(t, p, 0, comments);
    if r.Fail? {
      ElementTold(t, b, p + 1, 0, comments);
    } else {
      var n := ValueBetween(t, p, 0, comments);
      if Garbage(t, r.pos, comments).Fail? {
        GarbageTold(t, r.pos, comments);
      }
    }
    if r.Fail? || Garbage(t, r.pos, comments).Fail? {
      ss, last := [], if r.Fail? then FailedValue(t, p, comments) else r.value;
      HoldsOwn(t, p, p);
      assert t[p..p] == "";
      assert values + [] == values;
    } else {
      ValueBehindGap(t, p, 0, comments);
      var tree := FindTree(t, p + 1, 0, comments);
      var behind := FindGap(t, r.pos, comments);
      var k := Garbage(t, r.pos, comments).pos;
      NextToken(t, r.pos, k, comments);
      var rest;
      rest, last := MultiFails(t, r.pos, k, comments, k, values + [r.value]);
      ss := [Section(tree, behind)] + rest;
      if rest == [] {
        GapFitsBeforeEnd(behind, comments);
      }
      NumberStops(t, p, tree, comments);
      LevelsFit(t, p, tree, comments);
      TreeValue(t, p, tree, comments);
      MoreSections(t, p, tree, behind, rest, comments);
      assert values + [r.value] + SectionsMeaning(rest) + [last] == values + SectionsMeaning(ss) + [last];
    }
  }

  /** One more value in front of others. */
  lemma MoreSections(t: string, p: nat, tree: Tree, behind: Gap, rest: seq<Section>, comments: bool)
    requires var j := p + |TreeText(tree)|;
      && Holds(t, p, TreeText(tree)) && Holds(t, j, GapText(behind)) && (tree.Num? ==> !IsDigit(At(t, j)))
      && Holds(t, j + |GapText(behind)|, SectionsText(rest))
    requires TreeFits(tree, comments) && Levels(tree) <= MAX_DEPTH && SectionsFit(rest, comments)
    requires GapFits(behind, comments, rest == [])
    ensures var ss := [Section(tree, behind)] + rest;
      && SectionsFit(ss, comments) && Holds(t, p, SectionsText(ss))
      && |SectionsText(ss)| == |TreeText(tree)| + |GapText(behind)| + |SectionsText(rest)|
      && SectionsMeaning(ss) == [Meaning(tree)] + SectionsMeaning(rest)
  {
    hide TreeText, GapText, GapFits, TreeFits, Levels, Meaning, Holds, IsDigit;
    var j, ss := p + |TreeText(tree)|, [Section(tree, behind)] + rest;
    assert ss[1..] == rest;
    HoldsJoin(t, j, GapText(behind), SectionsText(rest));
    StartAt(t, j, GapText(behind) + SectionsText(rest));
    HoldsJoin(t, p, TreeText(tree), GapText(behind) + SectionsText(rest));
  }

  lemma NextToken(t: string, j: nat, k: nat, comments: bool)
    requires j <= |t| && Garbage(t, j, comments).Ok? && Garbage(t, j, comments).pos == k
    ensures k < |t| ==> Token(t, j, comments) == Ok(k + 1, t[k])
  {
  }

  /**
   `Json::parse_multi` on a text it fails on: the error is true of the text; the values are those of
   the grammar in front of the failure, and one more; and the stop position is behind them.
   */
  lemma MultiFailure(t: string, comments: bool) returns (before: Gap, ss: seq<Section>, last: Json)
    requires MultiFrom(t, 0, comments, 0, []).error.Fail?
    ensures var q, m := |GapText(before) + SectionsText(ss)|, MultiFrom(t, 0, comments, 0, []);
      && Told(t, m.error.error, comments)
      && m.values == SectionsMeaning(ss) + [last] && m.stop == (if ss == [] then 0 else q)
      && SectionsFit(ss, comments)
      && (Token(t, 0, comments).Ok? ==>
            && GapFits(before, comments, false) && Holds(t, 0, GapText(before) + SectionsText(ss))
            && FailsWith(t, q, comments, m, last))
      && (Token(t, 0, comments).Fail? ==> ss == [] && last == Null && m.error == Fail(Token(t, 0, comments).error))
  {
    hide ValueAt, ValueFrom, Garbage, Token, SectionsText, GapText, GapFits, SectionsFit, Holds, Told, FailsWith;
    assert Boundary(t, 0, comments);
    ValueStep(t, 0, 0, comments, Token(t, 0, comments));
    if Token(t, 0, comments).Fail? {
      TokenTold(t, 0, comments);
      before, ss, last := NO_GAP, [], Null;
      NothingFits(comments);
    } else {
      before := FindToken(t, 0, comments);
      var p := Token(t, 0, comments).pos - 1;
      TokenStops(t, p, comments);
      SameBehindGap(t, p, comments);
      assert MultiFrom(t, p, comments, 0, []) == MultiFrom(t, 0, comments, 0, []);
      ss, last := MultiFails(t, 0, p, comments, 0, []);
      HoldsJoin(t, 0, GapText(before), SectionsText(ss));
      assert [] + SectionsMeaning(ss) + [last] == SectionsMeaning(ss) + [last];
    }
  }

  lemma NothingFits(comments: bool)
    ensures SectionsFit([], comments) && SectionsMeaning([]) == [] && [] + [Null] == [Null]
  {
  }

  /** A value that was read is what the tree means. */
  lemma TreeValue(t: string, p: nat, tree: Tree, comments: bool)
    requires TreeFits(tree, comments) && Holds(t, p, TreeText(tree)) && ValueAt(t, p, 0, comments).Ok?
    requires tree.Num? ==> ValueAt(t, p, 0, comments).value == Meaning(tree)
    ensures ValueAt(t, p, 0, comments).value == Meaning(tree)
  {
    hide ValueAt, TreeText, TreeFits, Holds, Meaning, Ends;
    if !tree.Num? {
      TreeReads(t, p, tree, 0, comments);
    }
  }

  lemma StartAt(t: string, p: nat, w: string)
    requires Holds(t, p, w)
    ensures w != "" ==> p < |t| && At(t, p) == w[0]
  {
  }

  /** No digit follows a number that was read. */
  lemma NumberStops(t: string, p: nat, tree: Tree, comments: bool)
    requires p < |t| && tree.Num? ==> Holds(t, p, TreeText(tree))
    requires p < |t| && ValueFrom(t, p + 1, t[p], 0, comments).Ok?
    requires p + |TreeText(tree)| == ValueFrom(t, p + 1, t[p], 0, comments).pos
    ensures tree.Num? ==> !IsDigit(At(t, p + |TreeText(tree)|))
  {
    hide StringFrom, ArrayFrom, ObjectFrom, RealValue, DigitsValue, NumberText;
    if tree.Num? {
      NumberStarts(tree.n);
      HoldsAt(t, p, NumberText(tree.n), 0);
    }
  }

  /** A value that was read is not nested too deeply. */
  lemma LevelsFit(t: string, p: nat, tree: Tree, comments: bool)
    requires TreeFits(tree, comments) && Holds(t, p, TreeText(tree)) && ValueAt(t, p, 0, comments).Ok?
    ensures Levels(tree) <= MAX_DEPTH
  {
    hide ValueAt, TreeText, TreeFits, Holds, Meaning, Ends;
    if !tree.Num? {
      TreeReads(t, p, tree, 0, comments);
    }
  }

  /** Values of the grammar one behind the other, with gaps around them; or nothing at all. */
  ghost predicate IsMulti(t: string, comments: bool, vs: seq<Json>) {
    || (t == "" && vs == [])
    || exists before, ss ::
         && ss != [] && GapFits(before, comments, false) && SectionsFit(ss, comments)
         && t == GapText(before) + SectionsText(ss) && vs == SectionsMeaning(ss)
  }

  lemma MultiReads(t: string, comments: bool, before: Gap, ss: seq<Section>)
    requires ss != [] && GapFits(before, comments, false) && SectionsFit(ss, comments)
    requires t == GapText(before) + SectionsText(ss)
    ensures MultiFrom(t, 0, comments, 0, []) == Multi(SectionsMeaning(ss), |t|, Ok(|t|, ()))
  {
    hide ValueAt, Garbage, SectionsText, GapText, GapFits, SectionsFit, SectionsMeaning, Holds, IsSpace;
    var p := |GapText(before)|;
    HoldsAll(t);
    BehindStarts(ss, comments);
    GapValue(t, 0, before, SectionsText(ss), 0, comments);
    SectionsRead(t, p, ss, comments, 0, []);
    assert [] + SectionsMeaning(ss) == SectionsMeaning(ss);
    var j, k := SectionReads(t, p, ss, comments);
    assert MultiFrom(t, 0, comments, 0, []) == MultiFrom(t, p, comments, 0, []);
  }

  /**
   `Json::parse_multi` returns these values, without an error and with the stop position at the
   end, exactly on the texts that are values of the grammar that mean them, with gaps around them.
   */
  lemma MultiAccepts(t: string, comments: bool, vs: seq<Json>)
    ensures MultiFrom(t, 0, comments, 0, []) == Multi(vs, |t|, Ok(|t|, ())) <==> IsMulti(t, comments, vs)
  {
    hide ValueAt, ValueFrom, Garbage, Token, SectionsText, GapText, GapFits, SectionsFit, SectionsMeaning, Holds;
    forall before, ss | && ss != [] && GapFits(before, comments, false) && SectionsFit(ss, comments)
                        && t == GapText(before) + SectionsText(ss)
      ensures MultiFrom(t, 0, comments, 0, []) == Multi(SectionsMeaning(ss), |t|, Ok(|t|, ()))
    {
      MultiReads(t, comments, before, ss);
    }
    if t != "" && MultiFrom(t, 0, comments, 0, []).error.Ok? {
      var before, ss := FindMulti(t, comments);
    }
  }

  lemma FindMulti(t: string, comments: bool) returns (before: Gap, ss: seq<Section>)
    requires t != "" && MultiFrom(t, 0, comments, 0, []).error.Ok?
    ensures ss != [] && GapFits(before, comments, false) && SectionsFit(ss, comments)
    ensures t == GapText(before) + SectionsText(ss)
  {
    hide ValueAt, ValueFrom, Garbage, Token, SectionsText, GapText, GapFits, SectionsFit, Holds;
    ValueBehindGap(t, 0, 0, comments);
    before := FindToken(t, 0, comments);
    var p := Token(t, 0, comments).pos - 1;
    TokenStops(t, p, comments);
    SameBehindGap(t, p, comments);
    assert MultiFrom(t, p, comments, 0, []) == MultiFrom(t, 0, comments, 0, []);
    ss := FindSections(t, p, comments, 0, []);
    HoldsJoin(t, 0, GapText(before), SectionsText(ss));
    HoldsWhole(t, GapText(before) + SectionsText(ss));
  }

  lemma TokenStops(t: string, p: nat, comments: bool)
    requires p < |t| && Token(t, p, comments) == Ok(p + 1, t[p])
    ensures StopsAt(t, p, comments)
  {
  }

  /** The same value behind the gap in front of it. */
  lemma SameBehindGap(t: string, p: nat, comments: bool)
    requires p < |t| && Token(t, 0, comments) == Ok(p + 1, t[p]) == Token(t, p, comments)
    ensures ValueAt(t, p, 0, comments) == ValueAt(t, 0, 0, comments)
  {
    hide ValueAt, Token;
    ValueStep(t, 0, 0, comments, Token(t, 0, comments));
    ValueStep(t, p, 0, comments, Token(t, p, comments));
  }

  // ---- Several values that were dumped ----

  /** The values from position `i` on, each with white space behind it. */
  function Joined(vs: seq<Json>, seps: seq<string>, i: nat, fmt: real -> string): string
    requires i <= |vs| == |seps|
    decreases |vs| - i
  {
    if i == |vs| then "" else Text(vs[i], fmt) + seps[i] + Joined(vs, seps, i + 1, fmt)
  }

  /** White space everywhere, and at least some between two values. */
  ghost predicate Separates(seps: seq<string>) {
    forall k :: 0 <= k < |seps| ==> Blank(seps[k]) && (k + 1 < |seps| ==> seps[k] != "")
  }

  lemma {:induction false} JoinedSections(vs: seq<Json>, seps: seq<string>, i: nat, comments: bool, fmt: real -> string)
    returns (ss: seq<Section>)
    requires i <= |vs| == |seps| && Separates(seps)
    requires forall n :: 0 <= n < |vs| ==> Printable(vs[n], fmt) && Proper(vs[n]) && Depth(vs[n]) <= MAX_DEPTH
    ensures SectionsFit(ss, comments) && |ss| == |vs| - i
    ensures SectionsText(ss) == Joined(vs, seps, i, fmt) && SectionsMeaning(ss) == NormItems(vs, fmt)[i..]
    decreases |vs| - i
  {
    hide Text, TreeText, TreeFits, Meaning, Norm, Levels, Depth, Printable, Proper, NormItems;
    NormsFrom(vs, i, fmt);
    if i == |vs| {
      ss := [];
    } else {
      var tree := TreeOf(vs[i], fmt, comments);
      var rest := JoinedSections(vs, seps, i + 1, comments, fmt);
      ss := [Section(tree, Space(seps[i]))] + rest;
      assert ss[1..] == rest;
      Assoc(Text(vs[i], fmt), seps[i], Joined(vs, seps, i + 1, fmt));
      BlankBehind(seps[i], Joined(vs, seps, i + 1, fmt));
    }
  }

  lemma BlankBehind(sep: string, rest: string)
    requires Blank(sep) && (rest != "" ==> sep != "")
    ensures sep + rest != "" ==> !IsDigit((sep + rest)[0])
  {
    if sep != "" {
      assert (sep + rest)[0] == sep[0] && IsSpace(sep[0]);
    }
  }

  /**
   `parse_multi` of serialized values, with white space between them, returns exactly those
   values, without an error, and stops at the end of the text.
   */
  lemma MultiRoundTrip(vs: seq<Json>, seps: seq<string>, comments: bool, fmt: real -> string)
    requires |vs| == |seps| && Separates(seps)
    requires forall n :: 0 <= n < |vs| ==> Printable(vs[n], fmt) && Proper(vs[n]) && Depth(vs[n]) <= MAX_DEPTH
    ensures var t := Joined(vs, seps, 0, fmt);
            MultiFrom(t, 0, comments, 0, []) == Multi(NormItems(vs, fmt), |t|, Ok(|t|, ()))
  {
    hide SectionsFit, SectionsText, Joined, Printable, Proper, Depth, ValueAt;
    var t := Joined(vs, seps, 0, fmt);
    var ss := JoinedSections(vs, seps, 0, comments, fmt);
    assert NormItems(vs, fmt)[0..] == NormItems(vs, fmt);
    HoldsAll(t);
    SectionsRead(t, 0, ss, comments, 0, []);
    assert [] + SectionsMeaning(ss) == SectionsMeaning(ss);
    if vs == [] {
      NoSections(t, 0);
    }
  }

  // ---- Parsed objects are maps ----

  lemma AssignProper(ms: seq<Member>, key: string, v: Json)
    requires Proper(Object(ms)) && Proper(v)
    ensures Proper(Object(Assign(ms, key, v)))
  {
    AssignKeepsOrder(ms, key, v);
    var r, p := Assign(ms, key, v), LowerBound(ms, key, 0);
    forall i | 0 <= i < |r|
      ensures Proper(r[i].value)
    {
      assert r[i].value == v || r[i] == ms[if i < p || |r| == |ms| then i else i - 1];
    }
  }

  /** Every value the parser returns is proper: its objects have ascending keys, each of them once. */
  lemma {:induction false} ValueProper(s: string, i: nat, depth: int, comments: bool)
    requires i <= |s|
    ensures ValueAt(s, i, depth, comments).Ok? ==> Proper(ValueAt(s, i, depth, comments).value)
    decreases |s| - i, 0
  {
    hide NumberAt, StringFrom, ItemsAt, MembersAt;
    if depth <= MAX_DEPTH {
      match Token(s, i, comments) {
        case Fail(_) =>
        case Ok(j, ch) =>
          ValueStep(s, i, depth, comments, Ok(j, ch));
          NumberIsLeaf(s, j - 1);
          match Token(s, j, comments) {
            case Fail(_) =>
              assert ArrayFrom(s, j, depth, comments).Fail? && ObjectFrom(s, j, depth, comments).Fail?;
            case Ok(k, c) =>
              if ch == '[' && c != ']' {
                ItemsProper(s, k, depth, comments, []);
                assert ArrayFrom(s, j, depth, comments) == ItemsAt(s, k, depth, comments, []);
              } else if ch == '{' && c != '}' {
                MembersProper(s, k, c, depth, comments, []);
                assert ObjectFrom(s, j, depth, comments) == MembersAt(s, k, c, depth, comments, []);
              }
          }
      }
    }
  }

  lemma NumberIsLeaf(s: string, i: nat)
    requires i <= |s|
    ensures NumberAt(s, i).Ok? ==> Proper(NumberAt(s, i).value)
  {
  }

  lemma {:induction false} ItemsProper(s: string, i: nat, depth: int, comments: bool, data: seq<Json>)
    requires 0 < i <= |s| && Proper(Array(data))
    ensures ItemsAt(s, i, depth, comments, data).Ok? ==> Proper(ItemsAt(s, i, depth, comments, data).value)
    decreases |s| - (i - 1), 1
  {
    hide ValueAt;
    ValueProper(s, i - 1, depth + 1, comments);
    match ValueAt(s, i - 1, depth + 1, comments) {
      case Fail(_) =>
      case Ok(j, v) =>
        assert Proper(Array(data + [v]));
        match Token(s, j, comments) {
          case Fail(_) =>
          case Ok(k, c) =>
            if c == ',' {
              match Token(s, k, comments) {
                case Fail(_) =>
                case Ok(l, _) => ItemsProper(s, l, depth, comments, data + [v]);
              }
            }
        }
    }
  }

  lemma {:induction false} MembersProper(s: string, i: nat, ch: char, depth: int, comments: bool, data: seq<Member>)
    requires i <= |s| && Proper(Object(data))
    ensures MembersAt(s, i, ch, depth, comments, data).Ok? ==>
      Proper(MembersAt(s, i, ch, depth, comments, data).value)
    decreases |s| - i, 1
  {
    hide ValueAt, StringFrom;
    if ch == QUOTE {
      match StringFrom(s, i, -1, "") {
        case Fail(_) =>
        case Ok(j, key) =>
          match Token(s, j, comments) {
            case Fail(_) =>
            case Ok(k, c) =>
              if c == ':' {
                MemberValueProper(s, k, key, depth, comments, data);
              }
          }
      }
    }
  }

  lemma {:induction false} MemberValueProper(s: string, k: nat, key: string, depth: int, comments: bool,
                                             data: seq<Member>)
    requires k <= |s| && Proper(Object(data))
    ensures MemberValue(s, k, key, depth, comments, data).Ok? ==>
      Proper(MemberValue(s, k, key, depth, comments, data).value)
    decreases |s| - k, 1
  {
    hide ValueAt, Assign;
    ValueProper(s, k, depth + 1, comments);
    match ValueAt(s, k, depth + 1, comments) {
      case Fail(_) =>
      case Ok(l, v) =>
        AssignProper(data, key, v);
        match Token(s, l, comments) {
          case Fail(_) =>
          case Ok(n, d) =>
            if d == ',' {
              match Token(s, n, comments) {
                case Fail(_) =>
                case Ok(o, e) => MembersProper(s, o, e, depth, comments, Assign(data, key, v));
              }
            }
        }
    }
  }
}
