/**
 The text of the broker-side filter: how `getQuadKeyFilter` prints the keys, and what the broker
 selects by the text it reads.
 */
module QuadKeyText {
  import opened QuadKeyWords
  import opened QuadKeyBudget

  // ---- Printing ----

  function Clause(k: QuadKey): string {
    "quadkeys LIKE '" + k + "%'"
  }

  /** The filter, as the disjunction the broker reads. */
  function FilterText(keys: seq<QuadKey>): string {
    if keys == [] then ""
    else if |keys| == 1 then Clause(keys[0])
    else Clause(keys[0]) + " OR " + FilterText(keys[1..])
  }

  /** `s.insert(pos, t)` */
  function InsertText(s: string, pos: nat, t: string): string
    requires pos <= |s|
  {
    s[..pos] + t + s[pos..]
  }

  /** The three insertions that add one clause. */
  method AppendClause(filter: string, k: QuadKey) returns (text: string)
    ensures text == filter + Clause(k)
  {
    text := InsertText(filter, |filter|, "quadkeys LIKE ''");
    text := InsertText(text, |text| - 1, k);
    assert text == filter + ("quadkeys LIKE '" + k + "'");
    text := InsertText(text, |text| - 1, "%");
  }

  /** The loop that assembles the text. */
  method PrintFilter(quadKeys: seq<QuadKey>) returns (text: string)
    ensures text == FilterText(quadKeys)
  {
    text := "";
    var i := 0;
    assert quadKeys[0..] == quadKeys;
    while i < |quadKeys|
      invariant 0 <= i <= |quadKeys|
      invariant FilterText(quadKeys) == text + FilterText(quadKeys[i..])
    {
      text := AppendClause(text, quadKeys[i]);
      if i < |quadKeys| - 1 {
        text := InsertText(text, |text|, " OR ");
      }
      i := i + 1;
    }
  }

  /** The figure of `checkdim` is the length of the text and 180. */
  lemma {:induction false} FilterLength(keys: seq<QuadKey>)
    requires keys != []
    ensures TrueFigure(keys) == |FilterText(keys)| + 180
  {
    if |keys| > 1 {
      FilterLength(keys[1..]);
    } else {
      assert Weight(keys[1..]) == 0;
    }
  }

  // ---- Reading ----

  /** A pattern: `%` stands for any text, `_` for any one character, everything else for itself. */
  predicate Matches(pattern: string, w: string)
    decreases |pattern|
  {
    if pattern == "" then w == ""
    else if pattern[0] == '%' then exists k :: 0 <= k <= |w| && Matches(pattern[1..], w[k..])
    else w != "" && (pattern[0] == '_' || pattern[0] == w[0]) && Matches(pattern[1..], w[1..])
  }

  /** The first connective from position `i` on, or the end. */
  function FirstOr(text: string, i: nat): (j: nat)
    requires i <= |text|
    ensures i <= j <= |text| && (j < |text| ==> j + 4 <= |text|)
    decreases |text| - i
  {
    if i + 4 > |text| then |text| else if text[i..i + 4] == " OR " then i else FirstOr(text, i + 1)
  }

  /** What stands between the connectives. */
  function Terms(text: string): seq<string>
    decreases |text|
  {
    var i := FirstOr(text, 0);
    if i == |text| then [text] else [text[..i]] + Terms(text[i + 4..])
  }

  /** The message property that carries the quadkey of the sender. */
  const PROPERTY: string := "quadkeys"

  /** A term selects a quadkey when it is a comparison of the property with a quoted pattern that matches. */
  ghost predicate TermSelects(term: string, w: string) {
    exists pattern: string ::
      term == PROPERTY + " LIKE '" + pattern + "'" && '\'' !in pattern && Matches(pattern, w)
  }

  /** The broker passes on a message whose quadkey is selected by one of the terms. */
  ghost predicate Passes(text: string, w: string) {
    exists i :: 0 <= i < |Terms(text)| && TermSelects(Terms(text)[i], w)
  }

  // ---- What is printed selects what the keys accept ----

  /** A key with the wildcard behind it matches the words it is a prefix of. */
  lemma {:induction false} KeyMatches(k: QuadKey, w: QuadKey)
    ensures Matches(k + "%", w) <==> Prefix(k, w)
  {
    var pattern: string := k + "%";
    if k == [] {
      assert pattern == "%" && pattern[1..] == "";
      assert w[|w|..] == [];
      assert Matches(pattern[1..], w[|w|..]);
    } else {
      assert pattern[1..] == k[1..] + "%";
      if w != [] {
        KeyMatches(k[1..], w[1..]);
        assert k == [k[0]] + k[1..] && w == [w[0]] + w[1..];
      }
    }
  }

  lemma TermOfKey(k: QuadKey, w: QuadKey)
    ensures TermSelects(Clause(k), w) <==> Prefix(k, w)
  {
    hide Matches;
    var head: string := "quadkeys LIKE '";
    KeyMatches(k, w);
    assert PROPERTY + " LIKE '" == head;
    assert Clause(k) == head + (k + "%") + "'";
    forall pattern: string | Clause(k) == PROPERTY + " LIKE '" + pattern + "'"
      ensures pattern == k + "%"
    {
      SamePattern(head, pattern, k + "%");
    }
    if Prefix(k, w) {
      assert '\'' !in k + "%";
    }
  }

  lemma SamePattern(head: string, a: string, b: string)
    requires head + a + "'" == head + b + "'"
    ensures a == b
  {
    assert |a| == |b|;
    assert a == (head + a + "'")[|head|..|head| + |a|];
    assert b == (head + b + "'")[|head|..|head| + |b|];
  }

  /** The blanks of a clause are not those of a connective. */
  lemma {:induction false} ClauseApart(k: QuadKey, rest: string, i: nat)
    requires i <= |Clause(k)| && (rest == "" || (4 <= |rest| && rest[..4] == " OR "))
    ensures FirstOr(Clause(k) + rest, i) == |Clause(k)|
    decreases |Clause(k)| - i
  {
    var c, text := Clause(k), Clause(k) + rest;
    if i < |c| {
      if i + 4 <= |text| {
        NoConnective(k, rest, i);
      }
      ClauseApart(k, rest, i + 1);
    } else if rest != "" {
      assert text[i..i + 4] == rest[..4];
    }
  }

  lemma NoConnective(k: QuadKey, rest: string, i: nat)
    requires i < |Clause(k)| && i + 4 <= |Clause(k) + rest|
    ensures (Clause(k) + rest)[i..i + 4] != " OR "
  {
    var c, text := Clause(k), Clause(k) + rest;
    var four := text[i..i + 4];
    assert four[0] == c[i] && four[1] == text[i + 1];
    assert c[..15] == "quadkeys LIKE '" && c[15..15 + |k|] == k;
    if i >= 15 {
      assert c[i] == if i < 15 + |k| then k[i - 15] else "%'"[i - 15 - |k|];
    }
  }

  lemma FirstTerm(c: string, connective: string, rest: string)
    requires |connective| == 4 && FirstOr(c + (connective + rest), 0) == |c|
    ensures Terms(c + (connective + rest)) == [c] + Terms(rest)
  {
    hide FirstOr;
    var text := c + (connective + rest);
    assert text[..|c|] == c;
    assert text[|c| + 4..] == rest;
  }

  lemma OnlyTerm(c: string)
    requires FirstOr(c, 0) == |c|
    ensures Terms(c) == [c]
  {
  }

  lemma TermsOfText(keys: seq<QuadKey>)
    requires keys != []
    ensures Terms(FilterText(keys))
         == if |keys| == 1 then [Clause(keys[0])] else [Clause(keys[0])] + Terms(FilterText(keys[1..]))
  {
    hide Clause, FirstOr, Terms, FilterText;
    var c, rest := Clause(keys[0]), FilterText(keys[1..]);
    TextSplits(keys);
    if |keys| == 1 {
      ClauseApart(keys[0], "", 0);
      NothingBehind(c);
      OnlyTerm(c);
    } else {
      LeadsOr(rest);
      ClauseApart(keys[0], " OR " + rest, 0);
      FirstTerm(c, " OR ", rest);
    }
  }

  lemma TextSplits(keys: seq<QuadKey>)
    requires keys != []
    ensures FilterText(keys)
         == if |keys| == 1 then Clause(keys[0]) else Clause(keys[0]) + (" OR " + FilterText(keys[1..]))
  {
    hide Clause;
  }

  lemma LeadsOr(rest: string)
    ensures |" OR " + rest| >= 4 && (" OR " + rest)[..4] == " OR "
  {
  }

  lemma NothingBehind(c: string)
    ensures c + "" == c
  {
  }

  lemma {:induction false} TermsAreClauses(keys: seq<QuadKey>)
    requires keys != []
    ensures |Terms(FilterText(keys))| == |keys|
    ensures forall i :: 0 <= i < |keys| ==> Terms(FilterText(keys))[i] == Clause(keys[i])
  {
    hide Clause, FilterText, Terms;
    TermsOfText(keys);
    if |keys| > 1 {
      TermsAreClauses(keys[1..]);
    }
  }

  /** The printed text selects a quadkey exactly when one of the keys is a prefix of it. */
  lemma TextSelects(keys: seq<QuadKey>, w: QuadKey)
    ensures Passes(FilterText(keys), w) <==> Covers(keys, w)
  {
    hide Clause, Terms, TermSelects;
    if keys == [] {
      NothingSelected(w);
    } else {
      TermsAreClauses(keys);
      forall i | 0 <= i < |keys|
        ensures TermSelects(Terms(FilterText(keys))[i], w) <==> Prefix(keys[i], w)
      {
        TermOfKey(keys[i], w);
      }
    }
  }

  lemma NothingSelected(w: string)
    ensures !Passes("", w)
  {
    assert Terms("") == [""];
    forall pattern: string
      ensures "" != PROPERTY + " LIKE '" + pattern + "'"
    {
      assert |PROPERTY + " LIKE '" + pattern + "'"| > 0;
    }
  }
}
