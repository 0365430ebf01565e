/** What may stand between two tokens of a JSON text: white space, and comments if they are allowed. */
module JsonGaps {
  import opened JsonSyntax
  import opened Occurrence

  ghost predicate Blank(w: string) {
    forall k :: 0 <= k < |w| ==> IsSpace(w[k])
  }

  /** The text of a comment, without what opens and closes it. */
  datatype Remark = Line(text: string) | Block(text: string)

  datatype Gap = Space(space: string) | Remarked(space: string, remark: Remark, rest: Gap)

  const NO_GAP := Space("")

  function RemarkText(c: Remark): string {
    match c
    case Line(w) => "//" + w
    case Block(w) => "/*" + w + "*/"
  }

  function GapText(g: Gap): string {
    match g
    case Space(w) => w
    case Remarked(w, c, rest) => w + RemarkText(c) + GapText(rest)
  }

  /** A remark has nothing in it that would end it. */
  ghost predicate RemarkFits(c: Remark) {
    match c
    case Line(w) => forall k :: 0 <= k < |w| ==> w[k] != '\n'
    case Block(w) => forall k :: 0 <= k < |w| - 1 ==> !(w[k] == '*' && w[k + 1] == '/')
  }

  /** The end of a line, or the end of the text. */
  predicate EndsLine(w: string, last: bool) {
    if w == "" then last else w[0] == '\n'
  }

  /** Remarks stand only where they are allowed; `last` says that the gap goes up to the end of the text. */
  ghost predicate GapFits(g: Gap, comments: bool, last: bool) {
    match g
    case Space(w) => Blank(w)
    case Remarked(w, c, rest) =>
      && comments && Blank(w) && RemarkFits(c) && GapFits(rest, comments, last)
      && (c.Line? ==> EndsLine(GapText(rest), last))
  }

  // ---- Gaps are skipped ----

  lemma {:induction false} SkipBlank(t: string, p: nat, q: nat)
    requires p <= q <= |t| && (forall k :: p <= k < q ==> IsSpace(t[k])) && !IsSpace(At(t, q))
    ensures SkipSpace(t, p) == q
    decreases q - p
  {
    if p < q {
      SkipBlank(t, p + 1, q);
    }
  }

  /** White space is skipped. */
  lemma BlankSkips(t: string, p: nat, w: string)
    requires Holds(t, p, w) && Blank(w) && !IsSpace(At(t, p + |w|))
    ensures SkipSpace(t, p) == p + |w|
  {
    forall k | p <= k < p + |w|
      ensures IsSpace(t[k])
    {
      HoldsAt(t, p, w, k - p);
    }
    SkipBlank(t, p, p + |w|);
  }

  lemma {:induction false} LineEnds(t: string, p: nat, q: nat)
    requires p <= q <= |t| && (forall k :: p <= k < q ==> t[k] != '\n') && (q < |t| ==> t[q] == '\n')
    ensures LineEnd(t, p) == q
    decreases q - p
  {
    if p < q {
      LineEnds(t, p + 1, q);
    }
  }

  lemma {:induction false} BlockEnds(t: string, p: nat, q: nat)
    requires p <= q && q + 2 <= |t| && t[q] == '*' && t[q + 1] == '/'
    requires forall k :: p <= k < q ==> !(t[k] == '*' && t[k + 1] == '/')
    ensures BlockEnd(t, p) == Ok(q + 2, ())
    decreases q - p
  {
    if p < q {
      BlockEnds(t, p + 1, q);
    }
  }

  lemma LineReads(t: string, p: nat, w: string)
    requires Holds(t, p, "//" + w) && RemarkFits(Line(w))
    requires var q := p + 2 + |w|; q < |t| ==> t[q] == '\n'
    ensures p < |t| && t[p] == '/' && Comment(t, p) == Ok(p + 2 + |w|, ())
  {
    hide Holds;
    HoldsSplit(t, p, "//", w);
    HoldsEnds(t, p, "//" + w);
    HoldsAt(t, p, "//", 0);
    HoldsAt(t, p, "//", 1);
    forall k | p + 2 <= k < p + 2 + |w|
      ensures t[k] != '\n'
    {
      HoldsAt(t, p + 2, w, k - (p + 2));
    }
    LineEnds(t, p + 2, p + 2 + |w|);
  }

  lemma BlockReads(t: string, p: nat, w: string)
    requires Holds(t, p, "/*" + w + "*/") && RemarkFits(Block(w))
    ensures p < |t| && t[p] == '/' && Comment(t, p) == Ok(p + 4 + |w|, ())
  {
    hide Holds;
    HoldsEnds(t, p, "/*" + w + "*/");
    HoldsSplit(t, p, "/*" + w, "*/");
    HoldsSplit(t, p, "/*", w);
    HoldsAt(t, p, "/*", 0);
    HoldsAt(t, p, "/*", 1);
    var q := p + 2 + |w|;
    HoldsAt(t, q, "*/", 0);
    HoldsAt(t, q, "*/", 1);
    forall k | p + 2 <= k < q
      ensures !(t[k] == '*' && t[k + 1] == '/')
    {
      HoldsAt(t, p + 2, w, k - (p + 2));
      if k + 1 < q {
        HoldsAt(t, p + 2, w, k - (p + 2) + 1);
      }
    }
    BlockEnds(t, p + 2, q);
  }

  lemma HoldsEnds(t: string, p: nat, w: string)
    requires Holds(t, p, w)
    ensures p + |w| <= |t|
  {
  }

  /** A remark is read as a comment, if a line ends behind it where it has to. */
  lemma RemarkReads(t: string, p: nat, c: Remark)
    requires Holds(t, p, RemarkText(c)) && RemarkFits(c)
    requires var q := p + |RemarkText(c)|; c.Line? && q < |t| ==> t[q] == '\n'
    ensures p < |t| && t[p] == '/' && Comment(t, p) == Ok(p + |RemarkText(c)|, ())
  {
    hide Holds, Comment, RemarkFits;
    match c {
      case Line(w) => LineReads(t, p, w);
      case Block(w) => BlockReads(t, p, w);
    }
  }

  lemma GapParts(t: string, p: nat, g: Gap)
    requires g.Remarked? && Holds(t, p, GapText(g))
    ensures var q := p + |g.space|; var r := q + |RemarkText(g.remark)|;
            && Holds(t, p, g.space) && Holds(t, q, RemarkText(g.remark)) && Holds(t, r, GapText(g.rest))
            && r + |GapText(g.rest)| == p + |GapText(g)|
  {
    hide Holds;
    HoldsSplit(t, p, g.space + RemarkText(g.remark), GapText(g.rest));
    HoldsSplit(t, p, g.space, RemarkText(g.remark));
  }

  /** A gap ends where neither white space nor, with comments, a slash stands. */
  predicate StopsAt(t: string, q: nat, comments: bool) {
    !IsSpace(At(t, q)) && (comments ==> At(t, q) != '/')
  }

  lemma {:induction false} RemarksRead(t: string, p: nat, g: Gap, last: bool)
    requires Holds(t, p, GapText(g)) && GapFits(g, true, last) && StopsAt(t, p + |GapText(g)|, true)
    requires last ==> p + |GapText(g)| == |t|
    ensures Comments(t, SkipSpace(t, p)) == Ok(p + |GapText(g)|, ())
    decreases g
  {
    hide Holds, Blank, RemarkFits;
    match g {
      case Space(w) => BlankSkips(t, p, w);
      case Remarked(w, c, rest) =>
        GapParts(t, p, g);
        var q := p + |w|;
        var r := q + |RemarkText(c)|;
        if GapText(rest) != "" {
          HoldsAt(t, r, GapText(rest), 0);
        }
        RemarkReads(t, q, c);
        BlankSkips(t, p, w);
        RemarksRead(t, r, rest, last);
    }
  }

  /** A gap is skipped up to what stands behind it. */
  lemma GapReads(t: string, p: nat, g: Gap, comments: bool, last: bool)
    requires Holds(t, p, GapText(g)) && GapFits(g, comments, last) && StopsAt(t, p + |GapText(g)|, comments)
    requires last ==> p + |GapText(g)| == |t|
    ensures Garbage(t, p, comments) == Ok(p + |GapText(g)|, ())
  {
    if comments {
      RemarksRead(t, p, g, last);
    } else {
      BlankSkips(t, p, g.space);
    }
  }

  // ---- What is skipped is a gap ----

  lemma {:induction false} SkippedBlank(t: string, p: nat)
    requires p <= |t|
    ensures Blank(t[p..SkipSpace(t, p)])
    decreases |t| - p
  {
    if p < |t| && IsSpace(t[p]) {
      SkippedBlank(t, p + 1);
      assert t[p..SkipSpace(t, p)] == [t[p]] + t[p + 1..SkipSpace(t, p)];
    }
  }

  lemma {:induction false} SkippedLine(t: string, p: nat)
    requires p <= |t|
    ensures var q := LineEnd(t, p); RemarkFits(Line(t[p..q])) && (q < |t| ==> t[q] == '\n')
    decreases |t| - p
  {
    if p < |t| && t[p] != '\n' {
      SkippedLine(t, p + 1);
      assert t[p..LineEnd(t, p)] == [t[p]] + t[p + 1..LineEnd(t, p)];
    }
  }

  lemma {:induction false} SkippedBlock(t: string, p: nat)
    requires p <= |t| && BlockEnd(t, p).Ok?
    ensures var q := BlockEnd(t, p).pos - 2;
            p <= q && q + 2 <= |t| && t[q] == '*' && t[q + 1] == '/' && RemarkFits(Block(t[p..q]))
    decreases |t| - p
  {
    if !(t[p] == '*' && t[p + 1] == '/') {
      SkippedBlock(t, p + 1);
      var q := BlockEnd(t, p).pos - 2;
      var w, w' := t[p..q], t[p + 1..q];
      assert forall k :: 1 <= k < |w| ==> w[k] == w'[k - 1];
    }
  }

  lemma FindRemark(t: string, p: nat) returns (c: Remark)
    requires p < |t| && t[p] == '/' && Comment(t, p).Ok?
    ensures RemarkFits(c) && Holds(t, p, RemarkText(c)) && p + |RemarkText(c)| == Comment(t, p).pos
    ensures c.Line? && Comment(t, p).pos < |t| ==> t[Comment(t, p).pos] == '\n'
  {
    hide Holds, RemarkFits, BlockEnd, LineEnd;
    HoldsOwn(t, p, p + 2);
    if t[p + 1] == '/' {
      SkippedLine(t, p + 2);
      var q := LineEnd(t, p + 2);
      c := Line(t[p + 2..q]);
      HoldsOwn(t, p + 2, q);
      HoldsJoin(t, p, "//", t[p + 2..q]);
    } else {
      SkippedBlock(t, p + 2);
      var q := BlockEnd(t, p + 2).pos - 2;
      c := Block(t[p + 2..q]);
      HoldsOwn(t, p + 2, q);
      HoldsOwn(t, q, q + 2);
      HoldsJoin(t, p, "/*", t[p + 2..q]);
      HoldsJoin(t, p, "/*" + t[p + 2..q], "*/");
    }
  }

  lemma {:induction false} FindRemarks(t: string, p: nat) returns (g: Gap)
    requires p <= |t| && Comments(t, SkipSpace(t, p)).Ok?
    ensures var q := Comments(t, SkipSpace(t, p)).pos;
            && Holds(t, p, GapText(g)) && p + |GapText(g)| == q && GapFits(g, true, q == |t|) && StopsAt(t, q, true)
    decreases |t| - p
  {
    hide Holds, Blank, RemarkFits, Comment, RemarkText;
    var i := SkipSpace(t, p);
    SkippedBlank(t, p);
    HoldsOwn(t, p, i);
    if At(t, i) != '/' {
      g := Space(t[p..i]);
    } else {
      var c := FindRemark(t, i);
      var j := Comment(t, i).pos;
      var rest := FindRemarks(t, j);
      g := Remarked(t[p..i], c, rest);
      HoldsJoin(t, p, t[p..i], RemarkText(c));
      HoldsJoin(t, p, t[p..i] + RemarkText(c), GapText(rest));
      FirstOf(t, j, GapText(rest));
    }
  }

  lemma HoldsOwn(t: string, p: nat, q: nat)
    requires p <= q <= |t|
    ensures Holds(t, p, t[p..q])
  {
  }

  lemma FirstOf(t: string, p: nat, w: string)
    requires Holds(t, p, w)
    ensures w != "" ==> p < |t| && w[0] == t[p]
    ensures p <= |t|
  {
  }

  /** What is skipped is a gap. */
  lemma FindGap(t: string, p: nat, comments: bool) returns (g: Gap)
    requires p <= |t| && Garbage(t, p, comments).Ok?
    ensures var q := Garbage(t, p, comments).pos;
            && Holds(t, p, GapText(g)) && p + |GapText(g)| == q
            && GapFits(g, comments, q == |t|) && StopsAt(t, q, comments)
  {
    if comments {
      g := FindRemarks(t, p);
    } else {
      SkippedBlank(t, p);
      g := Space(t[p..SkipSpace(t, p)]);
    }
  }
}
