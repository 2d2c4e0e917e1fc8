/**
 * `drawTextWithEmailsAndUrls` and `addLinkAnnotation`: one wrapped line is
 * drawn left to right; plain text in black, and every email address or URL
 * the scanner finds in blue, underlined, with a clickable `mailto:` link
 * annotation over it.
 */
module LinkedText {
  import opened Wrappers
  import opened LinkScanner
  import opened PdfCanvas

  // ---------------------------------------------------------------------------
  // What a line turns into
  // ---------------------------------------------------------------------------

  /** Plain text is drawn in the default colour, and only when it is not empty. */
  function PlainOps(text: string, x: real, y: real): seq<DrawOp>
  {
    if text == "" then [] else [Text(text, x, y, Black)]
  }

  /**
   * A link of width `w` at `x`: the text in blue, a blue underline two units
   * below the baseline, and a link annotation one font size high over the text.
   */
  function LinkOps(text: string, x: real, y: real, w: real): seq<DrawOp>
  {
    [ Text(text, x, y, Blue),
      Line(x, y - 2.0, x + w, y - 2.0),
      Annot(LinkAnnotation(Rect(x, y, x + w, y + FontSize), "mailto:" + text)) ]
  }

  /** `ms` are non-empty matches inside `line[from..]`, in order and not overlapping. */
  predicate InOrder(line: string, from: nat, ms: seq<Match>)
    decreases |ms|
  {
    from <= |line|
    && (ms == [] || (from <= ms[0].start < ms[0].end <= |line| && InOrder(line, ms[0].end, ms[1..])))
  }

  /** The cursor after the gap before match `m`: the gap moves it only when it is drawn. */
  function GapEnd(width: TextWidth, line: string, from: nat, m: Match, x: real): real
    requires from <= m.start <= |line|
  {
    if line[from..m.start] == "" then x else x + width(line[from..m.start], FontSize)
  }

  /** The cursor after match `m`. */
  function LinkEnd(width: TextWidth, line: string, from: nat, m: Match, x: real): real
    requires from <= m.start <= m.end <= |line|
  {
    GapEnd(width, line, from, m, x) + width(line[m.start..m.end], FontSize)
  }

  /**
   * The operations drawn for `line[from..]` with the cursor at `x` when the
   * scan finds the matches `ms`: the gap before the next match (its width
   * moves the cursor only when it is drawn), the match as a link, then the
   * rest from the end of the match.
   */
  function LineOps(width: TextWidth, line: string, from: nat, ms: seq<Match>, x: real, y: real): seq<DrawOp>
    requires InOrder(line, from, ms)
    decreases |ms|
  {
    if ms == [] then PlainOps(line[from..], x, y)
    else
      PlainOps(line[from..ms[0].start], x, y)
        + LinkOps(line[ms[0].start..ms[0].end], GapEnd(width, line, from, ms[0], x), y, width(line[ms[0].start..ms[0].end], FontSize))
        + LineOps(width, line, ms[0].end, ms[1..], LinkEnd(width, line, from, ms[0], x), y)
  }

  /** The scan's matches are in order. */
  lemma {:induction false} MatchesInOrder(line: string, from: nat)
    requires from <= |line|
    ensures InOrder(line, from, Matches(line, from))
    decreases |line| - from
  {
    match NextMatch(line, from)
    case None =>
    case Some(m) =>
      MatchesInOrder(line, m.end);
      assert Matches(line, from) == [m] + Matches(line, m.end);
      assert Matches(line, from)[1..] == Matches(line, m.end);
  }

  /** `Matches` continues after each match `exec` reports, and ends when it reports none. */
  lemma {:induction false} MatchesStep(line: string, from: nat, m: Match)
    requires from <= |line| && NextMatch(line, from) == Some(m)
    ensures Matches(line, from) != [] && Matches(line, from)[0] == m && Matches(line, from)[1..] == Matches(line, m.end)
  {
  }

  lemma {:induction false} AppendAssoc<T>(a: seq<T>, b: seq<T>, c: seq<T>)
    ensures a + b + c == a + (b + c)
  {
  }

  lemma {:induction false} MatchesDone(line: string, from: nat)
    requires from <= |line| && NextMatch(line, from).None?
    ensures Matches(line, from) == []
  {
  }

  /** What `drawTextWithEmailsAndUrls` draws for `line` starting at `x` on baseline `y`. */
  function RunOps(width: TextWidth, line: string, x: real, y: real): seq<DrawOp>
  {
    MatchesInOrder(line, 0);
    LineOps(width, line, 0, Matches(line, 0), x, y)
  }

  // ---------------------------------------------------------------------------
  // The drawing procedures
  // ---------------------------------------------------------------------------

  /**
   * `addLinkAnnotation`: appends a link annotation over the rectangle to the
   * page's annotation list (whether or not the page had one before).
   */
  method AddLinkAnnotation(page: PdfPage, x: real, y: real, width: real, height: real, url: string)
    modifies page
    ensures page.ops == old(page.ops) + [Annot(LinkAnnotation(Rect(x, y, x + width, y + height), url))]
  {
    page.Draw(Annot(LinkAnnotation(Rect(x, y, x + width, y + height), url)));
  }

  /** Draws `text` in the default colour at `x`, unless it is empty. */
  method DrawPlain(page: PdfPage, text: string, x: real, y: real)
    modifies page
    ensures page.ops == old(page.ops) + PlainOps(text, x, y)
  {
    if text != "" {
      page.Draw(Text(text, x, y, Black));
    }
  }

  /** Draws a match of width `w` at `x` in blue, underlines it, and makes it a `mailto:` link. */
  method DrawLink(page: PdfPage, text: string, x: real, y: real, w: real)
    modifies page
    ensures page.ops == old(page.ops) + LinkOps(text, x, y, w)
  {
    page.Draw(Text(text, x, y, Blue));
    page.Draw(Line(x, y - 2.0, x + w, y - 2.0));
    AddLinkAnnotation(page, x, y, w, FontSize, "mailto:" + text);
  }

  /**
   * One round of the scanning loop: the text between `lastIndex` and match
   * `m` in black (when there is any), then `m` as a link; returns the cursor
   * after the match.
   */
  method DrawUpToMatch(page: PdfPage, width: TextWidth, line: string, lastIndex: nat, m: Match, currentX: real, y: real)
    returns (nextX: real)
    requires lastIndex <= m.start <= m.end <= |line|
    modifies page
    ensures page.ops == old(page.ops) + PlainOps(line[lastIndex..m.start], currentX, y)
      + LinkOps(line[m.start..m.end], GapEnd(width, line, lastIndex, m, currentX), y, width(line[m.start..m.end], FontSize))
    ensures nextX == LinkEnd(width, line, lastIndex, m, currentX)
  {
    nextX := currentX;
    var precedingText := line[lastIndex..m.start];
    DrawPlain(page, precedingText, nextX, y);
    if precedingText != "" {
      nextX := nextX + width(precedingText, FontSize);
    }
    var emailText := line[m.start..m.end];
    var emailWidth := width(emailText, FontSize);
    DrawLink(page, emailText, nextX, y, emailWidth);
    nextX := nextX + emailWidth;
  }

  /** `drawTextWithEmailsAndUrls(page, line, startX, y)`. */
  method DrawTextWithEmailsAndUrls(page: PdfPage, width: TextWidth, line: string, startX: real, y: real)
    modifies page
    ensures page.ops == old(page.ops) + RunOps(width, line, startX, y)
  {
    var currentX := startX;
    var lastIndex: nat := 0;
    ghost var drawn: seq<DrawOp> := [];
    MatchesInOrder(line, 0);
    var found := NextMatch(line, lastIndex);
    while found.Some?
      invariant lastIndex <= |line|
      invariant found == NextMatch(line, lastIndex)
      invariant InOrder(line, lastIndex, Matches(line, lastIndex))
      invariant page.ops == old(page.ops) + drawn
      invariant drawn + LineOps(width, line, lastIndex, Matches(line, lastIndex), currentX, y) == RunOps(width, line, startX, y)
      decreases |line| - lastIndex
    {
      var m := found.value;
      ghost var ms := Matches(line, lastIndex);
      MatchesStep(line, lastIndex, m);
      LineOpsUnfold(width, line, lastIndex, ms, currentX, y);
      ghost var gapOps := PlainOps(line[lastIndex..m.start], currentX, y);
      ghost var linkOps := LinkOps(line[m.start..m.end], GapEnd(width, line, lastIndex, m, currentX), y, width(line[m.start..m.end], FontSize));
      ghost var rest := LineOps(width, line, m.end, ms[1..], LinkEnd(width, line, lastIndex, m, currentX), y);
      AppendAssoc(drawn, gapOps + linkOps, rest);
      AppendAssoc(old(page.ops), drawn, gapOps + linkOps);
      AppendAssoc(old(page.ops) + drawn, gapOps, linkOps);
      currentX := DrawUpToMatch(page, width, line, lastIndex, m, currentX, y);
      drawn := drawn + (gapOps + linkOps);
      MatchesInOrder(line, m.end);
      lastIndex := m.end;
      found := NextMatch(line, lastIndex);
    }
    var remainingText := line[lastIndex..];
    MatchesDone(line, lastIndex);
    ghost var tail := PlainOps(remainingText, currentX, y);
    assert drawn + tail == RunOps(width, line, startX, y);
    ghost var before := page.ops;
    DrawPlain(page, remainingText, currentX, y);
    AppendAssoc(old(page.ops), drawn, tail);
    assert page.ops == before + tail;
  }

  // ---------------------------------------------------------------------------
  // Reading a drawing back
  // ---------------------------------------------------------------------------

  /** The pieces `f` picks out of each operation, in drawing order. */
  function Collect<T>(ops: seq<DrawOp>, f: DrawOp -> seq<T>): seq<T>
  {
    if ops == [] then [] else f(ops[0]) + Collect(ops[1..], f)
  }

  function TextPart(op: DrawOp): string { if op.Text? then op.text else "" }
  function BluePart(op: DrawOp): seq<string> { if op.Text? && op.color == Blue then [op.text] else [] }
  function LinkPart(op: DrawOp): seq<string> { if op.Annot? then [op.annotation.uri] else [] }
  function RunPart(op: DrawOp): seq<DrawOp> { if op.Text? then [op] else [] }

  /** All drawn text, concatenated. */
  function Texts(ops: seq<DrawOp>): string { Collect(ops, TextPart) }
  /** The texts drawn in blue. */
  function BlueTexts(ops: seq<DrawOp>): seq<string> { Collect(ops, BluePart) }
  /** The targets of the link annotations. */
  function Links(ops: seq<DrawOp>): seq<string> { Collect(ops, LinkPart) }
  /** The text operations. */
  function Runs(ops: seq<DrawOp>): seq<DrawOp> { Collect(ops, RunPart) }

  /**
   * The operations are a sequence of non-empty black texts and link triples
   * (blue non-empty text, its underline, its annotation), all on baseline `y`.
   */
  predicate WellLinked(width: TextWidth, ops: seq<DrawOp>, y: real)
    decreases |ops|
  {
    ops == []
    || (ops[0].Text? && ops[0].color == Black && ops[0].text != "" && ops[0].y == y
        && WellLinked(width, ops[1..], y))
    || (|ops| >= 3 && ops[0].Text? && ops[0].color == Blue && ops[0].text != "" && ops[0].y == y
        && ops[..3] == LinkOps(ops[0].text, ops[0].x, y, width(ops[0].text, FontSize))
        && WellLinked(width, ops[3..], y))
  }

  /** Text runs laid end to end from `x`: each starts where the previous one ends. */
  predicate Chained(width: TextWidth, runs: seq<DrawOp>, x: real)
  {
    runs == [] || (runs[0].Text? && runs[0].x == x && Chained(width, runs[1..], x + width(runs[0].text, FontSize)))
  }

  /** Where the cursor is after the runs. */
  function Advance(width: TextWidth, runs: seq<DrawOp>, x: real): real
  {
    if runs == [] then x
    else Advance(width, runs[1..], x + (if runs[0].Text? then width(runs[0].text, FontSize) else 0.0))
  }

  lemma {:induction false} CollectAppend<T>(a: seq<DrawOp>, b: seq<DrawOp>, f: DrawOp -> seq<T>)
    ensures Collect(a + b, f) == Collect(a, f) + Collect(b, f)
    decreases |a|
  {
    if a == [] {
      assert a + b == b;
    } else {
      assert (a + b)[0] == a[0];
      assert (a + b)[1..] == a[1..] + b;
      CollectAppend(a[1..], b, f);
    }
  }

  lemma {:induction false} WellLinkedAppend(width: TextWidth, a: seq<DrawOp>, b: seq<DrawOp>, y: real)
    requires WellLinked(width, a, y) && WellLinked(width, b, y)
    ensures WellLinked(width, a + b, y)
    decreases |a|
  {
    if a == [] {
      assert a + b == b;
    } else if a[0].Text? && a[0].color == Black && a[0].text != "" && a[0].y == y && WellLinked(width, a[1..], y) {
      WellLinkedAppend(width, a[1..], b, y);
      WellLinkedSkip(width, a, b, y, 1);
    } else {
      WellLinkedAppend(width, a[3..], b, y);
      WellLinkedSkip(width, a, b, y, 3);
    }
  }

  /** The first step of `WellLinked(a, y)`, the black text or the link triple `a[..n]`, also starts `a + b`. */
  lemma {:induction false} WellLinkedSkip(width: TextWidth, a: seq<DrawOp>, b: seq<DrawOp>, y: real, n: nat)
    requires 0 < n <= |a| && (n == 1 || n == 3)
    requires a[0].Text? && a[0].text != "" && a[0].y == y
    requires n == 1 ==> a[0].color == Black
    requires n == 3 ==> a[0].color == Blue && a[..3] == LinkOps(a[0].text, a[0].x, y, width(a[0].text, FontSize))
    requires WellLinked(width, a[n..] + b, y)
    ensures WellLinked(width, a + b, y)
  {
    assert (a + b)[0] == a[0];
    assert (a + b)[n..] == a[n..] + b;
    if n == 3 {
      assert (a + b)[..3] == a[..3];
    }
  }

  lemma {:induction false} ChainedAppend(width: TextWidth, a: seq<DrawOp>, b: seq<DrawOp>, x: real)
    requires Chained(width, a, x) && Chained(width, b, Advance(width, a, x))
    ensures Chained(width, a + b, x)
    decreases |a|
  {
    if a == [] {
      assert a + b == b;
    } else {
      assert (a + b)[1..] == a[1..] + b;
      ChainedAppend(width, a[1..], b, x + width(a[0].text, FontSize));
    }
  }

  lemma {:induction false} AdvanceAppend(width: TextWidth, a: seq<DrawOp>, b: seq<DrawOp>, x: real)
    ensures Advance(width, a + b, x) == Advance(width, b, Advance(width, a, x))
    decreases |a|
  {
    if a == [] {
      assert a + b == b;
    } else {
      assert (a + b)[1..] == a[1..] + b;
      AdvanceAppend(width, a[1..], b, x + (if a[0].Text? then width(a[0].text, FontSize) else 0.0));
    }
  }

  lemma {:induction false} CollectOne<T>(a: DrawOp, f: DrawOp -> seq<T>)
    ensures Collect([a], f) == f(a)
  {
    assert [a][1..] == [];
  }

  lemma {:induction false} CollectThree<T>(l: seq<DrawOp>, f: DrawOp -> seq<T>)
    requires |l| == 3
    ensures Collect(l, f) == f(l[0]) + f(l[1]) + f(l[2])
  {
    assert l == [l[0]] + [l[1]] + [l[2]];
    CollectOne(l[0], f); CollectOne(l[1], f); CollectOne(l[2], f);
    CollectAppend([l[0]] + [l[1]], [l[2]], f);
    CollectAppend([l[0]], [l[1]], f);
  }

  /** What a plain run spells, and that it is well formed. */
  lemma {:induction false} PlainTexts(width: TextWidth, text: string, x: real, y: real)
    ensures Texts(PlainOps(text, x, y)) == text
    ensures WellLinked(width, PlainOps(text, x, y), y)
  {
    if text != "" {
      CollectOne(Text(text, x, y, Black), TextPart);
      assert PlainOps(text, x, y)[1..] == [];
    }
  }

  /** A plain run is its own text operation, and moves the cursor by its width when drawn. */
  lemma {:induction false} PlainRuns(width: TextWidth, text: string, x: real, y: real)
    ensures Runs(PlainOps(text, x, y)) == PlainOps(text, x, y)
    ensures Advance(width, PlainOps(text, x, y), x) == if text == "" then x else x + width(text, FontSize)
    ensures Chained(width, PlainOps(text, x, y), x)
  {
    if text != "" {
      CollectOne(Text(text, x, y, Black), RunPart);
      assert PlainOps(text, x, y)[1..] == [];
    }
  }

  /** A plain run holds no blue text and no link. */
  lemma {:induction false} PlainTargets(text: string, x: real, y: real)
    ensures BlueTexts(PlainOps(text, x, y)) == []
    ensures Links(PlainOps(text, x, y)) == []
  {
    if text != "" {
      CollectOne(Text(text, x, y, Black), BluePart);
      CollectOne(Text(text, x, y, Black), LinkPart);
    }
  }

  /** What a link triple spells, and that it is well formed. */
  lemma {:induction false} LinkTexts(width: TextWidth, text: string, x: real, y: real)
    requires text != ""
    ensures Texts(LinkOps(text, x, y, width(text, FontSize))) == text
    ensures WellLinked(width, LinkOps(text, x, y, width(text, FontSize)), y)
  {
    var l := LinkOps(text, x, y, width(text, FontSize));
    CollectThree(l, TextPart);
    assert l[3..] == [];
  }

  /** The one text operation of a link triple, and where it leaves the cursor. */
  lemma {:induction false} LinkRuns(width: TextWidth, text: string, x: real, y: real)
    ensures Runs(LinkOps(text, x, y, width(text, FontSize))) == [Text(text, x, y, Blue)]
    ensures Advance(width, [Text(text, x, y, Blue)], x) == x + width(text, FontSize)
    ensures Chained(width, [Text(text, x, y, Blue)], x)
  {
    CollectThree(LinkOps(text, x, y, width(text, FontSize)), RunPart);
    assert [Text(text, x, y, Blue)][1..] == [];
  }

  /** The blue text and the link target of a link triple. */
  lemma {:induction false} LinkTargets(text: string, x: real, y: real, w: real)
    ensures BlueTexts(LinkOps(text, x, y, w)) == [text]
    ensures Links(LinkOps(text, x, y, w)) == ["mailto:" + text]
  {
    CollectThree(LinkOps(text, x, y, w), BluePart);
    CollectThree(LinkOps(text, x, y, w), LinkPart);
  }

  // ---------------------------------------------------------------------------
  // Properties of a drawn line
  // ---------------------------------------------------------------------------

  /** One step of `LineOps`: the gap, the first link, and the rest. */
  lemma {:induction false} LineOpsUnfold(width: TextWidth, line: string, from: nat, ms: seq<Match>, x: real, y: real)
    requires InOrder(line, from, ms) && ms != []
    ensures LineOps(width, line, from, ms, x, y)
      == PlainOps(line[from..ms[0].start], x, y)
         + LinkOps(line[ms[0].start..ms[0].end], GapEnd(width, line, from, ms[0], x), y, width(line[ms[0].start..ms[0].end], FontSize))
         + LineOps(width, line, ms[0].end, ms[1..], LinkEnd(width, line, from, ms[0], x), y)
  {
  }

  lemma {:induction false} SplitAround(s: string, i: nat, j: nat, k: nat)
    requires i <= j <= k <= |s|
    ensures s[i..] == s[i..j] + s[j..k] + s[k..]
  {
  }

  lemma {:induction false} SpellStep(width: TextWidth, line: string, from: nat, ms: seq<Match>, x: real, y: real)
    requires InOrder(line, from, ms) && ms != []
    requires Texts(LineOps(width, line, ms[0].end, ms[1..], LinkEnd(width, line, from, ms[0], x), y)) == line[ms[0].end..]
    requires WellLinked(width, LineOps(width, line, ms[0].end, ms[1..], LinkEnd(width, line, from, ms[0], x), y), y)
    ensures Texts(LineOps(width, line, from, ms, x, y)) == line[from..]
    ensures WellLinked(width, LineOps(width, line, from, ms, x, y), y)
  {
    var m := ms[0];
    var gap := line[from..m.start];
    var text := line[m.start..m.end];
    var gx := GapEnd(width, line, from, m, x);
    var p := PlainOps(gap, x, y);
    var l := LinkOps(text, gx, y, width(text, FontSize));
    var rest := LineOps(width, line, m.end, ms[1..], LinkEnd(width, line, from, m, x), y);
    LineOpsUnfold(width, line, from, ms, x, y);
    SplitAround(line, from, m.start, m.end);
    PlainTexts(width, gap, x, y);
    LinkTexts(width, text, gx, y);
    CollectAppend(p, l, TextPart);
    CollectAppend(p + l, rest, TextPart);
    WellLinkedAppend(width, p, l, y);
    WellLinkedAppend(width, p + l, rest, y);
  }

  /**
   * Every character of `line[from..]` is drawn exactly once and in order, no
   * empty text is drawn, every match becomes a complete link triple, and
   * everything sits on the same baseline.
   */
  lemma {:induction false} LineOpsSpellLine(width: TextWidth, line: string, from: nat, ms: seq<Match>, x: real, y: real)
    requires InOrder(line, from, ms)
    ensures Texts(LineOps(width, line, from, ms, x, y)) == line[from..]
    ensures WellLinked(width, LineOps(width, line, from, ms, x, y), y)
    decreases |ms|
  {
    if ms == [] {
      PlainTexts(width, line[from..], x, y);
    } else {
      LineOpsSpellLine(width, line, ms[0].end, ms[1..], LinkEnd(width, line, from, ms[0], x), y);
      SpellStep(width, line, from, ms, x, y);
    }
  }

  lemma {:induction false} ChainStep(width: TextWidth, line: string, from: nat, ms: seq<Match>, x: real, y: real)
    requires InOrder(line, from, ms) && ms != []
    requires Chained(width, Runs(LineOps(width, line, ms[0].end, ms[1..], LinkEnd(width, line, from, ms[0], x), y)), LinkEnd(width, line, from, ms[0], x))
    ensures Chained(width, Runs(LineOps(width, line, from, ms, x, y)), x)
  {
    var m := ms[0];
    var gap := line[from..m.start];
    var text := line[m.start..m.end];
    var gx := GapEnd(width, line, from, m, x);
    var p := PlainOps(gap, x, y);
    var l := LinkOps(text, gx, y, width(text, FontSize));
    var rest := LineOps(width, line, m.end, ms[1..], LinkEnd(width, line, from, m, x), y);
    LineOpsUnfold(width, line, from, ms, x, y);
    PlainRuns(width, gap, x, y);
    LinkRuns(width, text, gx, y);
    var lr := [Text(text, gx, y, Blue)];
    CollectAppend(p, l, RunPart);
    CollectAppend(p + l, rest, RunPart);
    assert Runs(LineOps(width, line, from, ms, x, y)) == p + lr + Runs(rest);
    assert Advance(width, p, x) == gx;
    ChainedAppend(width, p, lr, x);
    AdvanceAppend(width, p, lr, x);
    ChainedAppend(width, p + lr, Runs(rest), x);
  }

  /** The pieces of the line are drawn side by side: each starts where the previous one ends. */
  lemma {:induction false} LineOpsChained(width: TextWidth, line: string, from: nat, ms: seq<Match>, x: real, y: real)
    requires InOrder(line, from, ms)
    ensures Chained(width, Runs(LineOps(width, line, from, ms, x, y)), x)
    decreases |ms|
  {
    if ms == [] {
      PlainRuns(width, line[from..], x, y);
    } else {
      LineOpsChained(width, line, ms[0].end, ms[1..], LinkEnd(width, line, from, ms[0], x), y);
      ChainStep(width, line, from, ms, x, y);
    }
  }

  lemma {:induction false} LinksStep(width: TextWidth, line: string, from: nat, ms: seq<Match>, x: real, y: real)
    requires InOrder(line, from, ms) && ms != []
    ensures BlueTexts(LineOps(width, line, from, ms, x, y))
      == [line[ms[0].start..ms[0].end]] + BlueTexts(LineOps(width, line, ms[0].end, ms[1..], LinkEnd(width, line, from, ms[0], x), y))
    ensures Links(LineOps(width, line, from, ms, x, y))
      == ["mailto:" + line[ms[0].start..ms[0].end]] + Links(LineOps(width, line, ms[0].end, ms[1..], LinkEnd(width, line, from, ms[0], x), y))
  {
    var m := ms[0];
    var gap := line[from..m.start];
    var text := line[m.start..m.end];
    var gx := GapEnd(width, line, from, m, x);
    var p := PlainOps(gap, x, y);
    var l := LinkOps(text, gx, y, width(text, FontSize));
    var rest := LineOps(width, line, m.end, ms[1..], LinkEnd(width, line, from, m, x), y);
    LineOpsUnfold(width, line, from, ms, x, y);
    PlainTargets(gap, x, y);
    LinkTargets(text, gx, y, width(text, FontSize));
    CollectAppend(p, l, BluePart);
    CollectAppend(p + l, rest, BluePart);
    CollectAppend(p, l, LinkPart);
    CollectAppend(p + l, rest, LinkPart);
  }

  /**
   * The blue texts are exactly the matched texts, in order, and there is one
   * link annotation per match, pointing to `mailto:` followed by its text.
   */
  lemma {:induction false} LineOpsLinks(width: TextWidth, line: string, from: nat, ms: seq<Match>, x: real, y: real)
    requires InOrder(line, from, ms)
    ensures |BlueTexts(LineOps(width, line, from, ms, x, y))| == |ms|
    ensures |Links(LineOps(width, line, from, ms, x, y))| == |ms|
    ensures forall k :: 0 <= k < |ms| ==>
      ms[k].start <= ms[k].end <= |line|
      && BlueTexts(LineOps(width, line, from, ms, x, y))[k] == line[ms[k].start..ms[k].end]
      && Links(LineOps(width, line, from, ms, x, y))[k] == "mailto:" + line[ms[k].start..ms[k].end]
    decreases |ms|
  {
    if ms == [] {
      PlainTargets(line[from..], x, y);
    } else {
      var rest := LineOps(width, line, ms[0].end, ms[1..], LinkEnd(width, line, from, ms[0], x), y);
      LineOpsLinks(width, line, ms[0].end, ms[1..], LinkEnd(width, line, from, ms[0], x), y);
      LinksStep(width, line, from, ms, x, y);
      var bs := BlueTexts(LineOps(width, line, from, ms, x, y));
      var ls := Links(LineOps(width, line, from, ms, x, y));
      forall k | 0 <= k < |ms|
        ensures ms[k].start <= ms[k].end <= |line|
        ensures bs[k] == line[ms[k].start..ms[k].end]
        ensures ls[k] == "mailto:" + line[ms[k].start..ms[k].end]
      {
        if k > 0 {
          assert ms[k] == ms[1..][k - 1];
          assert bs[k] == BlueTexts(rest)[k - 1];
          assert ls[k] == Links(rest)[k - 1];
        }
      }
    }
  }

  /**
   * A drawn line, in full: its text read back is the line, every piece is a
   * plain run or a link triple on baseline `y`, the pieces sit side by side
   * from `x`, and the blue texts and link targets are the scan's matches.
   */
  lemma {:induction false} DrawnLine(width: TextWidth, line: string, x: real, y: real)
    ensures Texts(RunOps(width, line, x, y)) == line
    ensures WellLinked(width, RunOps(width, line, x, y), y)
    ensures Chained(width, Runs(RunOps(width, line, x, y)), x)
    ensures |BlueTexts(RunOps(width, line, x, y))| == |Links(RunOps(width, line, x, y))| == |Matches(line, 0)|
    ensures forall k :: 0 <= k < |Matches(line, 0)| ==>
      Matches(line, 0)[k].start <= Matches(line, 0)[k].end <= |line|
      && BlueTexts(RunOps(width, line, x, y))[k] == MatchText(line, Matches(line, 0)[k])
      && Links(RunOps(width, line, x, y))[k] == "mailto:" + MatchText(line, Matches(line, 0)[k])
  {
    var ms := Matches(line, 0);
    MatchesInOrder(line, 0);
    MatchesOrdered(line, 0);
    LineOpsSpellLine(width, line, 0, ms, x, y);
    LineOpsChained(width, line, 0, ms, x, y);
    LineOpsLinks(width, line, 0, ms, x, y);
    assert line[0..] == line;
  }

  /** A well-linked sequence draws no image, and every text in it sits on baseline `y`. */
  lemma {:induction false} WellLinkedOnBaseline(width: TextWidth, ops: seq<DrawOp>, y: real)
    requires WellLinked(width, ops, y)
    ensures forall j :: 0 <= j < |ops| ==> !ops[j].Image? && (ops[j].Text? ==> ops[j].y == y)
    decreases |ops|
  {
    if ops != [] {
      if ops[0].Text? && ops[0].color == Black && ops[0].text != "" && ops[0].y == y && WellLinked(width, ops[1..], y) {
        WellLinkedOnBaseline(width, ops[1..], y);
        forall j | 1 <= j < |ops| ensures !ops[j].Image? && (ops[j].Text? ==> ops[j].y == y) {
          assert ops[j] == ops[1..][j - 1];
        }
      } else {
        WellLinkedOnBaseline(width, ops[3..], y);
        assert ops[1] == ops[..3][1] && ops[2] == ops[..3][2];
        forall j | 3 <= j < |ops| ensures !ops[j].Image? && (ops[j].Text? ==> ops[j].y == y) {
          assert ops[j] == ops[3..][j - 3];
        }
      }
    }
  }

  /** The texts of a drawn line spell the line. */
  lemma {:induction false} RunOpsSpell(width: TextWidth, line: string, x: real, y: real)
    ensures Texts(RunOps(width, line, x, y)) == line
  {
    MatchesInOrder(line, 0);
    LineOpsSpellLine(width, line, 0, Matches(line, 0), x, y);
    assert line[0..] == line;
  }

  /** The operations of a drawn line draw no image and put all text on baseline `y`. */
  lemma {:induction false} RunOpsOnBaseline(width: TextWidth, line: string, x: real, y: real)
    ensures forall j :: 0 <= j < |RunOps(width, line, x, y)| ==>
      !RunOps(width, line, x, y)[j].Image? && (RunOps(width, line, x, y)[j].Text? ==> RunOps(width, line, x, y)[j].y == y)
  {
    MatchesInOrder(line, 0);
    LineOpsSpellLine(width, line, 0, Matches(line, 0), x, y);
    WellLinkedOnBaseline(width, RunOps(width, line, x, y), y);
  }

  /** A line in which the scanner finds nothing is drawn as one black run, or not at all when empty. */
  lemma {:induction false} PlainLine(width: TextWidth, line: string, x: real, y: real)
    requires forall q :: 0 <= q <= |line| ==> MatchAt(line, q).None?
    ensures RunOps(width, line, x, y) == (if line == "" then [] else [Text(line, x, y, Black)])
  {
    assert NextMatch(line, 0).None?;
    assert line[0..] == line;
  }
}
