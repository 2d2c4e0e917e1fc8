/**
 * The page layout of `saveAsPDF`: the sanitized content is split into lines,
 * each line is wrapped, and each subline is drawn at the left margin one line
 * height below the previous one. When the next subline would reach into the
 * footer zone, the footer image is drawn, a new page is added and drawing
 * resumes at the top. A line that wraps to nothing only leaves a gap. The
 * last page gets its footer at the end.
 */
module PdfLayout {
  import opened JsText
  import opened TextSanitizer
  import opened LineWrap
  import opened PdfCanvas
  import opened LinkedText

  /**
   * What `saveAsPDF` takes from its surroundings: the font's `widthOfTextAtSize`,
   * the size pdf-lib gives a new page, and the pixel size of the footer image.
   */
  datatype Env = Env(width: TextWidth, pageWidth: real, pageHeight: real, imageWidth: real, imageHeight: real)

  /** The footer is drawn at 25% of the image's size. */
  function FooterWidth(e: Env): real { e.imageWidth * 0.25 }
  function FooterHeight(e: Env): real { e.imageHeight * 0.25 }

  /** `drawFooterImage()`: the footer image in the bottom-left corner, at the margins. */
  function Footer(e: Env): DrawOp { Image(Margin, Margin, FooterWidth(e), FooterHeight(e)) }

  /** The baseline of the first line on a page. */
  function Top(e: Env): real { e.pageHeight - Margin }

  /** `wrapLine` wraps to `maxLineWidth = pageWidth - margin * 2` at the font size. */
  function WrapMetrics(e: Env): Metrics { Metrics(e.width, FontSize, e.pageWidth - Margin * 2.0) }

  /** `y - lineHeight < margin + footerHeight`: the next subline would reach into the footer zone. */
  predicate NeedsNewPage(e: Env, y: real)
  {
    y - LineHeight < Margin + FooterHeight(e)
  }

  // ---------------------------------------------------------------------------
  // The layout as a function of the content
  // ---------------------------------------------------------------------------

  /** The finished pages (footer included), the operations on the current page, and `y`. */
  datatype Layout = Layout(done: seq<seq<DrawOp>>, current: seq<DrawOp>, y: real)

  /** The first page, empty, with `y` at the top. */
  function Start(e: Env): Layout { Layout([], [], Top(e)) }

  /** One subline: a page break if needed, then the subline at the left margin, then one line down. */
  function PlaceSubline(e: Env, l: Layout, line: string): Layout
  {
    var b := if NeedsNewPage(e, l.y) then Layout(l.done + [l.current + [Footer(e)]], [], Top(e)) else l;
    Layout(b.done, b.current + RunOps(e.width, line, Margin, b.y), b.y - LineHeight)
  }

  /** The sublines placed one after the other. */
  function PlaceSublines(e: Env, l: Layout, lines: seq<string>): Layout
  {
    if lines == [] then l else PlaceSubline(e, PlaceSublines(e, l, lines[..|lines| - 1]), lines[|lines| - 1])
  }

  lemma {:induction false} PlaceSublinesSnoc(e: Env, l: Layout, lines: seq<string>, j: nat)
    requires j < |lines|
    ensures PlaceSublines(e, l, lines[..j + 1]) == PlaceSubline(e, PlaceSublines(e, l, lines[..j]), lines[j])
  {
    assert lines[..j + 1][..j] == lines[..j];
  }

  /** One content line: its sublines, or one line of blank space when it wraps to none. */
  function PlaceLine(e: Env, l: Layout, raw: string): Layout
  {
    var wrapped := Wrapped(WrapMetrics(e), raw);
    var a := PlaceSublines(e, l, wrapped);
    if |wrapped| == 0 then a.(y := a.y - LineHeight) else a
  }

  /** The content lines placed one after the other. */
  function PlaceLines(e: Env, l: Layout, raws: seq<string>): Layout
  {
    if raws == [] then l else PlaceLine(e, PlaceLines(e, l, raws[..|raws| - 1]), raws[|raws| - 1])
  }

  lemma {:induction false} PlaceLinesSnoc(e: Env, l: Layout, raws: seq<string>, i: nat)
    requires i < |raws|
    ensures PlaceLines(e, l, raws[..i + 1]) == PlaceLine(e, PlaceLines(e, l, raws[..i]), raws[i])
  {
    assert raws[..i + 1][..i] == raws[..i];
  }

  /** The pages of the document: the finished ones and the current one with its footer. */
  function Pages(e: Env, l: Layout): seq<seq<DrawOp>>
  {
    l.done + [l.current + [Footer(e)]]
  }

  /** The drawing operations on each page of the document `saveAsPDF` writes for `content`. */
  function Render(e: Env, content: string): seq<seq<DrawOp>>
  {
    Pages(e, PlaceLines(e, Start(e), SplitLines(Sanitize(content))))
  }

  // ---------------------------------------------------------------------------
  // Every page is framed by exactly one footer, and text stays clear of it
  // ---------------------------------------------------------------------------

  /** A baseline at the top of the page, or below it and at least one line height above the footer zone. */
  predicate Placed(e: Env, y: real)
  {
    y == Top(e) || Margin + FooterHeight(e) + LineHeight <= y <= Top(e)
  }

  /** The operations of a page before its footer: no image, and every text on a placed baseline. */
  predicate Body(e: Env, ops: seq<DrawOp>)
  {
    forall j :: 0 <= j < |ops| ==> !ops[j].Image? && (ops[j].Text? ==> Placed(e, ops[j].y))
  }

  /** A finished page: a body, then the footer, drawn once. */
  predicate Framed(e: Env, page: seq<DrawOp>)
  {
    |page| >= 1 && page[|page| - 1] == Footer(e) && Body(e, page[..|page| - 1])
  }

  predicate LayoutOk(e: Env, l: Layout)
  {
    && (forall k :: 0 <= k < |l.done| ==> Framed(e, l.done[k]))
    && Body(e, l.current)
    && l.y <= Top(e)
  }

  lemma {:induction false} BodyAppend(e: Env, a: seq<DrawOp>, b: seq<DrawOp>)
    requires Body(e, a) && Body(e, b)
    ensures Body(e, a + b)
  {
    forall j | 0 <= j < |a + b| ensures !(a + b)[j].Image? && ((a + b)[j].Text? ==> Placed(e, (a + b)[j].y)) {
      if j >= |a| { assert (a + b)[j] == b[j - |a|]; }
    }
  }

  /** Placing a subline keeps every finished page framed and every text placed. */
  lemma {:induction false} PlaceSublineOk(e: Env, l: Layout, line: string)
    requires LayoutOk(e, l)
    ensures LayoutOk(e, PlaceSubline(e, l, line))
  {
    var b := if NeedsNewPage(e, l.y) then Layout(l.done + [l.current + [Footer(e)]], [], Top(e)) else l;
    if NeedsNewPage(e, l.y) {
      var page := l.current + [Footer(e)];
      assert page[..|page| - 1] == l.current;
      assert Framed(e, page);
      assert forall k :: 0 <= k < |b.done| ==> Framed(e, b.done[k]);
    }
    assert Placed(e, b.y);
    var run := RunOps(e.width, line, Margin, b.y);
    RunOpsOnBaseline(e.width, line, Margin, b.y);
    assert Body(e, run);
    BodyAppend(e, b.current, run);
  }

  lemma {:induction false} PlaceSublinesOk(e: Env, l: Layout, lines: seq<string>)
    requires LayoutOk(e, l)
    ensures LayoutOk(e, PlaceSublines(e, l, lines))
    decreases |lines|
  {
    if lines != [] {
      PlaceSublinesOk(e, l, lines[..|lines| - 1]);
      PlaceSublineOk(e, PlaceSublines(e, l, lines[..|lines| - 1]), lines[|lines| - 1]);
    }
  }

  lemma {:induction false} PlaceLinesOk(e: Env, l: Layout, raws: seq<string>)
    requires LayoutOk(e, l)
    ensures LayoutOk(e, PlaceLines(e, l, raws))
    decreases |raws|
  {
    if raws != [] {
      var before := PlaceLines(e, l, raws[..|raws| - 1]);
      PlaceLinesOk(e, l, raws[..|raws| - 1]);
      PlaceSublinesOk(e, before, Wrapped(WrapMetrics(e), raws[|raws| - 1]));
    }
  }

  /**
   * Every page of the document ends with the footer image and holds no other
   * image, and every text is drawn at the top of its page or low enough that
   * one more line would still clear the footer zone.
   */
  lemma {:induction false} RenderFramed(e: Env, content: string)
    ensures |Render(e, content)| >= 1
    ensures forall k :: 0 <= k < |Render(e, content)| ==> Framed(e, Render(e, content)[k])
  {
    var l := PlaceLines(e, Start(e), SplitLines(Sanitize(content)));
    PlaceLinesOk(e, Start(e), SplitLines(Sanitize(content)));
    var last := l.current + [Footer(e)];
    assert last[..|last| - 1] == l.current;
    assert Framed(e, last);
  }

  // ---------------------------------------------------------------------------
  // Every subline is drawn, whole and in order
  // ---------------------------------------------------------------------------

  /** The sublines of the content lines, one line after the other. */
  function Sublines(e: Env, raws: seq<string>): seq<string>
  {
    if raws == [] then [] else Sublines(e, raws[..|raws| - 1]) + Wrapped(WrapMetrics(e), raws[|raws| - 1])
  }

  function Concat(ss: seq<string>): string
  {
    if ss == [] then "" else Concat(ss[..|ss| - 1]) + ss[|ss| - 1]
  }

  /** The text drawn on the pages, page after page. */
  function AllTexts(pages: seq<seq<DrawOp>>): string
  {
    if pages == [] then "" else AllTexts(pages[..|pages| - 1]) + Texts(pages[|pages| - 1])
  }

  /** The text drawn so far in a layout. */
  function Spelled(l: Layout): string
  {
    AllTexts(l.done) + Texts(l.current)
  }

  lemma {:induction false} ConcatAppend(a: seq<string>, b: seq<string>)
    ensures Concat(a + b) == Concat(a) + Concat(b)
    decreases |b|
  {
    if b == [] {
      assert a + b == a;
    } else {
      assert (a + b)[..|a + b| - 1] == a + b[..|b| - 1];
      ConcatAppend(a, b[..|b| - 1]);
    }
  }

  lemma {:induction false} FooterSpellsNothing(e: Env, ops: seq<DrawOp>)
    ensures Texts(ops + [Footer(e)]) == Texts(ops)
  {
    CollectAppend(ops, [Footer(e)], TextPart);
    CollectOne(Footer(e), TextPart);
  }

  /** Placing a subline adds exactly its text to what has been drawn. */
  lemma {:induction false} PlaceSublineSpells(e: Env, l: Layout, line: string)
    ensures Spelled(PlaceSubline(e, l, line)) == Spelled(l) + line
  {
    var b := if NeedsNewPage(e, l.y) then Layout(l.done + [l.current + [Footer(e)]], [], Top(e)) else l;
    var ops := RunOps(e.width, line, Margin, b.y);
    assert PlaceSubline(e, l, line) == Layout(b.done, b.current + ops, b.y - LineHeight);
    if NeedsNewPage(e, l.y) {
      BreakSpellsNothing(e, l);
    }
    SpelledAppend(b, ops, b.y - LineHeight);
    RunOpsSpell(e.width, line, Margin, b.y);
  }

  /** Operations added to the current page add their texts. */
  lemma {:induction false} SpelledAppend(l: Layout, ops: seq<DrawOp>, y: real)
    ensures Spelled(Layout(l.done, l.current + ops, y)) == Spelled(l) + Texts(ops)
  {
    CollectAppend(l.current, ops, TextPart);
  }

  /** A page break adds no text. */
  lemma {:induction false} BreakSpellsNothing(e: Env, l: Layout)
    ensures Spelled(Layout(l.done + [l.current + [Footer(e)]], [], Top(e))) == Spelled(l)
  {
    FooterSpellsNothing(e, l.current);
    var done := l.done + [l.current + [Footer(e)]];
    assert done[..|done| - 1] == l.done;
  }

  lemma {:induction false} PlaceSublinesSpell(e: Env, l: Layout, lines: seq<string>)
    ensures Spelled(PlaceSublines(e, l, lines)) == Spelled(l) + Concat(lines)
    decreases |lines|
  {
    if lines != [] {
      PlaceSublinesSpell(e, l, lines[..|lines| - 1]);
      PlaceSublineSpells(e, PlaceSublines(e, l, lines[..|lines| - 1]), lines[|lines| - 1]);
    }
  }

  lemma {:induction false} PlaceLineSpells(e: Env, l: Layout, raw: string)
    ensures Spelled(PlaceLine(e, l, raw)) == Spelled(l) + Concat(Wrapped(WrapMetrics(e), raw))
  {
    var wrapped := Wrapped(WrapMetrics(e), raw);
    var a := PlaceSublines(e, l, wrapped);
    PlaceSublinesSpell(e, l, wrapped);
    assert PlaceLine(e, l, raw).done == a.done && PlaceLine(e, l, raw).current == a.current;
  }

  lemma {:induction false} PlaceLinesSpell(e: Env, l: Layout, raws: seq<string>)
    ensures Spelled(PlaceLines(e, l, raws)) == Spelled(l) + Concat(Sublines(e, raws))
    decreases |raws|
  {
    if raws != [] {
      var init := raws[..|raws| - 1];
      var raw := raws[|raws| - 1];
      PlaceLinesSpell(e, l, init);
      PlaceLineSpells(e, PlaceLines(e, l, init), raw);
      ConcatAppend(Sublines(e, init), Wrapped(WrapMetrics(e), raw));
    }
  }

  /**
   * The text drawn on the pages, in page order, is the sublines `wrapLine`
   * produces for the sanitized content lines, in order: nothing is lost,
   * repeated or reordered across page breaks, and the footers add no text.
   */
  lemma {:induction false} RenderSpellsSublines(e: Env, content: string)
    ensures AllTexts(Render(e, content)) == Concat(Sublines(e, SplitLines(Sanitize(content))))
  {
    var l := PlaceLines(e, Start(e), SplitLines(Sanitize(content)));
    PlaceLinesSpell(e, Start(e), SplitLines(Sanitize(content)));
    FooterSpellsNothing(e, l.current);
    var pages := Render(e, content);
    assert pages[..|pages| - 1] == l.done;
  }

  // ---------------------------------------------------------------------------
  // Page count
  // ---------------------------------------------------------------------------

  lemma {:induction false} PlaceSublinesPages(e: Env, l: Layout, lines: seq<string>)
    ensures |l.done| <= |PlaceSublines(e, l, lines).done| <= |l.done| + |lines|
    decreases |lines|
  {
    if lines != [] {
      PlaceSublinesPages(e, l, lines[..|lines| - 1]);
    }
  }

  lemma {:induction false} PlaceLinesPages(e: Env, l: Layout, raws: seq<string>)
    ensures |l.done| <= |PlaceLines(e, l, raws).done| <= |l.done| + |Sublines(e, raws)|
    decreases |raws|
  {
    if raws != [] {
      var init := raws[..|raws| - 1];
      PlaceLinesPages(e, l, init);
      PlaceSublinesPages(e, PlaceLines(e, l, init), Wrapped(WrapMetrics(e), raws[|raws| - 1]));
    }
  }

  /** A new page is only ever opened for a subline, so there are at most one more pages than sublines. */
  lemma {:induction false} RenderPageCount(e: Env, content: string)
    ensures 1 <= |Render(e, content)| <= 1 + |Sublines(e, SplitLines(Sanitize(content)))|
  {
    PlaceLinesPages(e, Start(e), SplitLines(Sanitize(content)));
  }

  /**
   * How many sublines a page holds: the subline `k` rows below the top opens
   * a new page exactly when `k >= LinesPerPage(e)`.
   */
  function LinesPerPage(e: Env): int
  {
    ((Top(e) - Margin - FooterHeight(e)) / LineHeight).Floor
  }

  lemma {:induction false} NeedsNewPageAt(e: Env, k: nat)
    ensures NeedsNewPage(e, Top(e) - (k as real) * LineHeight) <==> k >= LinesPerPage(e)
  {
    var x := (Top(e) - Margin - FooterHeight(e)) / LineHeight;
    var c := x.Floor;
    assert c as real <= x < c as real + 1.0;
    assert Top(e) - Margin - FooterHeight(e) == x * LineHeight;
  }

  lemma {:induction false} DivModStep(n: nat, c: int)
    requires n >= 1 && c >= 1
    ensures (n - 1) % c + 1 == c ==> n / c == (n - 1) / c + 1 && n % c == 0
    ensures (n - 1) % c + 1 < c ==> n / c == (n - 1) / c && n % c == (n - 1) % c + 1
  {
    var q := (n - 1) / c;
    var r := (n - 1) % c;
    assert n == c * q + r + 1;
    if r + 1 == c {
      assert n == c * (q + 1);
      DivModOf(n, c, q + 1, 0);
    } else {
      DivModOf(n, c, q, r + 1);
    }
  }

  lemma {:induction false} DivModOf(n: int, c: int, q: int, r: int)
    requires c >= 1 && 0 <= r < c && n == c * q + r
    ensures n / c == q && n % c == r
  {
    var q' := n / c;
    var r' := n % c;
    assert n == c * q' + r';
    if q' > q {
      assert c * q' >= c * (q + 1) by { MulMono(c, q + 1, q'); }
    } else if q' < q {
      assert c * q >= c * (q' + 1) by { MulMono(c, q' + 1, q); }
    }
  }

  lemma {:induction false} MulMono(c: int, a: int, b: int)
    requires c >= 1 && a <= b
    ensures c * a <= c * b
  {
    assert c * b - c * a == c * (b - a);
  }

  /** How many pages are finished, and the baseline for the next subline. */
  datatype Position = Position(pages: nat, y: real)

  /** The position after `n` sublines placed from the top of the first page, with no blank lines among them. */
  function PositionAfter(e: Env, n: nat): Position
  {
    if n == 0 then Position(0, Top(e))
    else
      var p := PositionAfter(e, n - 1);
      if NeedsNewPage(e, p.y) then Position(p.pages + 1, Top(e) - LineHeight) else Position(p.pages, p.y - LineHeight)
  }

  /** The layout stands where `n` sublines from the top of the first page leave it. */
  predicate AtRow(e: Env, l: Layout, n: nat)
  {
    PositionAfter(e, n) == Position(|l.done|, l.y)
  }

  lemma {:induction false} PlaceSublineAtRow(e: Env, l: Layout, n: nat, line: string)
    requires AtRow(e, l, n)
    ensures AtRow(e, PlaceSubline(e, l, line), n + 1)
  {
  }

  /**
   * The closed form: a page holds `LinesPerPage(e)` sublines when that is at
   * least one, and otherwise every subline opens a page of its own.
   */
  lemma {:induction false} PositionAfterCount(e: Env, n: nat)
    ensures var c := LinesPerPage(e);
      PositionAfter(e, n) ==
        if n == 0 then Position(0, Top(e))
        else if c < 1 then Position(n, Top(e) - LineHeight)
        else Position((n - 1) / c, Top(e) - (((n - 1) % c + 1) as real) * LineHeight)
  {
    var c := LinesPerPage(e);
    if n == 0 {
    } else if n == 1 {
      NeedsNewPageAt(e, 0);
      assert Top(e) == Top(e) - (0 as real) * LineHeight;
    } else {
      PositionAfterCount(e, n - 1);
      var p := PositionAfter(e, n - 1);
      if c < 1 {
        NeedsNewPageAt(e, 1);
        assert p.y == Top(e) - (1 as real) * LineHeight;
      } else {
        var r := (n - 2) % c + 1;
        NeedsNewPageAt(e, r);
        DivModStep(n - 1, c);
        if r == c {
          assert NeedsNewPage(e, p.y);
        } else {
          assert !NeedsNewPage(e, p.y);
          assert p.y - LineHeight == Top(e) - ((r + 1) as real) * LineHeight;
        }
      }
    }
  }

  lemma {:induction false} PlaceSublinesAtRow(e: Env, l: Layout, n: nat, lines: seq<string>)
    requires AtRow(e, l, n)
    ensures AtRow(e, PlaceSublines(e, l, lines), n + |lines|)
    decreases |lines|
  {
    if lines != [] {
      var init := lines[..|lines| - 1];
      PlaceSublinesAtRow(e, l, n, init);
      PlaceSublineAtRow(e, PlaceSublines(e, l, init), n + |init|, lines[|lines| - 1]);
    }
  }

  /** Every content line wraps to at least one subline. */
  predicate NoBlankLines(e: Env, raws: seq<string>)
  {
    raws != [] ==> NoBlankLines(e, raws[..|raws| - 1]) && Wrapped(WrapMetrics(e), raws[|raws| - 1]) != []
  }

  lemma {:induction false} PlaceSublinesAppend(e: Env, l: Layout, a: seq<string>, b: seq<string>)
    ensures PlaceSublines(e, l, a + b) == PlaceSublines(e, PlaceSublines(e, l, a), b)
    decreases |b|
  {
    if b == [] {
      assert a + b == a;
    } else {
      var init := b[..|b| - 1];
      assert (a + b)[..|a + b| - 1] == a + init;
      PlaceSublinesAppend(e, l, a, init);
    }
  }

  /** Without blank lines, placing the content lines places their sublines one after the other. */
  lemma {:induction false} PlaceLinesFlat(e: Env, l: Layout, raws: seq<string>)
    requires NoBlankLines(e, raws)
    ensures PlaceLines(e, l, raws) == PlaceSublines(e, l, Sublines(e, raws))
    decreases |raws|
  {
    if raws != [] {
      var init := raws[..|raws| - 1];
      var w := Wrapped(WrapMetrics(e), raws[|raws| - 1]);
      PlaceLinesFlat(e, l, init);
      PlaceSublinesAppend(e, l, Sublines(e, init), w);
    }
  }

  /**
   * The pages `n >= 1` sublines fill from the top of the first page: a page
   * holds `LinesPerPage(e)` of them, or one each when not even one fits
   * between the top and the footer zone (the first page then stays empty).
   */
  function PageCount(e: Env, n: nat): nat
  {
    var c := LinesPerPage(e);
    if c < 1 then 1 + n else 1 + (n - 1) / c
  }

  lemma {:induction false} PlaceSublinesPageCount(e: Env, lines: seq<string>)
    requires lines != []
    ensures |Pages(e, PlaceSublines(e, Start(e), lines))| == PageCount(e, |lines|)
  {
    PlaceSublinesAtRow(e, Start(e), 0, lines);
    PositionAfterCount(e, |lines|);
  }

  /** With no content line that wraps to nothing, the document has exactly `PageCount` pages for its sublines. */
  lemma {:induction false} RenderPageCountExact(e: Env, content: string)
    requires NoBlankLines(e, SplitLines(Sanitize(content)))
    ensures |Sublines(e, SplitLines(Sanitize(content)))| >= 1
    ensures |Render(e, content)| == PageCount(e, |Sublines(e, SplitLines(Sanitize(content)))|)
  {
    var raws := SplitLines(Sanitize(content));
    var lines := Sublines(e, raws);
    PlaceLinesFlat(e, Start(e), raws);
    SublinesNonEmpty(e, raws);
    PlaceSublinesPageCount(e, lines);
  }

  lemma {:induction false} SublinesNonEmpty(e: Env, raws: seq<string>)
    requires raws != [] && NoBlankLines(e, raws)
    ensures |Sublines(e, raws)| >= 1
  {
    var last := raws[|raws| - 1];
    assert Wrapped(WrapMetrics(e), last) != [];
  }

  lemma {:induction false} PlaceLineBlank(e: Env, l: Layout, raw: string)
    requires Wrapped(WrapMetrics(e), raw) == []
    ensures PlaceLine(e, l, raw).done == l.done && PlaceLine(e, l, raw).current == l.current
    ensures PlaceLine(e, l, raw).y == l.y - LineHeight
  {
    assert PlaceSublines(e, l, []) == l;
  }

  /**
   * Lines that wrap to no sublines draw nothing and open no page: each only
   * moves `y` down by one line height, with no page-break test, so `y` may
   * fall into the footer zone until the next subline is placed.
   */
  lemma {:induction false} BlankLinesOnlyMoveDown(e: Env, l: Layout, raws: seq<string>)
    requires Sublines(e, raws) == []
    ensures PlaceLines(e, l, raws).done == l.done
    ensures PlaceLines(e, l, raws).current == l.current
    ensures PlaceLines(e, l, raws).y == l.y - (|raws| as real) * LineHeight
    decreases |raws|
  {
    if raws != [] {
      var init := raws[..|raws| - 1];
      var last := raws[|raws| - 1];
      assert Sublines(e, init) == [] && Wrapped(WrapMetrics(e), last) == [];
      BlankLinesOnlyMoveDown(e, l, init);
      PlaceLineBlank(e, PlaceLines(e, l, init), last);
      assert LineHeight == 16.0 && |raws| == |init| + 1;
    }
  }

  /** Content whose lines all wrap to nothing makes a single page that holds only the footer. */
  lemma {:induction false} RenderNoSublines(e: Env, content: string)
    requires Sublines(e, SplitLines(Sanitize(content))) == []
    ensures Render(e, content) == [[Footer(e)]]
  {
    var l := PlaceLines(e, Start(e), SplitLines(Sanitize(content)));
    BlankLinesOnlyMoveDown(e, Start(e), SplitLines(Sanitize(content)));
    assert l.current + [Footer(e)] == [Footer(e)];
    assert l.done + [[Footer(e)]] == [[Footer(e)]];
  }

  /** Empty content makes a single page that holds only the footer. */
  lemma {:induction false} RenderEmpty(e: Env)
    ensures Render(e, "") == [[Footer(e)]]
  {
    assert SplitLines(Sanitize("")) == [""];
    WrappedEmpty(WrapMetrics(e));
    assert Sublines(e, [""]) == [] by { assert [""][..0] == []; }
    RenderNoSublines(e, "");
  }

  // ---------------------------------------------------------------------------
  // The implementation over the page objects
  // ---------------------------------------------------------------------------

  /** `drawFooterImage()` on `page`. */
  method DrawFooterImage(e: Env, page: PdfPage)
    modifies page
    ensures page.ops == old(page.ops) + [Footer(e)]
  {
    page.Draw(Footer(e));
  }

  /** The document's pages are distinct objects, the last one is `page`, and they hold what `l` describes. */
  predicate Mirrors(e: Env, doc: PdfDocument, page: PdfPage, y: real, l: Layout)
    reads doc, doc.pages
  {
    && |doc.pages| == |l.done| + 1
    && doc.pages[|l.done|] == page
    && (forall i, j :: 0 <= i < j < |doc.pages| ==> doc.pages[i] != doc.pages[j])
    && (forall k :: 0 <= k < |l.done| ==> doc.pages[k].ops == l.done[k])
    && page.ops == l.current
    && y == l.y
  }

  /** The body of the inner loop of `saveAsPDF`: one subline, with a page break before it if needed. */
  method PlaceSublineOn(e: Env, doc: PdfDocument, page: PdfPage, y: real, line: string, ghost l: Layout)
    returns (newPage: PdfPage, newY: real)
    requires Mirrors(e, doc, page, y, l)
    modifies doc, page
    ensures newPage == page || fresh(newPage)
    ensures Mirrors(e, doc, newPage, newY, PlaceSubline(e, l, line))
  {
    newPage, newY := page, y;
    ghost var b := l;
    if newY - LineHeight < Margin + FooterHeight(e) {
      DrawFooterImage(e, page);
      newPage := doc.AddPage();
      newY := Top(e);
      b := Layout(l.done + [l.current + [Footer(e)]], [], Top(e));
    }
    DrawTextWithEmailsAndUrls(newPage, e.width, line, Margin, newY);
    newY := newY - LineHeight;
  }

  /** The body of the outer loop of `saveAsPDF`: one content line, wrapped and placed. */
  method PlaceLineOn(e: Env, doc: PdfDocument, page: PdfPage, y: real, rawLine: string, ghost l: Layout)
    returns (newPage: PdfPage, newY: real)
    requires Mirrors(e, doc, page, y, l)
    modifies doc, page
    ensures newPage == page || fresh(newPage)
    ensures Mirrors(e, doc, newPage, newY, PlaceLine(e, l, rawLine))
  {
    var wrappedLines := WrapLine(WrapMetrics(e), rawLine);
    newPage, newY := PlaceSublinesOn(e, doc, page, y, wrappedLines, l);
    if |wrappedLines| == 0 {
      newY := newY - LineHeight;
    }
  }

  /** The inner loop of `saveAsPDF`: the sublines of one content line, in order. */
  method PlaceSublinesOn(e: Env, doc: PdfDocument, page: PdfPage, y: real, wrappedLines: seq<string>, ghost l: Layout)
    returns (newPage: PdfPage, newY: real)
    requires Mirrors(e, doc, page, y, l)
    modifies doc, page
    ensures newPage == page || fresh(newPage)
    ensures Mirrors(e, doc, newPage, newY, PlaceSublines(e, l, wrappedLines))
  {
    newPage, newY := page, y;
    var j := 0;
    ghost var placed := l;
    while j < |wrappedLines|
      invariant j <= |wrappedLines|
      invariant newPage == page || fresh(newPage)
      invariant placed == PlaceSublines(e, l, wrappedLines[..j])
      invariant Mirrors(e, doc, newPage, newY, placed)
    {
      PlaceSublinesSnoc(e, l, wrappedLines, j);
      newPage, newY := PlaceSublineOn(e, doc, newPage, newY, wrappedLines[j], placed);
      placed := PlaceSubline(e, placed, wrappedLines[j]);
      j := j + 1;
    }
    assert wrappedLines[..j] == wrappedLines;
  }

  /** The final `drawFooterImage()` on the last page. */
  method FinishDocument(e: Env, doc: PdfDocument, page: PdfPage, y: real, ghost l: Layout)
    requires Mirrors(e, doc, page, y, l)
    modifies page
    ensures |doc.pages| == |Pages(e, l)|
    ensures forall k :: 0 <= k < |doc.pages| ==> doc.pages[k].ops == Pages(e, l)[k]
  {
    DrawFooterImage(e, page);
    assert forall k :: 0 <= k < |l.done| ==> doc.pages[k] != page;
  }

  /**
   * `saveAsPDF(filename, content, folder)` up to `pdfDoc.save()`: the document
   * holds one page per element of `Render(e, content)`, with those operations.
   */
  method SaveAsPdf(e: Env, content: string) returns (doc: PdfDocument)
    ensures fresh(doc)
    ensures |doc.pages| == |Render(e, content)|
    ensures forall k :: 0 <= k < |doc.pages| ==> doc.pages[k].ops == Render(e, content)[k]
  {
    var text := Sanitize(content);
    doc := new PdfDocument();
    var page := doc.AddPage();
    var y := Top(e);
    var contentLines := SplitLines(text);
    var i := 0;
    ghost var placed := Start(e);
    while i < |contentLines|
      invariant i <= |contentLines|
      invariant fresh(doc) && fresh(page)
      invariant placed == PlaceLines(e, Start(e), contentLines[..i])
      invariant Mirrors(e, doc, page, y, placed)
    {
      PlaceLinesSnoc(e, Start(e), contentLines, i);
      page, y := PlaceLineOn(e, doc, page, y, contentLines[i], placed);
      placed := PlaceLine(e, placed, contentLines[i]);
      i := i + 1;
    }
    assert contentLines[..i] == contentLines;
    FinishDocument(e, doc, page, y, placed);
  }
}
