/**
 * `wrapLine`, the helper of `saveAsPDF` that breaks one input line into
 * sublines that fit the usable page width. Words come from `split(/\s+/)`;
 * they are packed greedily, glued with single spaces, and a word that does
 * not fit on its own is never split.
 */
module LineWrap {
  import opened JsText

  /**
   * The font metrics the wrapper consults: `widthOfTextAtSize` of the embedded
   * font (left abstract), the font size and the maximal line width.
   */
  datatype Metrics = Metrics(width: (string, real) -> real, fontSize: real, maxLineWidth: real)

  /** The test `testLineWidth > maxLineWidth`. */
  predicate Overflows(m: Metrics, s: string)
  {
    m.width(s, m.fontSize) > m.maxLineWidth
  }

  /** `currentLine ? currentLine + " " + word : word` — an empty current line absorbs the separator. */
  function Glue(current: string, word: string): string
  {
    if current != "" then current + " " + word else word
  }

  /** The line built by gluing a group of words, one after the other, onto an empty line. */
  function GlueAll(g: seq<string>): string
  {
    if g == [] then "" else Glue(GlueAll(g[..|g| - 1]), g[|g| - 1])
  }

  /** The lines of a sequence of word groups. */
  function GlueEach(gs: seq<seq<string>>): (r: seq<string>)
    ensures |r| == |gs|
  {
    if gs == [] then [] else GlueEach(gs[..|gs| - 1]) + [GlueAll(gs[|gs| - 1])]
  }

  function Flatten(gs: seq<seq<string>>): seq<string>
  {
    if gs == [] then [] else Flatten(gs[..|gs| - 1]) + gs[|gs| - 1]
  }

  /** The groups already pushed to `wrappedLines` and the group that makes up `currentLine`. */
  datatype Packing = Packing(closed: seq<seq<string>>, open: seq<string>)

  /** The greedy decisions of `wrapLine` over the first `n` words. */
  function Pack(m: Metrics, words: seq<string>, n: nat): Packing
    requires n <= |words|
  {
    if n == 0 then Packing([], [])
    else
      var p := Pack(m, words, n - 1);
      var w := words[n - 1];
      if Overflows(m, Glue(GlueAll(p.open), w)) && n - 1 > 0 then Packing(p.closed + [p.open], [w])
      else Packing(p.closed, p.open + [w])
  }

  /** The word groups that become sublines: a final group that glues to the empty line is not pushed. */
  function Groups(m: Metrics, words: seq<string>): seq<seq<string>>
  {
    var p := Pack(m, words, |words|);
    p.closed + (if GlueAll(p.open) != "" then [p.open] else [])
  }

  /** The sublines `wrapLine` returns for `line`. */
  function Wrapped(m: Metrics, line: string): seq<string>
  {
    GlueEach(Groups(m, SplitOnSpaces(line)))
  }

  /** `wrapLine(lineText)`. */
  method WrapLine(m: Metrics, lineText: string) returns (wrappedLines: seq<string>)
    ensures wrappedLines == Wrapped(m, lineText)
  {
    var words := SplitOnSpaces(lineText);
    wrappedLines := [];
    var currentLine := "";
    for i := 0 to |words|
      invariant wrappedLines == GlueEach(Pack(m, words, i).closed)
      invariant currentLine == GlueAll(Pack(m, words, i).open)
    {
      ghost var p := Pack(m, words, i);
      var testLine := if currentLine != "" then currentLine + " " + words[i] else words[i];
      var testLineWidth := m.width(testLine, m.fontSize);
      if testLineWidth > m.maxLineWidth && i > 0 {
        assert (p.closed + [p.open])[..|p.closed|] == p.closed;
        wrappedLines := wrappedLines + [currentLine];
        currentLine := words[i];
        assert GlueAll([words[i]]) == words[i] by { assert [words[i]][..0] == []; }
      } else {
        assert (p.open + [words[i]])[..|p.open|] == p.open;
        currentLine := testLine;
      }
    }
    ghost var p := Pack(m, words, |words|);
    if currentLine != "" {
      assert (p.closed + [p.open])[..|p.closed|] == p.closed;
      wrappedLines := wrappedLines + [currentLine];
    } else {
      assert p.closed + [] == p.closed;
    }
  }

  // ---------------------------------------------------------------------------
  // What the greedy packing guarantees
  // ---------------------------------------------------------------------------

  /** Every group is one word, or glues to a line that does not overflow. */
  predicate FitsOrSingle(m: Metrics, g: seq<string>)
  {
    |g| == 1 || !Overflows(m, GlueAll(g))
  }

  /** The group after closed group `k`: the next closed group, or the open one. */
  function NextGroup(p: Packing, k: nat): seq<string>
    requires k < |p.closed|
  {
    if k + 1 < |p.closed| then p.closed[k + 1] else p.open
  }

  /** The facts the packing keeps after every word. */
  predicate PackingInvariant(m: Metrics, words: seq<string>, n: nat, p: Packing)
    requires n <= |words|
  {
    && Flatten(p.closed) + p.open == words[..n]
    && (n > 0 ==> p.open != [])
    && (forall k :: 0 <= k < |p.closed| ==> p.closed[k] != [])
    && (forall k :: 0 <= k < |p.closed| ==> FitsOrSingle(m, p.closed[k]))
    && (p.open != [] ==> FitsOrSingle(m, p.open))
    && (forall k :: 0 <= k < |p.closed| ==> NextGroup(p, k) != [] && Overflows(m, Glue(GlueAll(p.closed[k]), NextGroup(p, k)[0])))
  }

  lemma {:induction false} FlattenSnoc(gs: seq<seq<string>>, g: seq<string>)
    ensures Flatten(gs + [g]) == Flatten(gs) + g
  {
    assert (gs + [g])[..|gs|] == gs;
  }

  lemma {:induction false} GlueAllSnoc(g: seq<string>, w: string)
    ensures GlueAll(g + [w]) == Glue(GlueAll(g), w)
  {
    assert (g + [w])[..|g|] == g;
  }

  /** Closing the open group and starting a new one with `w` keeps the invariant. */
  lemma {:induction false} CloseStep(m: Metrics, words: seq<string>, n: nat, q: Packing)
    requires 0 < n <= |words| && n - 1 > 0
    requires PackingInvariant(m, words, n - 1, q)
    requires Overflows(m, Glue(GlueAll(q.open), words[n - 1]))
    ensures PackingInvariant(m, words, n, Packing(q.closed + [q.open], [words[n - 1]]))
  {
    var w := words[n - 1];
    var p := Packing(q.closed + [q.open], [w]);
    assert words[..n] == words[..n - 1] + [w];
    FlattenSnoc(q.closed, q.open);
    assert GlueAll([w]) == w by { assert [w][..0] == []; }
    forall k | 0 <= k < |p.closed|
      ensures NextGroup(p, k) != [] && Overflows(m, Glue(GlueAll(p.closed[k]), NextGroup(p, k)[0]))
    {
      if k < |q.closed| {
        assert p.closed[k] == q.closed[k];
        assert NextGroup(p, k) == NextGroup(q, k) || (k + 1 == |q.closed| && NextGroup(p, k) == q.open);
      } else {
        assert p.closed[k] == q.open && NextGroup(p, k) == [w];
      }
    }
  }

  /** Gluing `w` onto the open group keeps the invariant. */
  lemma {:induction false} ExtendStep(m: Metrics, words: seq<string>, n: nat, q: Packing)
    requires 0 < n <= |words|
    requires PackingInvariant(m, words, n - 1, q)
    requires !Overflows(m, Glue(GlueAll(q.open), words[n - 1])) || n - 1 == 0
    ensures PackingInvariant(m, words, n, Packing(q.closed, q.open + [words[n - 1]]))
  {
    var w := words[n - 1];
    var p := Packing(q.closed, q.open + [w]);
    assert words[..n] == words[..n - 1] + [w];
    GlueAllSnoc(q.open, w);
    if q.open == [] {
      assert p.open == [w];
    }
    forall k | 0 <= k < |p.closed|
      ensures NextGroup(p, k) != [] && Overflows(m, Glue(GlueAll(p.closed[k]), NextGroup(p, k)[0]))
    {
      assert NextGroup(p, k)[0] == NextGroup(q, k)[0];
    }
  }

  /** The packing invariant holds after each of the first `n` words. */
  lemma {:induction false} PackInvariant(m: Metrics, words: seq<string>, n: nat)
    requires n <= |words|
    ensures PackingInvariant(m, words, n, Pack(m, words, n))
    decreases n
  {
    if n > 0 {
      PackInvariant(m, words, n - 1);
      var q := Pack(m, words, n - 1);
      if Overflows(m, Glue(GlueAll(q.open), words[n - 1])) && n - 1 > 0 {
        CloseStep(m, words, n, q);
      } else {
        ExtendStep(m, words, n, q);
      }
    }
  }

  lemma {:induction false} GlueAllEmpty(g: seq<string>)
    ensures GlueAll(g) == "" <==> forall k :: 0 <= k < |g| ==> g[k] == ""
    decreases |g|
  {
    if g != [] {
      var init := g[..|g| - 1];
      GlueAllEmpty(init);
      assert forall k :: 0 <= k < |init| ==> init[k] == g[k];
      var c := GlueAll(init);
      assert c != "" ==> |Glue(c, g[|g| - 1])| > 0;
    }
  }

  /**
   * The sublines are the groups glued together, and the groups are the words
   * of the line, whole and in order; the only words left out are empty ones
   * at the end.
   */
  lemma {:induction false} WrapKeepsWords(m: Metrics, words: seq<string>)
    ensures forall k :: 0 <= k < |Groups(m, words)| ==> Groups(m, words)[k] != []
    ensures |Flatten(Groups(m, words))| <= |words|
    ensures Flatten(Groups(m, words)) == words[..|Flatten(Groups(m, words))|]
    ensures forall k :: |Flatten(Groups(m, words))| <= k < |words| ==> words[k] == ""
  {
    var n := |words|;
    PackInvariant(m, words, n);
    var p := Pack(m, words, n);
    var gs := Groups(m, words);
    assert words[..n] == words;
    if GlueAll(p.open) != "" {
      assert gs == p.closed + [p.open];
      FlattenSnoc(p.closed, p.open);
      assert Flatten(gs) == words;
    } else {
      assert gs == p.closed;
      GlueAllEmpty(p.open);
      var f := Flatten(p.closed);
      assert f + p.open == words;
      assert f == words[..|f|];
      forall k | |f| <= k < n ensures words[k] == "" {
        assert words[k] == p.open[k - |f|];
      }
    }
  }

  /** Every subline fits in `maxLineWidth` or is a single word. */
  lemma {:induction false} WrapFits(m: Metrics, line: string)
    ensures var gs := Groups(m, SplitOnSpaces(line));
            var lines := Wrapped(m, line);
            forall k :: 0 <= k < |lines| ==> !Overflows(m, lines[k]) || (|gs[k]| == 1 && lines[k] == gs[k][0])
  {
    var words := SplitOnSpaces(line);
    PackInvariant(m, words, |words|);
    var p := Pack(m, words, |words|);
    var gs := Groups(m, words);
    var lines := Wrapped(m, line);
    GlueEachAt(gs);
    forall k | 0 <= k < |lines| ensures !Overflows(m, lines[k]) || (|gs[k]| == 1 && lines[k] == gs[k][0]) {
      assert gs[k] == (if k < |p.closed| then p.closed[k] else p.open);
      if |gs[k]| == 1 {
        assert gs[k] == [] + [gs[k][0]];
        GlueAllSnoc([], gs[k][0]);
      }
    }
  }

  /** A subline is closed only because gluing the next word onto it would overflow. */
  lemma {:induction false} WrapGreedy(m: Metrics, line: string)
    ensures var gs := Groups(m, SplitOnSpaces(line));
            var lines := Wrapped(m, line);
            forall k :: 0 <= k < |lines| - 1 ==> gs[k + 1] != [] && Overflows(m, Glue(lines[k], gs[k + 1][0]))
  {
    var words := SplitOnSpaces(line);
    PackInvariant(m, words, |words|);
    var p := Pack(m, words, |words|);
    var gs := Groups(m, words);
    var lines := Wrapped(m, line);
    GlueEachAt(gs);
    forall k | 0 <= k < |lines| - 1 ensures gs[k + 1] != [] && Overflows(m, Glue(lines[k], gs[k + 1][0])) {
      assert k < |p.closed|;
      assert gs[k + 1] == NextGroup(p, k);
    }
  }

  lemma {:induction false} GlueEachAt(gs: seq<seq<string>>)
    ensures forall k :: 0 <= k < |gs| ==> GlueEach(gs)[k] == GlueAll(gs[k])
    decreases |gs|
  {
    if gs != [] {
      var init := gs[..|gs| - 1];
      GlueEachAt(init);
      forall k | 0 <= k < |gs| ensures GlueEach(gs)[k] == GlueAll(gs[k]) {
        if k < |init| {
          assert GlueEach(gs)[k] == GlueEach(init)[k];
          assert init[k] == gs[k];
        }
      }
    }
  }

  lemma {:induction false} JoinSnoc(ws: seq<string>, w: string, sep: string)
    requires ws != []
    ensures JoinWith(ws + [w], sep) == JoinWith(ws, sep) + sep + w
  {
    if |ws| > 1 {
      assert (ws + [w])[1..] == ws[1..] + [w];
      JoinSnoc(ws[1..], w, sep);
    }
  }

  /** A group that starts with a word glues to its words joined by single spaces. */
  lemma {:induction false} GlueAllIsJoin(g: seq<string>)
    requires g != [] && g[0] != ""
    ensures GlueAll(g) == JoinWith(g, " ")
    decreases |g|
  {
    if |g| == 1 {
      assert g[..0] == [];
    } else {
      var init := g[..|g| - 1];
      GlueAllIsJoin(init);
      assert g == init + [g[|g| - 1]];
      JoinSnoc(init, g[|g| - 1], " ");
      assert JoinWith(init, " ") != "" by {
        if |init| == 1 {} else { assert |JoinWith(init, " ")| >= |init[0]|; }
      }
    }
  }

  /** An empty line wraps to no sublines, whatever the width of the empty string. */
  lemma {:induction false} WrappedEmpty(m: Metrics)
    ensures Wrapped(m, "") == []
  {
    SplitOnSpacesOfBlank("");
    assert Pack(m, [""], 1) == Packing([], [""]);
    assert GlueAll([""]) == "" by { assert [""][..0] == []; }
  }

  /** A line that is empty or only whitespace wraps to no sublines (the empty string is never wider than the page). */
  lemma {:induction false} WrapBlank(m: Metrics, line: string)
    requires forall i :: 0 <= i < |line| ==> IsSpace(line[i])
    requires !Overflows(m, "")
    ensures Wrapped(m, line) == []
  {
    var words := SplitOnSpaces(line);
    SplitOnSpacesOfBlank(line);
    assert Pack(m, words, 1) == Packing([], [""]);
    assert GlueAll([""]) == "" by { assert [""][..0] == []; }
    if |words| == 2 {
      GlueAllSnoc([""], "");
    }
  }

  /**
   * A line that starts with whitespace and then holds one word too wide for
   * the page wraps to an empty subline followed by that word.
   */
  lemma {:induction false} WrapLeadingSpaceWideWord(m: Metrics, word: string)
    requires word != "" && NoSpace(word)
    requires Overflows(m, word)
    ensures Wrapped(m, " " + word) == ["", word]
  {
    var line := " " + word;
    assert FirstSpace(line, 0) == 0;
    assert SpaceRunEnd(line, 0) == 1 by { assert SpaceRunEnd(line, 1) == 1; }
    assert line[1..] == word;
    assert FirstSpace(word, 0) == |word| by { NoSpaceFirstSpace(word); }
    assert SplitOnSpaces(word) == [word];
    assert line[..0] == "";
    var words := SplitOnSpaces(line);
    assert words == ["", word];
    assert GlueAll([""]) == "" by { assert [""][..0] == []; }
    assert Pack(m, words, 1) == Packing([], [""]);
    assert Pack(m, words, 2) == Packing([[""]], [word]);
    assert GlueAll([word]) == word by { assert [word][..0] == []; }
    assert GlueEach([[""], [word]]) == GlueEach([[""]]) + [word];
    assert [[""], [word]][..1] == [[""]];
    assert GlueEach([[""]]) == [""] by { assert [[""]][..0] == []; }
  }

  // ---------------------------------------------------------------------------
  // Wrapping the joined sublines again gives the same sublines
  // ---------------------------------------------------------------------------

  /** The sublines of a packing: the closed groups, and the open one when it glues to a non-empty line. */
  function Lines(p: Packing): seq<string>
  {
    GlueEach(p.closed) + if GlueAll(p.open) != "" then [GlueAll(p.open)] else []
  }

  lemma {:induction false} GlueEachSnoc(gs: seq<seq<string>>, g: seq<string>)
    ensures GlueEach(gs + [g]) == GlueEach(gs) + [GlueAll(g)]
  {
    assert (gs + [g])[..|gs|] == gs;
  }

  lemma {:induction false} GroupsLines(m: Metrics, words: seq<string>)
    ensures GlueEach(Groups(m, words)) == Lines(Pack(m, words, |words|))
  {
    var p := Pack(m, words, |words|);
    if GlueAll(p.open) != "" {
      GlueEachSnoc(p.closed, p.open);
    } else {
      assert p.closed + [] == p.closed;
    }
  }

  /** A leading empty word that the first subline absorbs, since `Glue("", w) == w` fits. */
  predicate AbsorbsLead(m: Metrics, words: seq<string>)
  {
    |words| >= 2 && words[0] == "" && !Overflows(m, words[1])
  }

  /** The packing of the first `n` words does not look at the words after them. */
  lemma {:induction false} PackPrefix(m: Metrics, words: seq<string>, k: nat, n: nat)
    requires n <= k <= |words|
    ensures Pack(m, words[..k], n) == Pack(m, words, n)
    decreases n
  {
    if n > 0 {
      PackPrefix(m, words, k, n - 1);
      assert words[..k][n - 1] == words[n - 1];
    }
  }

  /** An absorbed leading empty word changes neither the closed sublines nor the current line. */
  lemma {:induction false} PackDropLead(m: Metrics, words: seq<string>, n: nat)
    requires AbsorbsLead(m, words) && 2 <= n <= |words|
    ensures GlueEach(Pack(m, words, n).closed) == GlueEach(Pack(m, words[1..], n - 1).closed)
    ensures GlueAll(Pack(m, words, n).open) == GlueAll(Pack(m, words[1..], n - 1).open)
    decreases n
  {
    var rest := words[1..];
    if n == 2 {
      assert Pack(m, words, 1) == Packing([], [""]);
      assert GlueAll([""]) == "" by { assert [""][..0] == []; }
      assert Pack(m, words, 2) == Packing([], ["", words[1]]);
      GlueAllSnoc([""], words[1]);
      assert Pack(m, rest, 1) == Packing([], [words[1]]);
      assert GlueAll([words[1]]) == words[1] by { assert [words[1]][..0] == []; }
    } else {
      PackDropLead(m, words, n - 1);
      var p := Pack(m, words, n - 1);
      var q := Pack(m, rest, n - 2);
      var w := words[n - 1];
      assert rest[n - 2] == w;
      if Overflows(m, Glue(GlueAll(p.open), w)) {
        GlueEachSnoc(p.closed, p.open);
        GlueEachSnoc(q.closed, q.open);
      } else {
        GlueAllSnoc(p.open, w);
        GlueAllSnoc(q.open, w);
      }
    }
  }

  /**
   * The text of a packing of at least one word: its closed sublines and its
   * current line, joined by single spaces, are the words read so far joined
   * by single spaces. The current line is empty only when it holds just the
   * empty word read last.
   */
  lemma {:induction false} PackText(m: Metrics, words: seq<string>, k: nat)
    requires WellFormedWords(words) && !AbsorbsLead(m, words) && 1 <= k <= |words|
    ensures var p := Pack(m, words, k);
      JoinWith(GlueEach(p.closed) + [GlueAll(p.open)], " ") == JoinWith(words[..k], " ")
    ensures var p := Pack(m, words, k);
      GlueAll(p.open) == "" ==> p.open == [words[k - 1]] && words[k - 1] == ""
    decreases k
  {
    if k == 1 {
      PackTextFirst(m, words);
    } else {
      PackText(m, words, k - 1);
      PackTextStep(m, words, k);
    }
  }

  lemma {:induction false} PackTextFirst(m: Metrics, words: seq<string>)
    requires |words| >= 1
    ensures var p := Pack(m, words, 1);
      JoinWith(GlueEach(p.closed) + [GlueAll(p.open)], " ") == JoinWith(words[..1], " ")
    ensures var p := Pack(m, words, 1);
      GlueAll(p.open) == "" ==> p.open == [words[0]] && words[0] == ""
  {
    assert Pack(m, words, 1) == Packing([], [words[0]]);
    GlueAllSnoc([], words[0]);
    assert words[..1] == [words[0]];
  }

  lemma {:induction false} PackTextStep(m: Metrics, words: seq<string>, k: nat)
    requires WellFormedWords(words) && !AbsorbsLead(m, words) && 2 <= k <= |words|
    requires var p := Pack(m, words, k - 1);
      JoinWith(GlueEach(p.closed) + [GlueAll(p.open)], " ") == JoinWith(words[..k - 1], " ")
    requires var p := Pack(m, words, k - 1);
      GlueAll(p.open) == "" ==> p.open == [words[k - 2]] && words[k - 2] == ""
    ensures var p := Pack(m, words, k);
      JoinWith(GlueEach(p.closed) + [GlueAll(p.open)], " ") == JoinWith(words[..k], " ")
    ensures var p := Pack(m, words, k);
      GlueAll(p.open) == "" ==> p.open == [words[k - 1]] && words[k - 1] == ""
  {
    var p := Pack(m, words, k - 1);
    var w := words[k - 1];
    JoinPrefixSnoc(words, k - 1);
    if Overflows(m, Glue(GlueAll(p.open), w)) {
      CloseText(p.closed, p.open, w);
    } else {
      ExtendsNonEmpty(m, words, k, GlueAll(p.open));
      ExtendText(p.closed, p.open, w);
    }
  }

  lemma {:induction false} JoinPrefixSnoc(words: seq<string>, k: nat)
    requires 1 <= k < |words|
    ensures JoinWith(words[..k + 1], " ") == JoinWith(words[..k], " ") + " " + words[k]
  {
    assert words[..k + 1] == words[..k] + [words[k]];
    JoinSnoc(words[..k], words[k], " ");
  }

  /** Closing the current line keeps the text and starts a line holding just `w`. */
  lemma {:induction false} CloseText(closed: seq<seq<string>>, open: seq<string>, w: string)
    ensures GlueAll([w]) == w
    ensures JoinWith(GlueEach(closed + [open]) + [GlueAll([w])], " ")
      == JoinWith(GlueEach(closed) + [GlueAll(open)], " ") + " " + w
  {
    GlueAllSnoc([], w);
    assert [] + [w] == [w];
    GlueEachSnoc(closed, open);
    JoinSnoc(GlueEach(closed) + [GlueAll(open)], w, " ");
  }

  /** Gluing `w` onto a non-empty current line keeps the text. */
  lemma {:induction false} ExtendText(closed: seq<seq<string>>, open: seq<string>, w: string)
    requires GlueAll(open) != ""
    ensures GlueAll(open + [w]) != ""
    ensures JoinWith(GlueEach(closed) + [GlueAll(open + [w])], " ")
      == JoinWith(GlueEach(closed) + [GlueAll(open)], " ") + " " + w
  {
    GlueAllSnoc(open, w);
    JoinGlueLast(GlueEach(closed), GlueAll(open), w);
  }

  lemma {:induction false} JoinGlueLast(c: seq<string>, o: string, w: string)
    ensures JoinWith(c + [o + " " + w], " ") == JoinWith(c + [o], " ") + " " + w
  {
    if c == [] {
      assert c + [o + " " + w] == [o + " " + w];
      assert c + [o] == [o];
    } else {
      JoinSnoc(c, o + " " + w, " ");
      JoinSnoc(c, o, " ");
    }
  }

  /**
   * A word is glued onto an empty current line only at the start, and there
   * only when the line does not absorb a leading empty word.
   */
  lemma {:induction false} ExtendsNonEmpty(m: Metrics, words: seq<string>, k: nat, o: string)
    requires WellFormedWords(words) && !AbsorbsLead(m, words) && 2 <= k <= |words|
    requires o == "" ==> words[k - 2] == ""
    requires !Overflows(m, Glue(o, words[k - 1]))
    ensures o != ""
  {
    assert 0 < k - 2 < |words| - 1 ==> words[k - 2] != "";
  }

  /** A trailing empty word that opens a group of its own is not pushed, so dropping it changes no subline. */
  lemma {:induction false} PackDropTrail(m: Metrics, words: seq<string>)
    requires WellFormedWords(words) && |words| >= 2 && !AbsorbsLead(m, words) && !Overflows(m, "")
    requires GlueAll(Pack(m, words, |words|).open) == ""
    ensures Lines(Pack(m, words, |words|)) == Lines(Pack(m, words[..|words| - 1], |words| - 1))
    ensures GlueAll(Pack(m, words[..|words| - 1], |words| - 1).open) != ""
  {
    var n := |words|;
    var q := Pack(m, words, n - 1);
    var w := words[n - 1];
    PackPrefix(m, words, n - 1, n - 1);
    OpenBeforeLast(m, words);
    GlueAllSnoc(q.open, w);
    assert Overflows(m, Glue(GlueAll(q.open), w));
    GlueEachSnoc(q.closed, q.open);
    GlueAllSnoc([], w);
    assert [] + [w] == [w];
  }

  /** Before the last word is read, the current line is not empty. */
  lemma {:induction false} OpenBeforeLast(m: Metrics, words: seq<string>)
    requires WellFormedWords(words) && |words| >= 2 && !AbsorbsLead(m, words) && !Overflows(m, "")
    requires GlueAll(Pack(m, words, |words|).open) == ""
    ensures GlueAll(Pack(m, words, |words| - 1).open) != ""
  {
    var n := |words|;
    var q := Pack(m, words, n - 1);
    PackOpenLast(m, words, n - 1);
    if n - 2 > 0 {
      assert words[n - 2] != "";
      GlueAllLastNonEmpty(q.open);
    } else {
      assert q == Packing([], [words[0]]);
      GlueAllSnoc([], words[0]);
      GlueAllSnoc([], words[1]);
      assert [] + [words[0]] == [words[0]] && [] + [words[1]] == [words[1]];
    }
  }

  /** The current line ends with the word read last. */
  lemma {:induction false} PackOpenLast(m: Metrics, words: seq<string>, n: nat)
    requires 1 <= n <= |words|
    ensures Pack(m, words, n).open != [] && Pack(m, words, n).open[|Pack(m, words, n).open| - 1] == words[n - 1]
  {
  }

  lemma {:induction false} GlueAllLastNonEmpty(g: seq<string>)
    requires g != [] && g[|g| - 1] != ""
    ensures GlueAll(g) != ""
  {
    GlueAllSnoc(g[..|g| - 1], g[|g| - 1]);
    assert g[..|g| - 1] + [g[|g| - 1]] == g;
  }

  /**
   * A word list that absorbs nothing and whose current line ends non-empty:
   * its sublines joined by single spaces are its words joined by single
   * spaces, so splitting that text gives the words back and they wrap to the
   * same sublines.
   */
  lemma {:induction false} RewrapTight(m: Metrics, words: seq<string>)
    requires WellFormedWords(words) && !AbsorbsLead(m, words)
    requires GlueAll(Pack(m, words, |words|).open) != ""
    ensures Wrapped(m, JoinWith(Lines(Pack(m, words, |words|)), " ")) == Lines(Pack(m, words, |words|))
  {
    var p := Pack(m, words, |words|);
    PackText(m, words, |words|);
    assert words[..|words|] == words;
    SplitOnSpacesOfJoin(words);
    GroupsLines(m, words);
  }

  /** Dropping an absorbed leading empty word leaves a well-formed word list with the same sublines that absorbs nothing. */
  lemma {:induction false} DropLead(m: Metrics, words: seq<string>)
    requires WellFormedWords(words) && AbsorbsLead(m, words)
    requires Lines(Pack(m, words, |words|)) != []
    ensures Lines(Pack(m, words[1..], |words| - 1)) == Lines(Pack(m, words, |words|))
    ensures WellFormedWords(words[1..]) && !AbsorbsLead(m, words[1..])
  {
    PackDropLead(m, words, |words|);
    WellFormedTail(words);
    AbsorbedNotEmpty(m, words);
  }

  /** An absorbed leading empty word is followed by a non-empty one, unless the line has no subline. */
  lemma {:induction false} AbsorbedNotEmpty(m: Metrics, words: seq<string>)
    requires WellFormedWords(words) && AbsorbsLead(m, words)
    requires Lines(Pack(m, words, |words|)) != []
    ensures words[1] != ""
  {
    if |words| == 2 {
      AbsorbedPair(m, words);
    } else {
      assert 0 < 1 < |words| - 1;
    }
  }

  /** Two words of which the first is absorbed make one subline, the second word, when it is not empty. */
  lemma {:induction false} AbsorbedPair(m: Metrics, words: seq<string>)
    requires AbsorbsLead(m, words) && |words| == 2
    ensures Lines(Pack(m, words, 2)) == if words[1] != "" then [words[1]] else []
  {
    GlueAllSnoc([], "");
    assert [] + [""] == [""];
    assert Pack(m, words, 1) == Packing([], [""]);
    GlueAllSnoc([""], words[1]);
    assert Pack(m, words, 2) == Packing([], ["", words[1]]);
  }

  /**
   * When the current line of a word list that absorbs nothing ends up empty,
   * dropping the last word leaves a well-formed word list with the same
   * sublines whose current line is not empty.
   */
  lemma {:induction false} DropTrail(m: Metrics, words: seq<string>)
    requires WellFormedWords(words) && !AbsorbsLead(m, words) && !Overflows(m, "")
    requires Lines(Pack(m, words, |words|)) != []
    requires GlueAll(Pack(m, words, |words|).open) == ""
    ensures |words| >= 2
    ensures Lines(Pack(m, words[..|words| - 1], |words| - 1)) == Lines(Pack(m, words, |words|))
    ensures GlueAll(Pack(m, words[..|words| - 1], |words| - 1).open) != ""
    ensures WellFormedWords(words[..|words| - 1]) && !AbsorbsLead(m, words[..|words| - 1])
  {
    assert Pack(m, words, 1) == Packing([], [words[0]]);
    GlueAllSnoc([], words[0]);
    assert [] + [words[0]] == [words[0]];
    assert |words| >= 2;
    PackDropTrail(m, words);
    WellFormedInit(words);
    var v := words[..|words| - 1];
    assert |v| >= 2 ==> v[0] == words[0] && v[1] == words[1];
  }

  lemma {:induction false} WellFormedTail(words: seq<string>)
    requires WellFormedWords(words) && |words| >= 2
    ensures WellFormedWords(words[1..])
  {
    var u := words[1..];
    forall k | 0 <= k < |u| ensures NoSpace(u[k]) && (0 < k < |u| - 1 ==> u[k] != "") {
      assert u[k] == words[k + 1];
    }
  }

  lemma {:induction false} WellFormedInit(words: seq<string>)
    requires WellFormedWords(words) && |words| >= 2
    ensures WellFormedWords(words[..|words| - 1])
  {
    var v := words[..|words| - 1];
    forall k | 0 <= k < |v| ensures NoSpace(v[k]) && (0 < k < |v| - 1 ==> v[k] != "") {
      assert v[k] == words[k];
    }
  }

  /** A word list with at least one subline wraps, once joined, to the same sublines. */
  lemma {:induction false} RewrapWords(m: Metrics, words: seq<string>)
    requires WellFormedWords(words) && !Overflows(m, "")
    requires Lines(Pack(m, words, |words|)) != []
    ensures Wrapped(m, JoinWith(Lines(Pack(m, words, |words|)), " ")) == Lines(Pack(m, words, |words|))
  {
    if AbsorbsLead(m, words) {
      DropLead(m, words);
      RewrapNoLead(m, words[1..]);
    } else {
      RewrapNoLead(m, words);
    }
  }

  lemma {:induction false} RewrapNoLead(m: Metrics, words: seq<string>)
    requires WellFormedWords(words) && !AbsorbsLead(m, words) && !Overflows(m, "")
    requires Lines(Pack(m, words, |words|)) != []
    ensures Wrapped(m, JoinWith(Lines(Pack(m, words, |words|)), " ")) == Lines(Pack(m, words, |words|))
  {
    if GlueAll(Pack(m, words, |words|).open) != "" {
      RewrapTight(m, words);
    } else {
      DropTrail(m, words);
      RewrapTight(m, words[..|words| - 1]);
    }
  }

  /**
   * Wrapping is stable: when the empty line fits, wrapping the sublines
   * joined by single spaces gives the same sublines.
   */
  lemma {:induction false} WrappedStable(m: Metrics, line: string)
    requires !Overflows(m, "")
    ensures Wrapped(m, JoinWith(Wrapped(m, line), " ")) == Wrapped(m, line)
  {
    var words := SplitOnSpaces(line);
    GroupsLines(m, words);
    if Lines(Pack(m, words, |words|)) == [] {
      WrappedEmpty(m);
    } else {
      RewrapWords(m, words);
    }
  }
}
