/** Failure-compatible wrappers shared by every module of the model. */
module Wrappers {

  datatype Option<+T> = None | Some(value: T)

  datatype Result<+T, +E> = Ok(value: T) | Err(error: E)
}

/**
 * The few pieces of JavaScript string semantics the core relies on:
 * the `\s` character class (which is also what `String.prototype.trim`
 * removes), `trim`, `replace` with a string pattern (first occurrence only),
 * `split(/\s+/)` and `split(/\r?\n/)`.
 *
 * A Dafny `char` stands for one UTF-16 code unit of the JavaScript string.
 */
module JsText {
  import opened Wrappers

  /** `[a-zA-Z]` */
  predicate IsAsciiLetter(c: char) { 'a' <= c <= 'z' || 'A' <= c <= 'Z' }

  /** `[0-9]` */
  predicate IsAsciiDigit(c: char) { '0' <= c <= '9' }

  /** The JavaScript `\s` class: WhiteSpace and LineTerminator code points. */
  predicate IsSpace(c: char)
  {
    c == '\t' || c == '\n' || c == '\U{B}' || c == '\U{C}' || c == '\r' || c == ' '
    || c == '\U{A0}' || c == '\U{1680}' || ('\U{2000}' <= c <= '\U{200A}')
    || c == '\U{2028}' || c == '\U{2029}' || c == '\U{202F}' || c == '\U{205F}'
    || c == '\U{3000}' || c == '\U{FEFF}'
  }

  predicate NoSpace(s: string)
  {
    forall i :: 0 <= i < |s| ==> !IsSpace(s[i])
  }

  /** The end of `s[lo..hi]` once its trailing run of whitespace is dropped. */
  function TrailingSpaceStart(s: string, lo: nat, hi: nat): (r: nat)
    requires lo <= hi <= |s|
    ensures lo <= r <= hi && (r > lo ==> !IsSpace(s[r - 1]))
    ensures forall k :: r <= k < hi ==> IsSpace(s[k])
    decreases hi
  {
    if hi == lo || !IsSpace(s[hi - 1]) then hi else TrailingSpaceStart(s, lo, hi - 1)
  }

  /** `s.trim()`: drops the leading and the trailing run of whitespace and nothing else. */
  function Trim(s: string): string
  {
    var i := SpaceRunEnd(s, 0);
    s[i..TrailingSpaceStart(s, i, |s|)]
  }

  /** `SpaceRunEnd` is determined by where the run of whitespace stops. */
  lemma {:induction false} SpaceRunEndIs(s: string, i: nat, r: nat)
    requires i <= r <= |s| && (r < |s| ==> !IsSpace(s[r]))
    requires forall k :: i <= k < r ==> IsSpace(s[k])
    ensures SpaceRunEnd(s, i) == r
    decreases r - i
  {
    if i < r {
      SpaceRunEndIs(s, i + 1, r);
    }
  }

  /** `TrailingSpaceStart` is determined by where the trailing run of whitespace starts. */
  lemma {:induction false} TrailingSpaceStartIs(s: string, lo: nat, hi: nat, r: nat)
    requires lo <= r <= hi <= |s| && (r > lo ==> !IsSpace(s[r - 1]))
    requires forall k :: r <= k < hi ==> IsSpace(s[k])
    ensures TrailingSpaceStart(s, lo, hi) == r
    decreases hi
  {
    if r < hi {
      TrailingSpaceStartIs(s, lo, hi - 1, r);
    }
  }

  /** What `trim` keeps: one contiguous slice, with no whitespace at either end and only whitespace around it. */
  lemma {:induction false} TrimIsSlice(s: string) returns (i: nat, j: nat)
    ensures i <= j <= |s| && Trim(s) == s[i..j]
    ensures Trim(s) == [] || (!IsSpace(Trim(s)[0]) && !IsSpace(Trim(s)[|Trim(s)| - 1]))
    ensures forall k :: 0 <= k < i ==> IsSpace(s[k])
    ensures forall k :: j <= k < |s| ==> IsSpace(s[k])
  {
    i := SpaceRunEnd(s, 0);
    j := TrailingSpaceStart(s, i, |s|);
  }

  /** A string with whitespace at neither end is left alone by `trim`. */
  lemma {:induction false} TrimOfTrimmed(s: string)
    requires s == [] || (!IsSpace(s[0]) && !IsSpace(s[|s| - 1]))
    ensures Trim(s) == s
  {
    assert SpaceRunEnd(s, 0) == 0;
    assert TrailingSpaceStart(s, 0, |s|) == |s|;
  }

  /** Trimming is idempotent. */
  lemma {:induction false} TrimIdempotent(s: string)
    ensures Trim(Trim(s)) == Trim(s)
  {
    var i, j := TrimIsSlice(s);
    TrimOfTrimmed(Trim(s));
  }

  /** Whitespace added at the end does not change what `trim` keeps. */
  lemma {:induction false} TrimSnocSpace(s: string, c: char)
    requires IsSpace(c)
    ensures Trim(s + [c]) == Trim(s)
  {
    var i := SpaceRunEnd(s, 0);
    var j := TrailingSpaceStart(s, i, |s|);
    var t := s + [c];
    if i == |s| {
      forall k | 0 <= k < |t| ensures IsSpace(t[k]) {
        if k < |s| { assert t[k] == s[k]; }
      }
      SpaceRunEndIs(t, 0, |t|);
    } else {
      SnocRuns(s, c, i, j);
      SliceOfSnoc(s, c, i, j);
    }
  }

  lemma {:induction false} SliceOfSnoc<T>(s: seq<T>, c: T, i: nat, j: nat)
    requires i <= j <= |s|
    ensures (s + [c])[i..j] == s[i..j]
  {
  }

  lemma {:induction false} SnocRuns(s: string, c: char, i: nat, j: nat)
    requires IsSpace(c) && i < |s| && i == SpaceRunEnd(s, 0) && j == TrailingSpaceStart(s, i, |s|)
    ensures SpaceRunEnd(s + [c], 0) == i && TrailingSpaceStart(s + [c], i, |s| + 1) == j
  {
    var t := s + [c];
    forall k | 0 <= k < i ensures IsSpace(t[k]) {
      assert t[k] == s[k];
    }
    assert t[i] == s[i];
    SpaceRunEndIs(t, 0, i);
    forall k | j <= k < |t| ensures IsSpace(t[k]) {
      if k < |s| { assert t[k] == s[k]; }
    }
    if j > i {
      assert t[j - 1] == s[j - 1];
    }
    TrailingSpaceStartIs(t, i, |t|, j);
  }

  /** `pat` occurs in `s` starting at index `k`. */
  predicate OccursAt(s: string, pat: string, k: nat)
  {
    k + |pat| <= |s| && s[k..k + |pat|] == pat
  }

  /** Leftmost index at or after `from` where `pat` occurs in `s`. */
  function IndexOfFrom(s: string, pat: string, from: nat): (r: Option<nat>)
    ensures r.Some? ==> from <= r.value && OccursAt(s, pat, r.value)
    ensures r.Some? ==> forall k :: from <= k < r.value ==> !OccursAt(s, pat, k)
    ensures r.None? ==> forall k :: from <= k ==> !OccursAt(s, pat, k)
    decreases |s| - from
  {
    if from + |pat| > |s| then None
    else if s[from..from + |pat|] == pat then Some(from)
    else IndexOfFrom(s, pat, from + 1)
  }

  /** `s.replace(pat, rep)` with a string pattern: only the first occurrence is replaced. */
  function ReplaceFirst(s: string, pat: string, rep: string): (r: string)
  {
    match IndexOfFrom(s, pat, 0)
    case None => s
    case Some(k) => s[..k] + rep + s[k + |pat|..]
  }

  /** Replacing the first occurrence of a leading pattern strips exactly that prefix. */
  lemma {:induction false} ReplaceFirstOfPrefix(pat: string, rest: string)
    ensures ReplaceFirst(pat + rest, pat, "") == rest
  {
    assert OccursAt(pat + rest, pat, 0) by { assert (pat + rest)[0..|pat|] == pat; }
    assert (pat + rest)[|pat|..] == rest;
  }

  /** A string that does not contain the pattern is returned unchanged. */
  lemma {:induction false} ReplaceFirstAbsent(s: string, pat: string)
    requires forall k :: 0 <= k ==> !OccursAt(s, pat, k)
    ensures ReplaceFirst(s, pat, "") == s
  {
  }

  /** Joins `ws` with `sep` between consecutive elements (`Array.prototype.join`). */
  function JoinWith(ws: seq<string>, sep: string): string
  {
    if |ws| == 0 then "" else if |ws| == 1 then ws[0] else ws[0] + sep + JoinWith(ws[1..], sep)
  }

  // ---------------------------------------------------------------------------
  // split(/\s+/)
  // ---------------------------------------------------------------------------

  /** Index of the first whitespace character at or after `i`, or `|s|`. */
  function FirstSpace(s: string, i: nat): (r: nat)
    requires i <= |s|
    ensures i <= r <= |s| && (r < |s| ==> IsSpace(s[r]))
    ensures forall k :: i <= k < r ==> !IsSpace(s[k])
    decreases |s| - i
  {
    if i == |s| || IsSpace(s[i]) then i else FirstSpace(s, i + 1)
  }

  /** Index of the first non-whitespace character at or after `i`, or `|s|`. */
  function SpaceRunEnd(s: string, i: nat): (r: nat)
    requires i <= |s|
    ensures i <= r <= |s| && (r < |s| ==> !IsSpace(s[r]))
    ensures forall k :: i <= k < r ==> IsSpace(s[k])
    decreases |s| - i
  {
    if i == |s| || !IsSpace(s[i]) then i else SpaceRunEnd(s, i + 1)
  }

  /** A word list as `split(/\s+/)` produces it: no word holds whitespace, and only the first and the last word may be empty. */
  predicate WellFormedWords(ws: seq<string>)
  {
    && |ws| >= 1
    && (forall k :: 0 <= k < |ws| ==> NoSpace(ws[k]))
    && (forall k :: 0 < k < |ws| - 1 ==> ws[k] != "")
  }

  /**
   * `s.split(/\s+/)`: the pieces between maximal runs of whitespace. A
   * leading (trailing) run yields an empty first (last) piece, and the
   * empty string yields `[""]`.
   */
  function SplitOnSpaces(s: string): (r: seq<string>)
    ensures WellFormedWords(r)
    ensures s != [] && !IsSpace(s[0]) ==> r[0] != ""
    decreases |s|
  {
    var i := FirstSpace(s, 0);
    if i == |s| then [s]
    else
      var j := SpaceRunEnd(s, i);
      [s[..i]] + SplitOnSpaces(s[j..])
  }

  /** A string made only of whitespace splits into `[""]` when empty and `["", ""]` otherwise. */
  lemma {:induction false} SplitOnSpacesOfBlank(s: string)
    requires forall i :: 0 <= i < |s| ==> IsSpace(s[i])
    ensures SplitOnSpaces(s) == if s == [] then [""] else ["", ""]
  {
    if s != [] {
      var j := SpaceRunEnd(s, 0);
      assert FirstSpace(s, 0) == 0;
      assert j == |s|;
      assert s[j..] == [];
      assert SplitOnSpaces(s[j..]) == [""];
    }
  }

  /** Splitting the single-space join of a well-formed word list gives the list back. */
  lemma {:induction false} SplitOnSpacesOfJoin(ws: seq<string>)
    requires WellFormedWords(ws)
    ensures SplitOnSpaces(JoinWith(ws, " ")) == ws
    decreases |ws|
  {
    var s := JoinWith(ws, " ");
    if |ws| == 1 {
      assert FirstSpace(s, 0) == |s| by { NoSpaceFirstSpace(s); }
    } else {
      var rest := JoinWith(ws[1..], " ");
      assert s == ws[0] + " " + rest;
      var n := |ws[0]|;
      assert s == ws[0] + (" " + rest);
      FirstSpaceAfterWord(ws[0], " " + rest);
      assert FirstSpace(s, 0) == n;
      assert WellFormedWords(ws[1..]) by {
        forall k | 0 <= k < |ws[1..]| ensures NoSpace(ws[1..][k]) { assert ws[1..][k] == ws[k + 1]; }
      }
      assert rest == [] || !IsSpace(rest[0]) by {
        if rest != [] {
          if |ws| == 2 {
            assert rest == ws[1];
          } else {
            assert ws[1] != "";
            assert rest == ws[1] + " " + JoinWith(ws[2..], " ");
            assert rest[0] == ws[1][0];
          }
        }
      }
      assert SpaceRunEnd(s, n) == n + 1 by {
        assert s[n] == ' ';
        assert n + 1 == |s| || s[n + 1] == rest[0];
        assert SpaceRunEnd(s, n) == SpaceRunEnd(s, n + 1);
      }
      assert s[..n] == ws[0];
      assert s[n + 1..] == rest;
      SplitOnSpacesOfJoin(ws[1..]);
      assert ws == [ws[0]] + ws[1..];
    }
  }

  lemma {:induction false} NoSpaceFirstSpace(s: string)
    requires NoSpace(s)
    ensures FirstSpace(s, 0) == |s|
  {
  }

  lemma {:induction false} FirstSpaceAfterWord(w: string, t: string)
    requires NoSpace(w) && t != [] && IsSpace(t[0])
    ensures FirstSpace(w + t, 0) == |w|
  {
    var s := w + t;
    assert s[|w|] == t[0];
    forall k | 0 <= k < |w| ensures !IsSpace(s[k]) { assert s[k] == w[k]; }
    FirstSpaceAt(s, 0, |w|);
  }

  lemma {:induction false} FirstSpaceAt(s: string, i: nat, m: nat)
    requires i <= m < |s| && IsSpace(s[m])
    requires forall k :: i <= k < m ==> !IsSpace(s[k])
    ensures FirstSpace(s, i) == m
    decreases m - i
  {
    if i < m {
      FirstSpaceAt(s, i + 1, m);
    }
  }

  // ---------------------------------------------------------------------------
  // split(/\r?\n/)
  // ---------------------------------------------------------------------------

  /** Index of the first line feed in `s`, or `|s|`. */
  function FirstNewline(s: string): (r: nat)
    ensures r <= |s| && (r < |s| ==> s[r] == '\n')
    ensures forall k :: 0 <= k < r ==> s[k] != '\n'
  {
    if s == [] || s[0] == '\n' then 0 else 1 + FirstNewline(s[1..])
  }

  /**
   * `s.split(/\r?\n/)`: a line break is a line feed together with a carriage
   * return directly before it, if there is one. A lone carriage return stays
   * in its line.
   */
  function SplitLines(s: string): (r: seq<string>)
    ensures |r| >= 1
    ensures forall k :: 0 <= k < |r| ==> '\n' !in r[k]
    decreases |s|
  {
    var i := FirstNewline(s);
    if i == |s| then [s]
    else
      var line := if i > 0 && s[i - 1] == '\r' then s[..i - 1] else s[..i];
      [line] + SplitLines(s[i + 1..])
  }

  function CountChar(s: string, c: char): nat
  {
    if s == [] then 0 else (if s[0] == c then 1 else 0) + CountChar(s[1..], c)
  }

  lemma {:induction false} CountCharAppend(a: string, b: string, c: char)
    ensures CountChar(a + b, c) == CountChar(a, c) + CountChar(b, c)
  {
    if a != [] {
      assert (a + b)[1..] == a[1..] + b;
      assert (a + b)[0] == a[0];
      CountCharAppend(a[1..], b, c);
    } else {
      assert a + b == b;
    }
  }

  /** `split(/\r?\n/)` yields one more line than there are line feeds. */
  lemma {:induction false} SplitLinesCount(s: string)
    ensures |SplitLines(s)| == CountChar(s, '\n') + 1
    decreases |s|
  {
    var i := FirstNewline(s);
    assert s == s[..i] + s[i..];
    CountCharAppend(s[..i], s[i..], '\n');
    assert CountChar(s[..i], '\n') == 0 by { NoCharCount(s[..i], '\n'); }
    if i < |s| {
      assert s[i..] == ['\n'] + s[i + 1..];
      CountCharAppend(['\n'], s[i + 1..], '\n');
      SplitLinesCount(s[i + 1..]);
    } else {
      assert s[i..] == [];
    }
  }

  lemma {:induction false} NoCharCount(s: string, c: char)
    requires c !in s
    ensures CountChar(s, c) == 0
  {
    if s != [] {
      assert s[1..] == s[1..];
      NoCharCount(s[1..], c);
    }
  }

  /** For text without carriage returns, joining the lines with "\n" restores the text. */
  lemma {:induction false} SplitLinesJoin(s: string)
    requires '\r' !in s
    ensures JoinWith(SplitLines(s), "\n") == s
    decreases |s|
  {
    var i := FirstNewline(s);
    if i < |s| {
      var rest := s[i + 1..];
      assert '\r' !in rest by {
        forall k | 0 <= k < |rest| ensures rest[k] != '\r' { assert rest[k] == s[i + 1 + k]; }
      }
      assert i > 0 ==> s[i - 1] != '\r' by {
        if i > 0 { assert s[i - 1] in s; }
      }
      SplitLinesJoin(rest);
      var r := SplitLines(rest);
      assert SplitLines(s) == [s[..i]] + r;
      JoinCons(s[..i], r, "\n");
      assert s == s[..i] + "\n" + rest;
    }
  }

  lemma {:induction false} JoinCons(a: string, r: seq<string>, sep: string)
    requires |r| >= 1
    ensures JoinWith([a] + r, sep) == a + sep + JoinWith(r, sep)
  {
    assert ([a] + r)[1..] == r;
  }
}
