/**
 * The scanner behind `drawTextWithEmailsAndUrls`: the global regular
 * expression
 *
 *   /([a-zA-Z0-9._%+-]+@[a-zA-Z0-9.-]+\.[a-zA-Z]{2,})|(https?:\/\/[^\s]+)/g
 *
 * run with `exec` from a moving `lastIndex`. The matcher is written out by
 * hand, following the backtracking of the regular expression:
 *
 *  - the email alternative is tried first at every position;
 *  - its local part is the longest run of local-part characters starting at
 *    the position (a shorter run would be followed by a local-part character,
 *    never by `@`);
 *  - its domain part is backtracked from the longest run of domain characters,
 *    so the dot that starts the top-level domain is the LAST dot after the
 *    `@` that is followed by two letters; the top-level domain then takes all
 *    the letters it can;
 *  - the URL alternative takes `https://` (or, failing that, `http://`) and
 *    the whole run of non-whitespace after it, which must not be empty.
 */
module LinkScanner {
  import opened Wrappers
  import opened JsText

  /** `[a-zA-Z0-9._%+-]` */
  predicate IsLocalChar(c: char)
  {
    IsAsciiLetter(c) || IsAsciiDigit(c) || c == '.' || c == '_' || c == '%' || c == '+' || c == '-'
  }

  /** `[a-zA-Z0-9.-]` */
  predicate IsDomainChar(c: char)
  {
    IsAsciiLetter(c) || IsAsciiDigit(c) || c == '.' || c == '-'
  }

  /** `[^\s]` */
  predicate IsNonSpace(c: char) { !IsSpace(c) }

  /** End of the longest run of characters satisfying `p` that starts at `i`. */
  function RunEnd(s: string, i: nat, p: char -> bool): (r: nat)
    requires i <= |s|
    ensures i <= r <= |s|
    decreases |s| - i
  {
    if i < |s| && p(s[i]) then RunEnd(s, i + 1, p) else i
  }

  /** The run is maximal: every character in it satisfies `p`, and the one after it does not. */
  lemma {:induction false} RunEndSpan(s: string, i: nat, p: char -> bool)
    requires i <= |s|
    ensures forall k :: i <= k < RunEnd(s, i, p) ==> p(s[k])
    ensures RunEnd(s, i, p) < |s| ==> !p(s[RunEnd(s, i, p)])
    decreases |s| - i
  {
    if i < |s| && p(s[i]) {
      RunEndSpan(s, i + 1, p);
    }
  }

  /** `\.[a-zA-Z]{2,}` can start at `q`: a dot followed by at least two letters. */
  predicate TldAt(s: string, q: nat)
  {
    q + 2 < |s| && s[q] == '.' && IsAsciiLetter(s[q + 1]) && IsAsciiLetter(s[q + 2])
  }

  /** The largest `q` with `lo < q < hi` at which a top-level domain can start. */
  function LastTld(s: string, lo: nat, hi: nat): (r: Option<nat>)
    ensures r.Some? ==> lo < r.value < hi && TldAt(s, r.value)
    decreases hi
  {
    if hi <= lo + 1 then None
    else if TldAt(s, hi - 1) then Some(hi - 1)
    else LastTld(s, lo, hi - 1)
  }

  /** The top-level domain found is the last one: no later position, and none at all when none is found, starts one. */
  lemma {:induction false} LastTldIsLast(s: string, lo: nat, hi: nat)
    ensures LastTld(s, lo, hi).Some? ==> forall q :: LastTld(s, lo, hi).value < q < hi ==> !TldAt(s, q)
    ensures LastTld(s, lo, hi).None? ==> forall q :: lo < q < hi ==> !TldAt(s, q)
    decreases hi
  {
    if hi > lo + 1 && !TldAt(s, hi - 1) {
      LastTldIsLast(s, lo, hi - 1);
    }
  }

  /** Where the email alternative ends when matched at `p`, if it matches there. */
  function EmailMatchAt(s: string, p: nat): (r: Option<nat>)
    requires p <= |s|
    ensures r.Some? ==> p < r.value <= |s|
  {
    var at := RunEnd(s, p, IsLocalChar);
    if at == p || at == |s| || s[at] != '@' then None
    else
      var domainEnd := RunEnd(s, at + 1, IsDomainChar);
      match LastTld(s, at + 1, domainEnd)
      case None => None
      case Some(q) => Some(RunEnd(s, q + 1, IsAsciiLetter))
  }

  predicate StartsWithAt(s: string, p: nat, prefix: string)
  {
    p + |prefix| <= |s| && s[p..p + |prefix|] == prefix
  }

  /** Where the URL alternative ends when matched at `p`, if it matches there. */
  function UrlMatchAt(s: string, p: nat): (r: Option<nat>)
    requires p <= |s|
    ensures r.Some? ==> p < r.value <= |s|
  {
    if StartsWithAt(s, p, "https://") && p + 8 < |s| && IsNonSpace(s[p + 8]) then Some(RunEnd(s, p + 8, IsNonSpace))
    else if StartsWithAt(s, p, "http://") && p + 7 < |s| && IsNonSpace(s[p + 7]) then Some(RunEnd(s, p + 7, IsNonSpace))
    else None
  }

  datatype Kind = Email | Url

  /** A match of the regular expression: `s[start..end]`. */
  datatype Match = Match(start: nat, end: nat, kind: Kind)

  /** The regular expression matched at exactly position `p` (email alternative first). */
  function MatchAt(s: string, p: nat): (r: Option<Match>)
    requires p <= |s|
    ensures r.Some? ==> r.value.start == p < r.value.end <= |s|
  {
    match EmailMatchAt(s, p)
    case Some(e) => Some(Match(p, e, Email))
    case None =>
      match UrlMatchAt(s, p)
      case Some(e) => Some(Match(p, e, Url))
      case None => None
  }

  /** `regex.exec(s)` with `regex.lastIndex == from`: the leftmost match starting at or after `from`. */
  function NextMatch(s: string, from: nat): (r: Option<Match>)
    requires from <= |s|
    ensures r.Some? ==> from <= r.value.start < r.value.end <= |s| && MatchAt(s, r.value.start) == r
    decreases |s| - from
  {
    if MatchAt(s, from).Some? then MatchAt(s, from)
    else if from == |s| then None
    else NextMatch(s, from + 1)
  }

  /** The match `exec` reports is the leftmost one: no position it skipped starts a match. */
  lemma {:induction false} NextMatchLeftmost(s: string, from: nat)
    requires from <= |s|
    ensures NextMatch(s, from).Some? ==> forall q :: from <= q < NextMatch(s, from).value.start ==> MatchAt(s, q).None?
    ensures NextMatch(s, from).None? ==> forall q :: from <= q <= |s| ==> MatchAt(s, q).None?
    decreases |s| - from
  {
    if MatchAt(s, from).Some? {
      assert NextMatch(s, from) == MatchAt(s, from);
    } else if from < |s| {
      NextMatchLeftmost(s, from + 1);
      assert NextMatch(s, from) == NextMatch(s, from + 1);
    }
  }

  /** Every match `exec` reports from `from` on, in the order reported. */
  function Matches(s: string, from: nat): seq<Match>
    requires from <= |s|
    decreases |s| - from
  {
    match NextMatch(s, from)
    case None => []
    case Some(m) => [m] + Matches(s, m.end)
  }

  /** The text of a match. */
  function MatchText(s: string, m: Match): string
    requires m.start <= m.end <= |s|
  {
    s[m.start..m.end]
  }

  // ---------------------------------------------------------------------------
  // Properties of the scan
  // ---------------------------------------------------------------------------

  /**
   * The matches lie between `from` and the end of the text, are not empty, do
   * not overlap, come in increasing order, and each is what the expression
   * matches at its start.
   */
  lemma {:induction false} MatchesOrdered(s: string, from: nat)
    requires from <= |s|
    ensures forall k :: 0 <= k < |Matches(s, from)| ==> from <= Matches(s, from)[k].start < Matches(s, from)[k].end <= |s|
    ensures forall k :: 0 <= k < |Matches(s, from)| - 1 ==> Matches(s, from)[k].end <= Matches(s, from)[k + 1].start
    ensures forall k :: 0 <= k < |Matches(s, from)| ==> MatchAt(s, Matches(s, from)[k].start) == Some(Matches(s, from)[k])
    decreases |s| - from
  {
    var ms := Matches(s, from);
    match NextMatch(s, from)
    case None =>
    case Some(m) =>
      MatchesOrdered(s, m.end);
      var rest := Matches(s, m.end);
      assert ms == [m] + rest;
      forall k | 0 <= k < |ms| ensures from <= ms[k].start < ms[k].end <= |s| && MatchAt(s, ms[k].start) == Some(ms[k]) {
        if k > 0 { assert ms[k] == rest[k - 1]; }
      }
      forall k | 0 <= k < |ms| - 1 ensures ms[k].end <= ms[k + 1].start {
        if k > 0 { assert ms[k] == rest[k - 1] && ms[k + 1] == rest[k]; }
        else { assert ms[1] == rest[0]; }
      }
  }

  /** The end of the gap after match `k`: the start of the next match, or past the end of the text. */
  function GapEnd(s: string, ms: seq<Match>, k: nat): nat
    requires k < |ms|
  {
    if k + 1 < |ms| then ms[k + 1].start else |s| + 1
  }

  /**
   * Leftmost matching: no position in a gap starts a match, neither before the
   * first match, nor between two matches, nor after the last one.
   */
  lemma {:induction false} MatchesLeftmost(s: string, from: nat)
    requires from <= |s|
    ensures forall q :: from <= q <= |s| && (|Matches(s, from)| == 0 || q < Matches(s, from)[0].start) ==> MatchAt(s, q).None?
    ensures forall k, q :: 0 <= k < |Matches(s, from)| && Matches(s, from)[k].end <= q < GapEnd(s, Matches(s, from), k) && q <= |s| ==> MatchAt(s, q).None?
    decreases |s| - from
  {
    var ms := Matches(s, from);
    NextMatchLeftmost(s, from);
    match NextMatch(s, from)
    case None =>
    case Some(m) =>
      MatchesLeftmost(s, m.end);
      var rest := Matches(s, m.end);
      assert ms == [m] + rest;
      forall k, q | 0 <= k < |ms| && ms[k].end <= q < GapEnd(s, ms, k) && q <= |s|
        ensures MatchAt(s, q).None?
      {
        if k > 0 {
          assert ms[k] == rest[k - 1];
          assert GapEnd(s, ms, k) == GapEnd(s, rest, k - 1);
        } else {
          assert k + 1 < |ms| ==> ms[1] == rest[0];
        }
      }
  }

  /** Every character of an email match is a visible ASCII character. */
  lemma {:induction false} EmailCharVisible(s: string, p: nat, i: nat)
    requires p <= |s| && EmailMatchAt(s, p).Some? && p <= i < EmailMatchAt(s, p).value
    ensures '!' <= s[i] <= '~'
  {
    var at := RunEnd(s, p, IsLocalChar);
    var domainEnd := RunEnd(s, at + 1, IsDomainChar);
    var q := LastTld(s, at + 1, domainEnd).value;
    RunEndSpan(s, p, IsLocalChar);
    RunEndSpan(s, at + 1, IsDomainChar);
    RunEndSpan(s, q + 1, IsAsciiLetter);
    if i < at {
      assert IsLocalChar(s[i]);
    } else if i == at {
      assert s[i] == '@';
    } else {
      // the top-level domain's letters are domain characters, so its run stops inside the domain
      assert domainEnd == |s| || !IsAsciiLetter(s[domainEnd]);
      assert i < domainEnd;
      assert IsDomainChar(s[i]);
    }
  }

  /** Every character of a URL match is either part of its scheme or not whitespace. */
  lemma {:induction false} UrlCharNotSpace(s: string, p: nat, i: nat)
    requires p <= |s| && UrlMatchAt(s, p).Some? && p <= i < UrlMatchAt(s, p).value
    ensures !IsSpace(s[i])
  {
    if StartsWithAt(s, p, "https://") && p + 8 < |s| && IsNonSpace(s[p + 8]) {
      RunEndSpan(s, p + 8, IsNonSpace);
      if i < p + 8 {
        assert s[i] == "https://"[i - p];
      }
    } else {
      RunEndSpan(s, p + 7, IsNonSpace);
      if i < p + 7 {
        assert s[i] == "http://"[i - p];
      }
    }
  }

  /** The text of a match never holds whitespace. */
  lemma {:induction false} MatchHasNoSpace(s: string, p: nat)
    requires p <= |s| && MatchAt(s, p).Some?
    ensures NoSpace(MatchText(s, MatchAt(s, p).value))
  {
    var m := MatchAt(s, p).value;
    var t := MatchText(s, m);
    forall k | 0 <= k < |t| ensures !IsSpace(t[k]) {
      assert t[k] == s[p + k];
      if EmailMatchAt(s, p).Some? {
        EmailCharVisible(s, p, p + k);
      } else {
        UrlCharNotSpace(s, p, p + k);
      }
    }
  }

  /**
   * The two alternatives never both match at one position: a local part
   * cannot contain the `:` of the scheme, so preferring the email
   * alternative never hides a URL.
   */
  lemma {:induction false} EmailAndUrlNeverShareStart(s: string, p: nat)
    requires p <= |s|
    ensures EmailMatchAt(s, p).None? || UrlMatchAt(s, p).None?
  {
    if UrlMatchAt(s, p).Some? {
      var colon := if StartsWithAt(s, p, "https://") && p + 8 < |s| && IsNonSpace(s[p + 8]) then p + 5 else p + 4;
      assert s[colon] == ':' by {
        if colon == p + 5 { assert s[p..p + 8][5] == ':'; } else { assert s[p..p + 7][4] == ':'; }
      }
      assert forall k :: p <= k < colon ==> IsLocalChar(s[k]) by {
        forall k | p <= k < colon ensures IsLocalChar(s[k]) {
          if colon == p + 5 { assert s[k] == "https://"[k - p]; } else { assert s[k] == "http://"[k - p]; }
        }
      }
      RunEndStopsAt(s, p, IsLocalChar, colon);
    }
  }

  lemma {:induction false} RunEndStopsAt(s: string, i: nat, p: char -> bool, stop: nat)
    requires i <= stop < |s| && !p(s[stop])
    requires forall k :: i <= k < stop ==> p(s[k])
    ensures RunEnd(s, i, p) == stop
    decreases stop - i
  {
    if i < stop {
      RunEndStopsAt(s, i + 1, p, stop);
    }
  }

  lemma {:induction false} NextMatchIs(s: string, from: nat, m: Match)
    requires from <= m.start <= |s| && MatchAt(s, m.start) == Some(m)
    requires forall q :: from <= q < m.start ==> MatchAt(s, q).None?
    ensures NextMatch(s, from) == Some(m)
    decreases m.start - from
  {
    if from < m.start {
      assert MatchAt(s, from).None? && from < |s|;
      NextMatchIs(s, from + 1, m);
      assert NextMatch(s, from) == NextMatch(s, from + 1);
    } else {
      assert NextMatch(s, from) == MatchAt(s, from);
    }
  }
}
