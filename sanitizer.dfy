/**
 * The first step of `saveAsPDF`: every character that the embedded standard
 * font cannot encode is dropped. Only tab, line feed, carriage return and
 * printable ASCII (space to tilde) survive.
 */
module TextSanitizer {

  /** The characters kept by `/[^\x09\x0A\x0D\x20-\x7E]/g`. */
  predicate Printable(c: char)
  {
    c == '\t' || c == '\n' || c == '\r' || (' ' <= c <= '~')
  }

  predicate AllPrintable(s: string)
  {
    forall i :: 0 <= i < |s| ==> Printable(s[i])
  }

  /** `content.replace(/[^\x09\x0A\x0D\x20-\x7E]/g, "")`. */
  function Sanitize(s: string): (r: string)
    ensures AllPrintable(r)
    ensures |r| <= |s|
  {
    if s == [] then []
    else (if Printable(s[0]) then [s[0]] else []) + Sanitize(s[1..])
  }

  /** Sanitizing works character by character: kept characters stay in their original order. */
  lemma {:induction false} SanitizeAppend(a: string, b: string)
    ensures Sanitize(a + b) == Sanitize(a) + Sanitize(b)
    decreases |a|
  {
    if a == [] {
      assert a + b == b;
    } else {
      var kept := if Printable(a[0]) then [a[0]] else [];
      assert (a + b)[0] == a[0];
      assert (a + b)[1..] == a[1..] + b;
      calc {
        Sanitize(a + b);
        kept + Sanitize(a[1..] + b);
        { SanitizeAppend(a[1..], b); }
        kept + (Sanitize(a[1..]) + Sanitize(b));
        (kept + Sanitize(a[1..])) + Sanitize(b);
      }
    }
  }

  /** Text made only of kept characters passes through unchanged. */
  lemma {:induction false} SanitizeKeepsPrintable(s: string)
    requires AllPrintable(s)
    ensures Sanitize(s) == s
    decreases |s|
  {
    if s != [] {
      assert AllPrintable(s[1..]) by {
        forall i | 0 <= i < |s[1..]| ensures Printable(s[1..][i]) { assert s[1..][i] == s[i + 1]; }
      }
      SanitizeKeepsPrintable(s[1..]);
      assert s == [s[0]] + s[1..];
    }
  }

  /** Sanitizing twice is the same as sanitizing once. */
  lemma {:induction false} SanitizeIdempotent(s: string)
    ensures Sanitize(Sanitize(s)) == Sanitize(s)
  {
    SanitizeKeepsPrintable(Sanitize(s));
  }
}
