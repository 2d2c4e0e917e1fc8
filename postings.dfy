/**
 * `processPostings` and `processSinglePosting`: the posting table is scanned
 * row by row; rows already in the analysis map loaded at start-up, or whose
 * apply button reads "Applied", are skipped; every other row is analysed, and
 * the scan stops after the second one. Per job, the analysis is saved, and a
 * job description, a cover letter and, for Science Co-op postings, an
 * application package follow from the fit check.
 *
 * The browser is not modelled: a row is the record of the texts the page
 * shows, and the model's replies to the two requests.
 */
module Postings {
  import opened Wrappers
  import opened JsText
  import opened JsonValue
  import opened AiService
  import JsonCache

  // ---------------------------------------------------------------------------
  // Job ids and the analysis map loaded at start-up
  // ---------------------------------------------------------------------------

  /** `id.replace("posting", "").trim()`. */
  function JobId(rowId: string): string
  {
    Trim(ReplaceFirst(rowId, "posting", ""))
  }

  /** A job id has no surrounding whitespace. */
  lemma {:induction false} JobIdIsTrimmed(rowId: string)
    ensures Trim(JobId(rowId)) == JobId(rowId)
  {
    TrimIdempotent(ReplaceFirst(rowId, "posting", ""));
  }

  /** The id of a posting row is "posting" followed by the job id. */
  lemma {:induction false} JobIdOfPostingRow(n: string)
    ensures JobId("posting" + n) == Trim(n)
  {
    ReplaceFirstOfPrefix("posting", n);
  }

  /** Only the first "posting" is removed. */
  lemma {:induction false} JobIdRemovesFirstOnly(n: string)
    requires Trim(n) == n
    ensures JobId("posting" + "posting" + n) == "posting" + n
  {
    ReplaceFirstOfPrefix("posting", "posting" + n);
    assert "posting" + "posting" + n == "posting" + ("posting" + n);
    TrimOfTrimmedPosting(n);
  }

  lemma {:induction false} TrimOfTrimmedPosting(n: string)
    requires Trim(n) == n
    ensures Trim("posting" + n) == "posting" + n
  {
    var s := "posting" + n;
    if n == [] {
      TrimOfTrimmed(s);
    } else {
      var i, j := TrimIsSlice(n);
      assert !IsSpace(n[|n| - 1]);
      TrimOfTrimmed(s);
    }
  }

  /** The cache file as the module's top-level code finds it. */
  datatype StartupFile =
    | Absent                            // `existsSync` is false: the map stays `{}`
    | Unparsable                        // `JSON.parse` throws outside any `try`
    | Object(members: map<string, Json>)

  /**
   * The map `processPostings` consults. Unlike `saveAsJSONFile`, the start-up
   * code has no fallback: an unparsable file makes the module fail to load.
   */
  function LoadAnalysisMap(f: StartupFile): (r: Option<map<string, Json>>)
    ensures r.None? <==> f.Unparsable?
    ensures f.Absent? ==> r == Some(map[])
  {
    match f
    case Absent => Some(map[])
    case Unparsable => None
    case Object(m) => Some(m)
  }

  /** The properties every object inherits from `Object.prototype`; all of them are truthy. */
  const ObjectPrototypeNames: set<string> := {
    "constructor", "hasOwnProperty", "isPrototypeOf", "propertyIsEnumerable",
    "toString", "toLocaleString", "valueOf", "__proto__",
    "__defineGetter__", "__defineSetter__", "__lookupGetter__", "__lookupSetter__"
  }

  /** `if (jobAnalysisMap[jobId])`: an own entry counts by its truthiness, an inherited one always. */
  predicate IsCached(cache: map<string, Json>, jobId: string)
  {
    if jobId in cache then Truthy(Some(cache[jobId])) else jobId in ObjectPrototypeNames
  }

  // ---------------------------------------------------------------------------
  // Rows and the scan of `processPostings`
  // ---------------------------------------------------------------------------

  /**
   * One `tr[id^="posting"]` row: its `id`, the texts read from it and from the
   * posting it opens (already trimmed by the page callbacks that read them),
   * and the replies the two requests about it would get.
   */
  datatype Row = Row(
    id: string,
    jobTitle: string,
    companyName: string,
    buttonText: string,
    fullJobDescription: string,
    applicationProcedure: string,
    fitReply: Reply,
    letterReply: Reply)

  /** A row together with the job id derived from it at the top of the loop body. */
  datatype Listed = Listed(jobId: string, row: Row)

  function Scan(rows: seq<Row>): seq<Listed>
  {
    seq(|rows|, k requires 0 <= k < |rows| => Listed(JobId(rows[k].id), rows[k]))
  }

  datatype JobDetails = JobDetails(
    jobId: string,
    jobTitle: string,
    companyName: string,
    applicationProcedure: string,
    fullJobDescription: string)

  function Details(l: Listed): JobDetails
  {
    JobDetails(l.jobId, l.row.jobTitle, l.row.companyName, l.row.applicationProcedure, l.row.fullJobDescription)
  }

  /** The two `continue`s of the scan. */
  predicate Skipped(cache: map<string, Json>, l: Listed)
  {
    IsCached(cache, l.jobId) || l.row.buttonText == "Applied"
  }

  /** The rows that are not skipped, in table order. */
  function Candidates(cache: map<string, Json>, ls: seq<Listed>): (r: seq<Listed>)
    ensures |r| <= |ls|
    ensures forall k :: 0 <= k < |r| ==> !Skipped(cache, r[k])
  {
    if ls == [] then []
    else
      var last := ls[|ls| - 1];
      Candidates(cache, ls[..|ls| - 1]) + if Skipped(cache, last) then [] else [last]
  }

  /** The scan stops once `processedCount > 1`. */
  function FirstTwo(c: seq<Listed>): (r: seq<Listed>)
    ensures |r| == if |c| < 2 then |c| else 2
    ensures r <= c
  {
    if |c| <= 2 then c else c[..2]
  }

  /** What happens to one processed job. */
  datatype Processed = Processed(details: JobDetails, outcome: Outcome)

  /** `processSinglePosting` for a row, with the two requests answered by the row's replies. */
  function Handle(l: Listed, parse: string -> Option<Json>): Processed
  {
    var d := Details(l);
    Processed(d, ProcessSinglePosting(d, CheckJobFitAndRole(l.row.fitReply, parse), GenerateCoverLetter(d.fullJobDescription, l.row.letterReply)))
  }

  function HandleAll(c: seq<Listed>, parse: string -> Option<Json>): (r: seq<Processed>)
    ensures |r| == |c|
  {
    seq(|c|, k requires 0 <= k < |c| => Handle(c[k], parse))
  }

  /** The jobs one run of `processPostings` processes, in order, given the scanned rows. */
  function Run(cache: map<string, Json>, ls: seq<Listed>, parse: string -> Option<Json>): (r: seq<Processed>)
    ensures |r| == if |Candidates(cache, ls)| < 2 then |Candidates(cache, ls)| else 2
    ensures forall k :: 0 <= k < |r| ==> k < |Candidates(cache, ls)| && r[k] == Handle(Candidates(cache, ls)[k], parse)
  {
    HandleAll(FirstTwo(Candidates(cache, ls)), parse)
  }

  /** `processPostings(page)` over the rows of the table and the map loaded at start-up. */
  method ProcessPostings(cache: map<string, Json>, rows: seq<Row>, parse: string -> Option<Json>) returns (processed: seq<Processed>)
    ensures processed == Run(cache, Scan(rows), parse)
  {
    ghost var listed := Scan(rows);
    var processedCount := 0;
    processed := [];
    for i := 0 to |rows|
      invariant processedCount == |processed| <= 1
      invariant processed == HandleAll(Candidates(cache, listed[..i]), parse)
    {
      var row := rows[i];
      var jobId, skipped := ExamineRow(cache, row);
      assert listed[i] == Listed(jobId, row);
      if skipped {
        SkippedStep(cache, listed, i, parse);
        continue;
      }
      processedCount := processedCount + 1;
      ProcessedStep(cache, listed, i, parse);
      processed := processed + [Handle(Listed(jobId, row), parse)];
      if processedCount > 1 {
        SecondJobStop(cache, listed, i, parse, processed);
        return;
      }
    }
    CandidatesStopAt(cache, listed, |rows|);
  }

  /** Lines 25-42: the job id of a row, and whether one of the two `continue`s applies to it. */
  method ExamineRow(cache: map<string, Json>, row: Row) returns (jobId: string, skipped: bool)
    ensures jobId == JobId(row.id)
    ensures skipped == Skipped(cache, Listed(jobId, row))
  {
    jobId := JobId(row.id);
    if IsCached(cache, jobId) {
      return jobId, true;
    }
    if row.buttonText == "Applied" {
      return jobId, true;
    }
    return jobId, false;
  }

  lemma {:induction false} SkippedStep(cache: map<string, Json>, ls: seq<Listed>, i: nat, parse: string -> Option<Json>)
    requires i < |ls| && Skipped(cache, ls[i])
    ensures HandleAll(Candidates(cache, ls[..i + 1]), parse) == HandleAll(Candidates(cache, ls[..i]), parse)
  {
    CandidatesSnoc(cache, ls, i);
  }

  lemma {:induction false} ProcessedStep(cache: map<string, Json>, ls: seq<Listed>, i: nat, parse: string -> Option<Json>)
    requires i < |ls| && !Skipped(cache, ls[i])
    ensures HandleAll(Candidates(cache, ls[..i + 1]), parse) == HandleAll(Candidates(cache, ls[..i]), parse) + [Handle(ls[i], parse)]
  {
    CandidatesSnoc(cache, ls, i);
    HandleAllSnoc(Candidates(cache, ls[..i]), ls[i], parse);
  }

  lemma {:induction false} SecondJobStop(cache: map<string, Json>, ls: seq<Listed>, i: nat, parse: string -> Option<Json>, processed: seq<Processed>)
    requires i < |ls| && processed == HandleAll(Candidates(cache, ls[..i + 1]), parse) && |processed| == 2
    ensures processed == Run(cache, ls, parse)
  {
    CandidatesStopAt(cache, ls, i);
  }

  /** One more row scanned. */
  lemma {:induction false} CandidatesSnoc(cache: map<string, Json>, ls: seq<Listed>, i: nat)
    requires i < |ls|
    ensures Skipped(cache, ls[i]) ==> Candidates(cache, ls[..i + 1]) == Candidates(cache, ls[..i])
    ensures !Skipped(cache, ls[i]) ==> Candidates(cache, ls[..i + 1]) == Candidates(cache, ls[..i]) + [ls[i]]
  {
    assert ls[..i + 1][..i] == ls[..i];
    assert Candidates(cache, ls[..i]) + [] == Candidates(cache, ls[..i]);
  }

  lemma {:induction false} HandleAllSnoc(c: seq<Listed>, l: Listed, parse: string -> Option<Json>)
    ensures HandleAll(c + [l], parse) == HandleAll(c, parse) + [Handle(l, parse)]
  {
  }

  /** The scan may stop at row `i` once the candidates so far are all it will process. */
  lemma {:induction false} CandidatesStopAt(cache: map<string, Json>, ls: seq<Listed>, i: nat)
    requires i <= |ls|
    requires i < |ls| ==> |Candidates(cache, ls[..i + 1])| == 2
    ensures i == |ls| ==> FirstTwo(Candidates(cache, ls)) == FirstTwo(Candidates(cache, ls[..i]))
    ensures i < |ls| ==> FirstTwo(Candidates(cache, ls)) == Candidates(cache, ls[..i + 1])
  {
    if i == |ls| {
      assert ls[..i] == ls;
    } else {
      CandidatesAppend(cache, ls[..i + 1], ls[i + 1..]);
      assert ls[..i + 1] + ls[i + 1..] == ls;
    }
  }

  /** The candidates of a concatenation are the candidates of each part, in order. */
  lemma {:induction false} CandidatesAppend(cache: map<string, Json>, a: seq<Listed>, b: seq<Listed>)
    ensures Candidates(cache, a + b) == Candidates(cache, a) + Candidates(cache, b)
    decreases |b|
  {
    if b == [] {
      assert a + b == a;
    } else {
      var init := b[..|b| - 1];
      assert (a + b)[..|a + b| - 1] == a + init;
      CandidatesAppend(cache, a, init);
    }
  }

  /** A row is a candidate exactly when it is in the table and is not skipped. */
  lemma {:induction false} CandidatesAreUnskipped(cache: map<string, Json>, ls: seq<Listed>, l: Listed)
    ensures l in Candidates(cache, ls) <==> l in ls && !Skipped(cache, l)
  {
    if ls != [] {
      var init := ls[..|ls| - 1];
      CandidatesAreUnskipped(cache, init, l);
      assert ls == init + [ls[|ls| - 1]];
    }
  }

  /** Skipped rows do not count toward the two processed jobs. */
  lemma {:induction false} SkippedRowsDoNotCount(cache: map<string, Json>, a: seq<Listed>, b: seq<Listed>, parse: string -> Option<Json>)
    requires forall k :: 0 <= k < |a| ==> Skipped(cache, a[k])
    ensures Run(cache, a + b, parse) == Run(cache, b, parse)
  {
    CandidatesAppend(cache, a, b);
    assert Candidates(cache, a) == [] by {
      if Candidates(cache, a) != [] {
        var l := Candidates(cache, a)[0];
        CandidatesAreUnskipped(cache, a, l);
      }
    }
    assert Candidates(cache, a) + Candidates(cache, b) == Candidates(cache, b);
  }

  /**
   * The map consulted is the one loaded at start-up; the analysis saved for a
   * job does not enter it, so a row that appears twice is processed twice.
   */
  lemma {:induction false} RepeatedRowProcessedTwice(cache: map<string, Json>, l: Listed, parse: string -> Option<Json>)
    requires !Skipped(cache, l)
    ensures Run(cache, [l, l], parse) == [Handle(l, parse), Handle(l, parse)]
  {
    assert [l, l][..1] == [l];
    assert [l][..0] == [];
    assert Candidates(cache, [l]) == [l];
    assert Candidates(cache, [l, l]) == [l, l];
    assert HandleAll([l, l], parse) == [Handle(l, parse), Handle(l, parse)];
  }

  /** Once two jobs are processed, later rows are not looked at. */
  lemma {:induction false} RowsAfterSecondJobIgnored(cache: map<string, Json>, a: seq<Listed>, b: seq<Listed>, parse: string -> Option<Json>)
    requires |Candidates(cache, a)| >= 2
    ensures Run(cache, a + b, parse) == Run(cache, a, parse)
  {
    CandidatesAppend(cache, a, b);
    assert FirstTwo(Candidates(cache, a + b)) == FirstTwo(Candidates(cache, a));
  }

  // ---------------------------------------------------------------------------
  // `processSinglePosting`
  // ---------------------------------------------------------------------------

  const ScienceCoop: string := "Through UBC Science Co-op"

  /** A PDF written by `saveAsPDF(filename, content, folder)`: its path and the content it lays out. */
  datatype PdfFile = PdfFile(path: string, content: string)

  /** What `sendScopeApplication` uploads and submits. */
  datatype JobPackage = JobPackage(
    jobId: string,
    coverLetterPath: string,
    documentName: string,          // typed into `#docName`
    packageName: string,           // typed into `input#packageName`
    documents: seq<string>)        // the keywords for the package's four dropdowns; each selects the first
                                   // option whose text contains it, and nothing when no option does

  datatype Outcome = Outcome(
    saved: Option<map<string, Json>>,   // the object handed to `saveAsJSONFile`
    descriptionPdf: Option<PdfFile>,
    coverLetterPdf: Option<PdfFile>,
    submitted: Option<JobPackage>)

  predicate IsSafeChar(c: char)
  {
    ('a' <= c <= 'z') || IsAsciiDigit(c) || c == '_'
  }

  /**
   * `replace(/[^a-z0-9]/gi, "_")`: with the `i` flag the class admits the
   * ASCII letters of both cases and the digits; every other code unit becomes
   * an underscore.
   */
  function ReplaceNonAlnum(s: string): (r: string)
    ensures |r| == |s|
    ensures forall i :: 0 <= i < |s| && (IsAsciiLetter(s[i]) || IsAsciiDigit(s[i])) ==> r[i] == s[i]
    ensures forall i :: 0 <= i < |s| && !(IsAsciiLetter(s[i]) || IsAsciiDigit(s[i])) ==> r[i] == '_'
  {
    if s == [] then []
    else [if IsAsciiLetter(s[0]) || IsAsciiDigit(s[0]) then s[0] else '_'] + ReplaceNonAlnum(s[1..])
  }

  function LowerChar(c: char): char
  {
    if 'A' <= c <= 'Z' then (c as int + 32) as char else c
  }

  /** `toLowerCase()` on a string of ASCII letters, digits and underscores. */
  function LowerAscii(s: string): (r: string)
    ensures |r| == |s|
    ensures forall i :: 0 <= i < |s| ==> r[i] == LowerChar(s[i])
  {
    if s == [] then [] else [LowerChar(s[0])] + LowerAscii(s[1..])
  }

  /** `jobTitle.replace(/[^a-z0-9]/gi, "_").toLowerCase()`. */
  function SafeFilename(title: string): (r: string)
    ensures |r| == |title|
    ensures forall i :: 0 <= i < |r| ==> IsSafeChar(r[i])
    ensures forall i :: 0 <= i < |r| ==> (r[i] == '_' <==> !(IsAsciiLetter(title[i]) || IsAsciiDigit(title[i])) || title[i] == '_')
  {
    LowerAscii(ReplaceNonAlnum(title))
  }

  /** A file name that is already safe is its own safe file name. */
  lemma {:induction false} SafeFilenameOfSafe(s: string)
    requires forall i :: 0 <= i < |s| ==> IsSafeChar(s[i])
    ensures SafeFilename(s) == s
  {
    var r := SafeFilename(s);
    forall i | 0 <= i < |s| ensures r[i] == s[i] {
      assert ReplaceNonAlnum(s)[i] == s[i];
    }
  }

  lemma {:induction false} SafeFilenameIdempotent(title: string)
    ensures SafeFilename(SafeFilename(title)) == SafeFilename(title)
  {
    SafeFilenameOfSafe(SafeFilename(title));
  }

  /** `path.join(folder, filename + ".pdf")`. */
  function PdfPath(folder: string, filename: string): string
  {
    folder + "/" + filename + ".pdf"
  }

  /** The object written for the job by `saveAsJSONFile`. */
  function AnalysisEntry(d: JobDetails, a: Analysis): Json
  {
    JObject(map[
      "jobTitle" := JString(d.jobTitle),
      "companyName" := JString(d.companyName),
      "applicationProcedure" := JString(d.applicationProcedure),
      "isDev" := JBool(a.isDev),
      "isFit" := JBool(a.isFit),
      "reason" := a.reason])
  }

  /** The package `sendScopeApplication` builds for a job. */
  function Package(jobId: string, coverLetterPath: string): JobPackage
  {
    var letterName := jobId + "_CoverLetter";
    JobPackage(jobId, coverLetterPath, letterName, jobId + "_Package",
      ["Summary_Sheet_2025", letterName, "Resume_2025", "Student Transcript"])
  }

  /** The branch condition of `processSinglePosting`. */
  predicate WantsCoverLetter(procedure: string, isDev: bool, isFit: bool)
  {
    if procedure == ScienceCoop then isDev || isFit else isDev && isFit
  }

  /**
   * `processSinglePosting` with `fit` the outcome of `checkJobFitAndRole` and
   * `letter` that of `generateCoverLetter`. When the fit check throws, `isDev`
   * and `isFit` stay `undefined`, which is falsy.
   */
  function ProcessSinglePosting(d: JobDetails, fit: Result<Analysis, AiError>, letter: Result<string, AiError>): (r: Outcome)
    ensures fit.Err? ==> r == Outcome(None, None, None, None)
    ensures fit.Ok? ==> r.saved == Some(map[d.jobId := AnalysisEntry(d, fit.value)])
    ensures r.descriptionPdf.Some? <==> fit.Ok? && WantsCoverLetter(d.applicationProcedure, fit.value.isDev, fit.value.isFit)
    ensures r.descriptionPdf.Some? ==> r.descriptionPdf.value == PdfFile("data/job_descriptions/" + SafeFilename(d.jobTitle) + ".pdf", d.fullJobDescription)
    ensures r.coverLetterPdf.Some? <==> r.descriptionPdf.Some? && letter.Ok?
    ensures r.coverLetterPdf.Some? ==> r.coverLetterPdf.value == PdfFile("data/cover_letters/" + SafeFilename(d.jobTitle) + ".pdf", letter.value)
    ensures r.submitted.Some? <==> r.coverLetterPdf.Some? && d.applicationProcedure == ScienceCoop
    ensures r.submitted.Some? ==> r.submitted.value.coverLetterPath == r.coverLetterPdf.value.path
  {
    var isDev := fit.Ok? && fit.value.isDev;
    var isFit := fit.Ok? && fit.value.isFit;
    var saved := if fit.Ok? then Some(map[d.jobId := AnalysisEntry(d, fit.value)]) else None;
    var coop := d.applicationProcedure == ScienceCoop;
    if !WantsCoverLetter(d.applicationProcedure, isDev, isFit) then Outcome(saved, None, None, None)
    else
      var safeFilename := SafeFilename(d.jobTitle);
      var description := PdfFile(PdfPath("data/job_descriptions", safeFilename), d.fullJobDescription);
      match letter
      case Err(_) => Outcome(saved, Some(description), None, None)
      case Ok(coverLetter) =>
        var letterPdf := PdfFile(PdfPath("data/cover_letters", safeFilename), coverLetter);
        Outcome(saved, Some(description), Some(letterPdf), if coop then Some(Package(d.jobId, letterPdf.path)) else None)
  }

  /** A submitted package names the cover letter and the package after the job id, and selects that cover letter. */
  lemma {:induction false} SubmittedPackageNames(d: JobDetails, fit: Result<Analysis, AiError>, letter: Result<string, AiError>)
    requires ProcessSinglePosting(d, fit, letter).submitted.Some?
    ensures var p := ProcessSinglePosting(d, fit, letter).submitted.value;
      && p.jobId == d.jobId
      && p.documentName == d.jobId + "_CoverLetter"
      && p.packageName == d.jobId + "_Package"
      && p.documentName in p.documents
  {
  }

  /** Science Co-op postings get a cover letter when the job is a dev role or a fit; others only when both. */
  lemma {:induction false} CoverLetterRule(d: JobDetails, a: Analysis, letter: Result<string, AiError>)
    requires letter.Ok?
    ensures var r := ProcessSinglePosting(d, Ok(a), letter);
      && (d.applicationProcedure == ScienceCoop ==> (r.coverLetterPdf.Some? <==> a.isDev || a.isFit))
      && (d.applicationProcedure != ScienceCoop ==> (r.coverLetterPdf.Some? <==> a.isDev && a.isFit))
      && (d.applicationProcedure != ScienceCoop ==> r.submitted.None?)
  {
  }

  /**
   * A job whose analysis was saved is skipped by the next run: the merged
   * file holds an object entry for its id, and objects are truthy.
   */
  lemma {:induction false} AnalysedJobSkippedNextRun(stored: JsonCache.Stored<Json>, d: JobDetails, a: Analysis, letter: Result<string, AiError>)
    requires JsonCache.SaveResult(stored, ProcessSinglePosting(d, Ok(a), letter).saved.value).Written?
    ensures var m := JsonCache.SaveResult(stored, ProcessSinglePosting(d, Ok(a), letter).saved.value).entries;
      LoadAnalysisMap(Object(m)) == Some(m) && IsCached(m, d.jobId)
  {
    var data := ProcessSinglePosting(d, Ok(a), letter).saved.value;
    assert d.jobId in data;
  }

  /** A row whose fit check fails leaves nothing behind: no analysis, no PDF, no application. */
  lemma {:induction false} FailedFitCheckLeavesNothing(l: Listed, parse: string -> Option<Json>)
    requires CheckJobFitAndRole(l.row.fitReply, parse).Err?
    ensures Handle(l, parse).outcome == Outcome(None, None, None, None)
  {
  }

  /**
   * A processed row's cover-letter PDF holds the model's reply to the letter
   * request, trimmed, or nothing when the reply had no content; a row whose
   * letter request threw gets no cover letter.
   */
  lemma {:induction false} CoverLetterPdfHoldsReply(l: Listed, parse: string -> Option<Json>)
    requires Handle(l, parse).outcome.coverLetterPdf.Some?
    ensures l.row.letterReply.Replied?
    ensures Handle(l, parse).outcome.coverLetterPdf.value.content
      == if l.row.letterReply.content.Some? then Trim(l.row.letterReply.content.value) else ""
  {
  }
}
