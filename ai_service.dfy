/** JSON values as `JSON.parse` produces them, and the JavaScript reading of them. */
module JsonValue {
  import opened Wrappers

  datatype Json =
    | JNull
    | JBool(b: bool)
    | JNumber(n: real)
    | JString(s: string)
    | JArray(items: seq<Json>)
    | JObject(members: map<string, Json>)

  /**
   * The property read `v.key` on a value that is not `null`: an object's own
   * member, and `undefined` (`None`) otherwise. The keys read here
   * (`isDev`, `isFit`, `reason`) are not inherited by any JSON value.
   */
  function Get(v: Json, key: string): (r: Option<Json>)
    requires !v.JNull?
    ensures r.Some? <==> v.JObject? && key in v.members
  {
    if v.JObject? && key in v.members then Some(v.members[key]) else None
  }

  /** JavaScript truthiness (`Boolean(x)`) of a property value, `undefined` included. */
  predicate Truthy(v: Option<Json>)
  {
    match v
    case None => false
    case Some(JNull) => false
    case Some(JBool(b)) => b
    case Some(JNumber(n)) => n != 0.0
    case Some(JString(s)) => s != ""
    case Some(JArray(_)) => true
    case Some(JObject(_)) => true
  }
}

/**
 * What `AIService` does with the model's replies: the reply of the fit check
 * is trimmed, stripped of Markdown code fences, parsed and coerced into an
 * analysis; the cover letter is the trimmed reply. The requests themselves
 * (prompts, model, network) are outside the model: a reply is a parameter.
 */
module AiService {
  import opened Wrappers
  import opened JsText
  import opened JsonValue

  /** The outcome of `openai.chat.completions.create`: it throws, or it returns a first-choice content, if any. */
  datatype Reply = RequestThrew | Replied(content: Option<string>)

  datatype AiError =
    | RequestFailed     // the request itself threw
    | NoValidResponse   // `No Valid Response from AI`
    | ParseFailed       // `Failed to Parse AI Response`
    | NoJobDescription  // `No Job Description Provided`

  /** The object `checkJobFitAndRole` returns. `reason` is whatever truthy value the reply held, or `""`. */
  datatype Analysis = Analysis(isDev: bool, isFit: bool, reason: Json)

  // ---------------------------------------------------------------------------
  // Code-fence removal
  // ---------------------------------------------------------------------------

  const Fence: string := "```"

  ghost predicate NoFence(s: string)
  {
    forall k :: 0 <= k ==> !OccursAt(s, Fence, k)
  }

  /** The `\w` class. */
  predicate IsWordChar(c: char)
  {
    ('a' <= c <= 'z') || ('A' <= c <= 'Z') || ('0' <= c <= '9') || c == '_'
  }

  /** The end of the run of word characters starting at `i`. */
  function WordRunEnd(s: string, i: nat): (r: nat)
    requires i <= |s|
    ensures i <= r <= |s| && (r < |s| ==> !IsWordChar(s[r]))
    ensures forall k :: i <= k < r ==> IsWordChar(s[k])
    decreases |s| - i
  {
    if i == |s| || !IsWordChar(s[i]) then i else WordRunEnd(s, i + 1)
  }

  /**
   * `s.replace(/```[\w]*\n?/g, "")`: scanning from the left, every fence is
   * removed together with the language tag after it and one line feed after
   * that, if there is one.
   */
  function StripFences(s: string): (r: string)
    ensures |r| <= |s|
    decreases |s|
  {
    if |s| < 3 then s
    else if s[..3] == Fence then
      var j := WordRunEnd(s, 3);
      StripFences(s[if j < |s| && s[j] == '\n' then j + 1 else j..])
    else [s[0]] + StripFences(s[1..])
  }

  /** `s.replace(/```/g, "")`: scanning from the left, every run of three backticks is removed. */
  function RemoveTicks(s: string): (r: string)
    ensures |r| <= |s|
    decreases |s|
  {
    if |s| < 3 then s
    else if s[..3] == Fence then RemoveTicks(s[3..])
    else [s[0]] + RemoveTicks(s[1..])
  }

  /** Lines 67-70 of the fit check, applied to the already trimmed content. */
  function Clean(content: string): string
  {
    Trim(RemoveTicks(StripFences(content)))
  }

  /** The number of backticks `s` starts with. */
  function LeadingTicks(s: string): nat
  {
    if s != [] && s[0] == '`' then 1 + LeadingTicks(s[1..]) else 0
  }

  lemma {:induction false} LeadingTicksAtMost(s: string)
    ensures LeadingTicks(s) <= |s|
    decreases |s|
  {
    if s != [] {
      LeadingTicksAtMost(s[1..]);
    }
  }

  lemma {:induction false} ModThree(x: nat)
    ensures (3 + x) % 3 == x % 3
  {
  }

  lemma {:induction false} LeadingFence(s: string)
    requires |s| >= 3 && s[..3] == Fence
    ensures LeadingTicks(s) == 3 + LeadingTicks(s[3..])
  {
    assert s[0] == '`' && s[1] == '`' && s[2] == '`' by { assert s[..3][0] == s[0] && s[..3][1] == s[1] && s[..3][2] == s[2]; }
    assert s[1..][1..][1..] == s[3..];
    assert LeadingTicks(s[1..][1..]) == 1 + LeadingTicks(s[3..]);
  }

  /** `replace(/```/g, "")` leaves the count of leading backticks modulo three. */
  lemma {:induction false} RemoveTicksLeading(s: string)
    ensures LeadingTicks(RemoveTicks(s)) == LeadingTicks(s) % 3
    decreases |s|
  {
    if |s| < 3 {
      LeadingTicksAtMost(s);
      assert LeadingTicks(s) % 3 == LeadingTicks(s);
    } else if s[..3] == Fence {
      LeadingFence(s);
      RemoveTicksLeading(s[3..]);
      ModThree(LeadingTicks(s[3..]));
    } else {
      var r := RemoveTicks(s[1..]);
      assert RemoveTicks(s) == [s[0]] + r;
      assert ([s[0]] + r)[1..] == r;
      if s[0] != '`' {
        assert LeadingTicks(RemoveTicks(s)) == 0 == LeadingTicks(s);
      } else {
        RemoveTicksLeading(s[1..]);
        if s[1] == '`' {
          assert s[2] != '`' by { assert s[..3] == [s[0], s[1], s[2]]; }
          assert LeadingTicks(s[1..][1..]) == 0;
          assert LeadingTicks(s[1..]) == 1;
        } else {
          assert LeadingTicks(s[1..]) == 0;
        }
        assert LeadingTicks(r) == LeadingTicks(s[1..]);
        assert LeadingTicks(RemoveTicks(s)) == 1 + LeadingTicks(s[1..]) == LeadingTicks(s);
        assert LeadingTicks(s) % 3 == LeadingTicks(s);
      }
    }
  }

  /** Whatever the input, no three backticks in a row survive `replace(/```/g, "")`. */
  lemma {:induction false} RemoveTicksNoFence(s: string)
    ensures NoFence(RemoveTicks(s))
    decreases |s|
  {
    var r := RemoveTicks(s);
    if |s| < 3 {
    } else if s[..3] == Fence {
      RemoveTicksNoFence(s[3..]);
    } else {
      var t := RemoveTicks(s[1..]);
      RemoveTicksNoFence(s[1..]);
      RemoveTicksLeading(s[1..]);
      assert r == [s[0]] + t;
      FirstIsNoFence(s);
      forall k | 0 < k ensures !OccursAt(r, Fence, k) {
        if OccursAt(r, Fence, k) {
          assert r[k..k + 3] == t[k - 1..k + 2];
          assert OccursAt(t, Fence, k - 1);
        }
      }
    }
  }

  /** Keeping the first character of a string that does not start with a fence does not create one. */
  lemma {:induction false} FirstIsNoFence(s: string)
    requires |s| >= 3 && s[..3] != Fence
    ensures !OccursAt([s[0]] + RemoveTicks(s[1..]), Fence, 0)
  {
    var t := RemoveTicks(s[1..]);
    var r := [s[0]] + t;
    RemoveTicksLeading(s[1..]);
    if s[0] != '`' {
      assert r[0] != Fence[0];
    } else if s[1] != '`' {
      assert LeadingTicks(t) == 0;
      assert |r| < 2 || r[1] != Fence[1];
    } else {
      assert s[2] != '`' by { assert s[..3] == [s[0], s[1], s[2]]; }
      assert s[1..][1..][0] == s[2];
      assert LeadingTicks(s[1..]) == 1;
      assert LeadingTicks(t) == 1;
      assert t[1..] == [] || t[1..][0] != '`';
      assert |r| < 3 || r[2] != Fence[2];
    }
  }

  lemma {:induction false} NoFenceTail(s: string)
    requires s != [] && NoFence(s)
    ensures NoFence(s[1..]) && (|s| >= 3 ==> s[..3] != Fence)
  {
    assert !OccursAt(s, Fence, 0);
    forall k | 0 <= k ensures !OccursAt(s[1..], Fence, k) {
      assert !OccursAt(s, Fence, k + 1);
      if k + 4 <= |s| {
        assert s[k + 1..k + 4] == s[1..][k..k + 3];
      }
    }
  }

  /** Text without a fence passes through both replacements unchanged. */
  lemma {:induction false} NoFenceUnchanged(s: string)
    requires NoFence(s)
    ensures StripFences(s) == s && RemoveTicks(s) == s
    decreases |s|
  {
    if |s| >= 3 {
      NoFenceTail(s);
      NoFenceUnchanged(s[1..]);
      assert s == [s[0]] + s[1..];
    }
  }

  lemma {:induction false} NoFenceSlice(s: string, i: nat, j: nat)
    requires i <= j <= |s| && NoFence(s)
    ensures NoFence(s[i..j])
  {
    forall k | 0 <= k ensures !OccursAt(s[i..j], Fence, k) {
      if OccursAt(s[i..j], Fence, k) {
        assert s[i..j][k..k + 3] == s[i..j][k..][..3];
        assert s[i..j][k..] == s[i + k..j];
        assert s[i + k..i + k + 3] == s[i + k..j][..3];
        assert OccursAt(s, Fence, i + k);
      }
    }
  }

  /** The cleaned content holds no triple backtick. */
  lemma {:induction false} CleanHasNoFence(content: string)
    ensures NoFence(Clean(content))
  {
    var x := RemoveTicks(StripFences(content));
    RemoveTicksNoFence(StripFences(content));
    var i, j := TrimIsSlice(x);
    NoFenceSlice(x, i, j);
  }

  /** Content without a fence is only trimmed. */
  lemma {:induction false} CleanWithoutFence(content: string)
    requires NoFence(content)
    ensures Clean(content) == Trim(content)
  {
    NoFenceUnchanged(content);
  }

  /** Cleaning cleaned content changes nothing. */
  lemma {:induction false} CleanIdempotent(content: string)
    ensures Clean(Clean(content)) == Clean(content)
  {
    CleanHasNoFence(content);
    CleanWithoutFence(Clean(content));
    TrimIdempotent(RemoveTicks(StripFences(content)));
  }

  lemma {:induction false} StripFencesAppendStep(a: string, b: string)
    requires a != [] && NoFence(a) && a[|a| - 1] != '`' && |a + b| >= 3
    ensures StripFences(a + b) == [a[0]] + StripFences(a[1..] + b)
  {
    if |a| >= 3 {
      NoFenceTail(a);
      assert (a + b)[..3] == a[..3];
    } else {
      assert (a + b)[..3][|a| - 1] == a[|a| - 1];
    }
    assert (a + b)[1..] == a[1..] + b;
  }

  lemma {:induction false} StripFencesShort(s: string)
    requires |s| < 3
    ensures StripFences(s) == s
  {
  }

  /** A prefix without a fence that does not end in a backtick is kept whole by the fence removal. */
  lemma {:induction false} StripFencesAppend(a: string, b: string)
    requires NoFence(a) && (a == [] || a[|a| - 1] != '`')
    ensures StripFences(a + b) == a + StripFences(b)
    decreases |a|
  {
    var s := a + b;
    if a == [] {
      assert s == b;
    } else if |s| < 3 {
      StripFencesShort(s);
      StripFencesShort(b);
    } else {
      StripFencesAppendStep(a, b);
      NoFenceTail(a);
      StripFencesAppend(a[1..], b);
      assert a == [a[0]] + a[1..];
    }
  }

  /**
   * A reply wrapped in a fence with a language tag, as in "```json", a line
   * feed, the body, a line feed and a closing fence, is cleaned to the trimmed
   * body.
   */
  lemma {:induction false} FencedReplyIsUnwrapped(tag: string, body: string)
    requires forall i :: 0 <= i < |tag| ==> IsWordChar(tag[i])
    requires NoFence(body)
    ensures Clean(Fence + tag + "\n" + body + "\n" + Fence) == Trim(body)
  {
    var s := Fence + tag + "\n" + body + "\n" + Fence;
    var n := |tag|;
    assert s[..3] == Fence;
    assert s[3 + n] == '\n';
    forall k | 3 <= k < 3 + n ensures IsWordChar(s[k]) { assert s[k] == tag[k - 3]; }
    assert WordRunEnd(s, 3) == 3 + n by { WordRunEndIs(s, 3, 3 + n); }
    var a := body + "\n";
    assert s[4 + n..] == a + Fence;
    assert NoFence(a) by {
      forall k | 0 <= k ensures !OccursAt(a, Fence, k) {
        if OccursAt(a, Fence, k) {
          assert a[k + 2] == '`';
          assert k + 2 < |body| by { assert a[|body|] == '\n'; }
          assert body[k..k + 3] == a[k..k + 3];
          assert OccursAt(body, Fence, k);
        }
      }
    }
    StripFencesAppend(a, Fence);
    assert StripFences(Fence) == "" by {
      assert Fence[..3] == Fence;
      assert WordRunEnd(Fence, 3) == 3;
      assert Fence[3..] == "";
    }
    assert StripFences(s) == a;
    NoFenceUnchanged(a);
    TrimSnocSpace(body, '\n');
  }

  lemma {:induction false} WordRunEndIs(s: string, i: nat, m: nat)
    requires i <= m <= |s| && (m < |s| ==> !IsWordChar(s[m]))
    requires forall k :: i <= k < m ==> IsWordChar(s[k])
    ensures WordRunEnd(s, i) == m
    decreases m - i
  {
    if i < m {
      WordRunEndIs(s, i + 1, m);
    }
  }

  // ---------------------------------------------------------------------------
  // checkJobFitAndRole and generateCoverLetter
  // ---------------------------------------------------------------------------

  /** `parsed.reason || ""`. */
  function ReasonOf(parsed: Json): (r: Json)
    requires !parsed.JNull?
    ensures Truthy(Some(r)) || r == JString("")
    ensures Truthy(Get(parsed, "reason")) ==> Some(r) == Get(parsed, "reason")
  {
    var v := Get(parsed, "reason");
    if Truthy(v) then v.value else JString("")
  }

  /**
   * `checkJobFitAndRole(title, description)` once the request has been made:
   * `parse` is `JSON.parse`, with `None` where it throws.
   */
  function CheckJobFitAndRole(reply: Reply, parse: string -> Option<Json>): (r: Result<Analysis, AiError>)
    ensures r == Err(RequestFailed) <==> reply.RequestThrew?
    ensures r == Err(NoValidResponse) <==> reply.Replied? && (reply.content.None? || Trim(reply.content.value) == "")
    ensures r.Ok? ==> Truthy(Some(r.value.reason)) || r.value.reason == JString("")
  {
    match reply
    case RequestThrew => Err(RequestFailed)
    case Replied(c) =>
      if c.None? || Trim(c.value) == "" then Err(NoValidResponse)
      else
        match parse(Clean(Trim(c.value)))
        case None => Err(ParseFailed)
        case Some(parsed) =>
          if parsed.JNull? then Err(ParseFailed)  // reading a property of `null` throws inside the `try`
          else Ok(Analysis(Truthy(Get(parsed, "isDev")), Truthy(Get(parsed, "isFit")), ReasonOf(parsed)))
  }

  /**
   * A non-blank reply that parses to a JSON value other than `null` gives an
   * analysis whose flags are the truthiness of the parsed fields; any other
   * non-blank reply is a parse error, never a default analysis.
   */
  lemma {:induction false} CheckJobFitAndRoleParsed(c: string, parse: string -> Option<Json>)
    requires Trim(c) != ""
    ensures var p := parse(Clean(Trim(c)));
      var r := CheckJobFitAndRole(Replied(Some(c)), parse);
      && (p.None? || p.value.JNull? <==> r == Err(ParseFailed))
      && (r.Ok? ==> r.value.isDev == Truthy(Get(p.value, "isDev")) && r.value.isFit == Truthy(Get(p.value, "isFit"))
                    && r.value.reason == ReasonOf(p.value))
  {
  }

  /** `generateCoverLetter(companyName, jobDescription)` once the request has been made. */
  function GenerateCoverLetter(jobDescription: string, reply: Reply): (r: Result<string, AiError>)
    ensures jobDescription == "" ==> r == Err(NoJobDescription)
    ensures jobDescription != "" && reply.RequestThrew? ==> r == Err(RequestFailed)
    ensures jobDescription != "" && reply.Replied? && reply.content.Some? ==> r == Ok(Trim(reply.content.value))
    ensures jobDescription != "" && reply.Replied? && reply.content.None? ==> r == Ok("")
    ensures r.Ok? ==> Trim(r.value) == r.value
  {
    if jobDescription == "" then Err(NoJobDescription)
    else
      match reply
      case RequestThrew => Err(RequestFailed)
      case Replied(c) =>
        if c.Some? then TrimIdempotent(c.value); Ok(Trim(c.value)) else Ok("")
  }
}
