/** The orchestration: which README sections are analysed, the stop when no
    claim survives extraction, one judgment per claim, and the verdict
    tally. The two classifiers are function parameters, and the iteration
    order of the set of target sections is the parameter `order`. */
module RunAnalysis {
  import opened Results
  import opened Text
  import opened Sequences
  import RF = ReadmeFetcher
  import CA = ClaimAgent
  import IF = IssuesFetcher
  import JA = JudgmentAgent

  // ---------------------------------------------------------------------
  // Section selection
  // ---------------------------------------------------------------------

  const TopicKeywords: seq<string> := ["concurrency", "scale", "performance", "features", "capabilities"]

  /** The key names one of the domains the analysis targets. */
  predicate MentionsTopic(key: string) {
    ContainsAny(key, TopicKeywords)
  }

  /** The keys that mention a topic, in key order. */
  function TopicKeys(keys: seq<string>): (r: seq<string>)
    ensures forall k :: k in r <==> k in keys && MentionsTopic(k)
  {
    if keys == [] then []
    else
      var rest := TopicKeys(keys[1..]);
      assert forall k :: k in keys <==> k == keys[0] || k in keys[1..];
      (if MentionsTopic(keys[0]) then [keys[0]] else []) + rest
  }

  /** The candidate list: `introduction`; the first key when the sections
      are non-empty and have no `introduction`; every key mentioning a
      topic. It may name a key twice or a key that is not there. */
  function TargetSections(keys: seq<string>): (targets: seq<string>)
    ensures |targets| > 0 && targets[0] == RF.Introduction
    ensures forall t :: t in targets <==>
      (|| t == RF.Introduction
       || (keys != [] && RF.Introduction !in keys && t == keys[0])
       || (t in keys && MentionsTopic(t)))
  {
    [RF.Introduction] + (if keys != [] && RF.Introduction !in keys then [keys[0]] else []) + TopicKeys(keys)
  }

  /** `order` lists each element of `targets` exactly once: an iteration
      order of `set(targets)`. */
  ghost predicate Enumerates(order: seq<string>, targets: seq<string>) {
    && (forall i, j :: 0 <= i < j < |order| ==> order[i] != order[j])
    && (forall x :: x in order <==> x in targets)
  }

  /** The names, in iteration order, that are actual section keys. */
  function AnalysedNames(order: seq<string>, sections: RF.SectionMap): (names: seq<string>)
    ensures forall n :: n in names <==> n in order && n in sections.text
    ensures IsSubsequence(names, order)
  {
    if order == [] then []
    else
      var rest := AnalysedNames(order[1..], sections);
      assert forall n :: n in order <==> n == order[0] || n in order[1..];
      if order[0] in sections.text then [order[0]] + rest else rest
  }

  /** The analysed sections are exactly the candidates that are section
      keys, each analysed once. */
  lemma AnalysedExactlyOnce(order: seq<string>, sections: RF.SectionMap)
    requires Enumerates(order, TargetSections(sections.keys))
    ensures var names := AnalysedNames(order, sections);
      && (forall n :: n in names <==> n in TargetSections(sections.keys) && n in sections.text)
      && (forall i, j :: 0 <= i < j < |names| ==> names[i] != names[j])
  {
    SubsequenceOfDistinct(AnalysedNames(order, sections), order);
  }

  /** `introduction` is analysed whenever it is a section; otherwise the
      first section is; and so is every section whose key mentions a
      topic. */
  lemma WhichSectionsAreAnalysed(order: seq<string>, sections: RF.SectionMap)
    requires sections.Valid()
    requires Enumerates(order, TargetSections(sections.keys))
    ensures RF.Introduction in sections.text ==> RF.Introduction in AnalysedNames(order, sections)
    ensures sections.keys != [] && RF.Introduction !in sections.text ==> sections.keys[0] in AnalysedNames(order, sections)
    ensures forall k :: k in sections.text && MentionsTopic(k) ==> k in AnalysedNames(order, sections)
    ensures forall n :: n in AnalysedNames(order, sections) ==>
      (|| n == RF.Introduction
       || (RF.Introduction !in sections.text && n == sections.keys[0])
       || MentionsTopic(n))
  {
  }

  // ---------------------------------------------------------------------
  // Claim extraction over the analysed sections
  // ---------------------------------------------------------------------

  /** The classifier's reply for one section, given its text and name. */
  type Classifier = (string, string) -> CA.ClassifierReply

  /** Runs extraction on each analysed section in turn and concatenates the
      verified claims; the first extraction that raises ends the run. */
  function ExtractAll(sections: RF.SectionMap, names: seq<string>, classify: Classifier): (r: Result<seq<CA.ExtractedClaim>, string>)
    requires forall n :: n in names ==> n in sections.text
  {
    if names == [] then Success([])
    else
      var text := sections.text[names[0]];
      match CA.ExtractClaims(classify(text, names[0]), text)
      case Failure(e) => Failure(e)
      case Success(claims) =>
        match ExtractAll(sections, names[1..], classify)
        case Failure(e) => Failure(e)
        case Success(rest) => Success(claims + rest)
  }

  /** The classifier's reply for section `n`. */
  function ReplyFor(sections: RF.SectionMap, n: string, classify: Classifier): CA.ClassifierReply
    requires n in sections.text
  {
    classify(sections.text[n], n)
  }

  /** Extraction fails exactly when some analysed section's reply carried no
      parsed object. */
  lemma {:induction false} ExtractAllFails(sections: RF.SectionMap, names: seq<string>, classify: Classifier)
    requires forall n :: n in names ==> n in sections.text
    ensures ExtractAll(sections, names, classify).Failure? <==>
      exists n :: n in names && ReplyFor(sections, n, classify).NotParsed?
  {
    if names != [] {
      var text := sections.text[names[0]];
      assert ReplyFor(sections, names[0], classify) == classify(text, names[0]);
      ExtractAllFails(sections, names[1..], classify);
      assert forall n :: n in names <==> n == names[0] || n in names[1..];
    }
  }

  /** Every extracted claim quotes the text of an analysed section
      verbatim. */
  lemma {:induction false} ExtractedClaimsAreQuoted(sections: RF.SectionMap, names: seq<string>, classify: Classifier)
    requires forall n :: n in names ==> n in sections.text
    requires ExtractAll(sections, names, classify).Success?
    ensures forall c :: c in ExtractAll(sections, names, classify).value ==>
      exists n :: n in names && IsSubstring(c.quote, sections.text[n])
  {
    if names != [] {
      var text := sections.text[names[0]];
      var first := CA.ExtractClaims(classify(text, names[0]), text);
      ExtractedClaimsAreQuoted(sections, names[1..], classify);
      forall c | c in ExtractAll(sections, names, classify).value
        ensures exists n :: n in names && IsSubstring(c.quote, sections.text[n])
      {
        if c in first.value {
          assert names[0] in names && IsSubstring(c.quote, sections.text[names[0]]);
        } else {
          var n :| n in names[1..] && IsSubstring(c.quote, sections.text[n]);
          assert n in names;
        }
      }
    }
  }

  // ---------------------------------------------------------------------
  // Judgment
  // ---------------------------------------------------------------------

  /** The judge's reply for one claim. */
  type Judge = CA.ExtractedClaim -> JA.JudgeReply

  /** `claim.model_dump()` as the judge reads it. */
  function RecordOf(c: CA.ExtractedClaim): JA.ClaimRecord {
    JA.ClaimRecord(c.claimText, CA.CategoryName(c.category))
  }

  /** A normalized issue as the judge reads it: every member present. */
  function EvidenceOf(issue: IF.Issue): JA.Evidence {
    JA.Evidence(Some(issue.title), Some(issue.daysOpen), Some(issue.labels), issue.body)
  }

  function EvidenceList(issues: seq<IF.Issue>): (es: seq<JA.Evidence>)
    ensures |es| == |issues|
    ensures forall i :: 0 <= i < |issues| ==> es[i] == EvidenceOf(issues[i])
  {
    if issues == [] then [] else [EvidenceOf(issues[0])] + EvidenceList(issues[1..])
  }

  /** Judges every claim in order against the same issues; the first
      judgment that raises ends the run. */
  function JudgeAll(claims: seq<CA.ExtractedClaim>, evidence: seq<JA.Evidence>, judge: Judge): (r: Result<seq<JA.ClaimJudgment>, string>)
    ensures r.Success? ==> |r.value| == |claims|
  {
    if claims == [] then Success([])
    else
      match JA.JudgeClaim(RecordOf(claims[0]), evidence, judge(claims[0]))
      case Failure(e) => Failure(e)
      case Success(j) =>
        match JudgeAll(claims[1..], evidence, judge)
        case Failure(e) => Failure(e)
        case Success(rest) => Success([j] + rest)
  }

  /** Judgment `i` is the judge's verdict on claim `i`, and the run
      succeeds exactly when every single judgment does. */
  lemma {:induction false} OneJudgmentPerClaim(claims: seq<CA.ExtractedClaim>, evidence: seq<JA.Evidence>, judge: Judge)
    ensures JudgeAll(claims, evidence, judge).Success? <==>
      forall i :: 0 <= i < |claims| ==> JA.JudgeClaim(RecordOf(claims[i]), evidence, judge(claims[i])).Success?
    ensures JudgeAll(claims, evidence, judge).Success? ==>
      forall i :: 0 <= i < |claims| ==>
        Success(JudgeAll(claims, evidence, judge).value[i]) == JA.JudgeClaim(RecordOf(claims[i]), evidence, judge(claims[i]))
  {
    if claims != [] {
      OneJudgmentPerClaim(claims[1..], evidence, judge);
      JudgeAllStep(claims, evidence, judge);
      assert forall i :: 1 <= i < |claims| ==> claims[i] == claims[1..][i - 1];
    }
  }

  /** One step of the judging loop. */
  lemma JudgeAllStep(claims: seq<CA.ExtractedClaim>, evidence: seq<JA.Evidence>, judge: Judge)
    requires claims != []
    ensures var first := JA.JudgeClaim(RecordOf(claims[0]), evidence, judge(claims[0]));
      var rest := JudgeAll(claims[1..], evidence, judge);
      && (JudgeAll(claims, evidence, judge).Success? <==> first.Success? && rest.Success?)
      && (JudgeAll(claims, evidence, judge).Success? ==>
            JudgeAll(claims, evidence, judge).value == [first.value] + rest.value)
  {
  }

  /** Each judgment carries its own claim's text and category, and its
      score is the base penalty plus the verdict's bonus. */
  lemma JudgmentsFollowClaims(claims: seq<CA.ExtractedClaim>, evidence: seq<JA.Evidence>, judge: Judge)
    requires JudgeAll(claims, evidence, judge).Success?
    ensures var js := JudgeAll(claims, evidence, judge).value;
      forall i :: 0 <= i < |claims| ==>
        && js[i].claimText == claims[i].claimText
        && js[i].category == CA.CategoryName(claims[i].category)
        && js[i].penaltyScore == JA.BasePenalty(evidence) + JA.SemanticBonus(js[i].verdict)
  {
    OneJudgmentPerClaim(claims, evidence, judge);
  }

  // ---------------------------------------------------------------------
  // Verdict tally
  // ---------------------------------------------------------------------

  datatype Summary = Summary(supported: nat, contradicted: nat, unproven: nat)

  /** The number of judgments with verdict `v`. */
  function Count(js: seq<JA.ClaimJudgment>, v: JA.Verdict): (n: nat)
    ensures n <= |js|
  {
    if js == [] then 0
    else Count(js[..|js| - 1], v) + (if js[|js| - 1].verdict == v then 1 else 0)
  }

  /** Every judgment has exactly one of the three verdicts. */
  lemma {:induction false} CountsCoverAll(js: seq<JA.ClaimJudgment>)
    ensures Count(js, JA.Supported) + Count(js, JA.Contradicted) + Count(js, JA.Unproven) == |js|
  {
    if js != [] {
      CountsCoverAll(js[..|js| - 1]);
    }
  }

  /** The per-verdict counts of `js`. */
  function Summarize(js: seq<JA.ClaimJudgment>): (s: Summary)
    ensures s.supported + s.contradicted + s.unproven == |js|
  {
    CountsCoverAll(js);
    Summary(Count(js, JA.Supported), Count(js, JA.Contradicted), Count(js, JA.Unproven))
  }

  /** The tally loop over the judgments. */
  method Tally(js: seq<JA.ClaimJudgment>) returns (s: Summary)
    ensures s.supported == Count(js, JA.Supported)
    ensures s.contradicted == Count(js, JA.Contradicted)
    ensures s.unproven == Count(js, JA.Unproven)
  {
    s := Summary(0, 0, 0);
    var k := 0;
    while k < |js|
      invariant k <= |js|
      invariant s == Summarize(js[..k])
    {
      assert js[..k + 1][..k] == js[..k];
      match js[k].verdict {
        case Supported => s := s.(supported := s.supported + 1);
        case Contradicted => s := s.(contradicted := s.contradicted + 1);
        case Unproven => s := s.(unproven := s.unproven + 1);
      }
      k := k + 1;
    }
    assert js[..k] == js;
  }

  // ---------------------------------------------------------------------
  // The pipeline
  // ---------------------------------------------------------------------

  /** How a run ends: ingestion failed (exit status 1), no claim survived
      (exit status 0), an agent raised, or every claim was judged. */
  datatype Outcome =
    | IngestionFailed
    | NoClaims
    | Crashed(reason: string)
    | Completed(judgments: seq<JA.ClaimJudgment>, summary: Summary)

  /** Everything after ingestion. */
  function Analyse(sections: RF.SectionMap, issues: seq<IF.Issue>, order: seq<string>,
                   classify: Classifier, judge: Judge): (out: Outcome)
    ensures !out.IngestionFailed?
  {
    var names := AnalysedNames(order, sections);
    match ExtractAll(sections, names, classify)
    case Failure(e) => Crashed(e)
    case Success(claims) =>
      if claims == [] then NoClaims
      else
        match JudgeAll(claims, EvidenceList(issues), judge)
        case Failure(e) => Crashed(e)
        case Success(js) => Completed(js, Summarize(js))
  }

  /** A run in terms of what ingestion produced: the decoded README, or
      `None` when fetching it failed, and the issue fetch. */
  function Pipeline(readme: Option<string>, fetched: Result<seq<IF.Issue>, IF.FetchError>, order: seq<string>,
                    classify: Classifier, judge: Judge): Outcome
  {
    if readme.None? || fetched.Failure? then IngestionFailed
    else Analyse(RF.Segment(readme.value), fetched.value, order, classify, judge)
  }

  /** When no claim survives extraction, the judge is never consulted. */
  lemma NoClaimsNeverJudges(sections: RF.SectionMap, issues: seq<IF.Issue>, order: seq<string>,
                            classify: Classifier, judge1: Judge, judge2: Judge)
    requires ExtractAll(sections, AnalysedNames(order, sections), classify) == Success([])
    ensures Analyse(sections, issues, order, classify, judge1) == NoClaims
    ensures Analyse(sections, issues, order, classify, judge2) == NoClaims
  {
  }

  /** A completed run has one judgment per extracted claim, in claim
      order, and its summary counts each verdict. */
  lemma CompletedRun(sections: RF.SectionMap, issues: seq<IF.Issue>, order: seq<string>,
                     classify: Classifier, judge: Judge)
    requires Analyse(sections, issues, order, classify, judge).Completed?
    ensures var names := AnalysedNames(order, sections);
      var claims := ExtractAll(sections, names, classify);
      var out := Analyse(sections, issues, order, classify, judge);
      && claims.Success? && claims.value != []
      && |out.judgments| == |claims.value|
      && (forall i :: 0 <= i < |claims.value| ==>
            Success(out.judgments[i]) == JA.JudgeClaim(RecordOf(claims.value[i]), EvidenceList(issues), judge(claims.value[i])))
      && out.summary.supported == Count(out.judgments, JA.Supported)
      && out.summary.contradicted == Count(out.judgments, JA.Contradicted)
      && out.summary.unproven == Count(out.judgments, JA.Unproven)
      && out.summary.supported + out.summary.contradicted + out.summary.unproven == |out.judgments|
  {
    var names := AnalysedNames(order, sections);
    var claims := ExtractAll(sections, names, classify);
    OneJudgmentPerClaim(claims.value, EvidenceList(issues), judge);
  }

  /** `run_pipeline(repo, use_case, max_issues)`: ingestion, extraction
      over the analysed sections, judgment of every claim and the tally.
      `readme` is the decoded README (or `None` when fetching it failed)
      and `pages` the issue listing replies. */
  method RunPipeline(readme: Option<string>, pages: seq<IF.PageReply>, maxIssues: int, now: int,
                     order: seq<string>, classify: Classifier, judge: Judge)
    returns (out: Outcome)
    requires readme.Some? ==> Enumerates(order, TargetSections(RF.Segment(readme.value).keys))
    ensures out == Pipeline(readme, IF.FetchSpec(pages, maxIssues, now), order, classify, judge)
    ensures readme.None? ==> out == IngestionFailed
  {
    if readme.None? {
      return IngestionFailed;
    }
    var sections := RF.Segment(readme.value);
    var fetched := IF.FetchOpenBugIssues(pages, maxIssues, now);
    if fetched.Failure? {
      return IngestionFailed;
    }
    var names := AnalysedNames(order, sections);
    var extracted := ExtractAll(sections, names, classify);
    if extracted.Failure? {
      return Crashed(extracted.error);
    }
    if extracted.value == [] {
      return NoClaims;
    }
    var judged := JudgeAll(extracted.value, EvidenceList(fetched.value), judge);
    if judged.Failure? {
      return Crashed(judged.error);
    }
    var summary := Tally(judged.value);
    out := Completed(judged.value, summary);
  }
}
