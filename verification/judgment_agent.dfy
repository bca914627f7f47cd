/** The judge: the deterministic penalty rules over open issues, and the
    aggregation that turns the classifier's draft verdict into the final
    judgment. The classifier call and its prompt are not modelled; its
    reply is an input. */
module JudgmentAgent {
  import opened Results
  import opened Text
  import opened Sequences

  /** Whether the open issues undermine a claim. */
  datatype Verdict = Supported | Contradicted | Unproven

  /** How certain the verdict is. */
  datatype Confidence = High | Medium | Low

  /** The judgment record. `penaltyScore` is schema-bounded to [0, 100]. */
  datatype ClaimJudgment = ClaimJudgment(
    claimText: string,
    category: string,
    verdict: Verdict,
    confidence: Confidence,
    reasoning: string,
    evidenceRefs: seq<string>,
    penaltyScore: int)

  /** The schema's bounds on `penalty_score`. */
  predicate InScoreRange(score: int) {
    0 <= score <= 100
  }

  /** The members of an issue record the judge reads; `None` is a missing
      member, and for `body` also a `null` one. */
  datatype Evidence = Evidence(title: Option<string>, daysOpen: Option<int>, labels: Option<seq<string>>, body: Option<string>)

  /** Every issue has a body the prompt can cut to 200 characters. */
  predicate BodiesPresent(issues: seq<Evidence>) {
    forall i :: 0 <= i < |issues| ==> issues[i].body.Some?
  }

  // ---------------------------------------------------------------------
  // calculate_base_penalty
  // ---------------------------------------------------------------------

  const ZombieDays := 60
  const ZombiePenalty := 30
  const SilentPenalty := 20
  const BaseCap := 60

  const HighPriorityLabels: seq<string> := ["bug", "critical", "p0", "p1"]
  const SilentKeywords: seq<string> := ["hangs", "deadlock", "silent", "freeze", "infinite loop"]

  /** Some label, lower-cased, is one of the high-priority labels. */
  function AnyHighPriority(labels: seq<string>): (b: bool)
    ensures b <==> exists i :: 0 <= i < |labels| && Lower(labels[i]) in HighPriorityLabels
  {
    if labels == [] then false
    else if Lower(labels[0]) in HighPriorityLabels then true
    else
      var rest := AnyHighPriority(labels[1..]);
      assert rest <==> exists i :: 1 <= i < |labels| && Lower(labels[i]) in HighPriorityLabels by {
        if rest {
          var i :| 0 <= i < |labels[1..]| && Lower(labels[1..][i]) in HighPriorityLabels;
          assert labels[1..][i] == labels[i + 1];
        }
        if exists i :: 1 <= i < |labels| && Lower(labels[i]) in HighPriorityLabels {
          var i :| 1 <= i < |labels| && Lower(labels[i]) in HighPriorityLabels;
          assert labels[1..][i - 1] == labels[i];
        }
      }
      rest
  }

  /** Rule 1, the zombie bug: open for more than 60 days (a missing count
      is 0) and carrying a high-priority label (missing labels are none). */
  function IsZombie(e: Evidence): (b: bool)
    ensures b <==> (e.daysOpen.GetOr(0) > ZombieDays
      && exists i :: 0 <= i < |e.labels.GetOr([])| && Lower(e.labels.GetOr([])[i]) in HighPriorityLabels)
  {
    e.daysOpen.GetOr(0) > ZombieDays && AnyHighPriority(e.labels.GetOr([]))
  }

  /** Rule 2, the silent failure: the lower-cased title (empty when
      missing) contains one of the keywords. */
  function IsSilentFailure(e: Evidence): (b: bool)
    ensures b <==> exists i :: 0 <= i < |SilentKeywords| && IsSubstring(SilentKeywords[i], Lower(e.title.GetOr("")))
  {
    ContainsAny(Lower(e.title.GetOr("")), SilentKeywords)
  }

  /** What one issue adds: both rules apply independently. */
  function IssuePenalty(e: Evidence): nat {
    (if IsZombie(e) then ZombiePenalty else 0) + (if IsSilentFailure(e) then SilentPenalty else 0)
  }

  /** The uncapped sum over all issues. */
  function RawPenalty(issues: seq<Evidence>): nat {
    if issues == [] then 0 else IssuePenalty(issues[0]) + RawPenalty(issues[1..])
  }

  /** `calculate_base_penalty(issues)`: the sum, capped once at 60. */
  function BasePenalty(issues: seq<Evidence>): (p: int)
    ensures 0 <= p <= BaseCap
    ensures p < BaseCap ==> p == RawPenalty(issues)
    ensures p <= RawPenalty(issues)
  {
    if RawPenalty(issues) < BaseCap then RawPenalty(issues) else BaseCap
  }

  /** Each issue adds 0, 20, 30 or 50: the rules are additive, not
      exclusive. */
  lemma IssuePenaltyValues(e: Evidence)
    ensures IssuePenalty(e) >= ZombiePenalty <==> IsZombie(e)
    ensures IssuePenalty(e) in {0, SilentPenalty, ZombiePenalty, ZombiePenalty + SilentPenalty}
    ensures IsZombie(e) && IsSilentFailure(e) ==> IssuePenalty(e) == 50
  {
  }

  lemma {:induction false} RawPenaltyAppend(a: seq<Evidence>, b: seq<Evidence>)
    ensures RawPenalty(a + b) == RawPenalty(a) + RawPenalty(b)
  {
    if a == [] {
      assert a + b == b;
    } else {
      assert (a + b)[1..] == a[1..] + b;
      RawPenaltyAppend(a[1..], b);
    }
  }

  /** More open issues never lower the base penalty. */
  lemma BasePenaltyMonotone(a: seq<Evidence>, b: seq<Evidence>)
    ensures BasePenalty(a) <= BasePenalty(a + b)
  {
    RawPenaltyAppend(a, b);
  }

  lemma RawPenaltyCons(e: Evidence, rest: seq<Evidence>)
    ensures RawPenalty([e] + rest) == IssuePenalty(e) + RawPenalty(rest)
  {
    assert ([e] + rest)[1..] == rest;
  }

  /** Taking one issue out of the middle removes exactly its share. */
  lemma RawPenaltyRemove(issues: seq<Evidence>, j: nat)
    requires j < |issues|
    ensures RawPenalty(issues) == IssuePenalty(issues[j]) + RawPenalty(issues[..j] + issues[j + 1..])
  {
    var pre, e, post := issues[..j], issues[j], issues[j + 1..];
    SplitAround(issues, j);
    RawPenaltyAppend(pre, [e] + post);
    RawPenaltyCons(e, post);
    RawPenaltyAppend(pre, post);
  }

  /** The raw sum does not depend on the order of the issues. */
  lemma {:induction false} RawPenaltyPermutation(a: seq<Evidence>, b: seq<Evidence>)
    requires multiset(a) == multiset(b)
    ensures RawPenalty(a) == RawPenalty(b)
    decreases |a|
  {
    if a == [] {
      assert |b| == |multiset(b)| == 0;
    } else {
      var j := IndexOf(b, a[0]);
      var rest := b[..j] + b[j + 1..];
      MultisetTail(a);
      MultisetWithout(b, j);
      RawPenaltyPermutation(a[1..], rest);
      RawPenaltyRemove(b, j);
    }
  }

  /** The base penalty does not depend on the order of the issues. */
  lemma BasePenaltyPermutation(a: seq<Evidence>, b: seq<Evidence>)
    requires multiset(a) == multiset(b)
    ensures BasePenalty(a) == BasePenalty(b)
  {
    RawPenaltyPermutation(a, b);
  }

  /** The cap applies to the total, not to each issue: two issues worth 50
      each give 60. */
  lemma CapAppliesToTotal(e: Evidence)
    requires IssuePenalty(e) == 50
    ensures RawPenalty([e, e]) == 100 && BasePenalty([e, e]) == BaseCap
  {
    RawPenaltyCons(e, []);
    RawPenaltyCons(e, [e]);
    assert [e] + [] == [e];
    assert [e] + [e] == [e, e];
  }

  // ---------------------------------------------------------------------
  // The issue record of the source's own self-test
  // ---------------------------------------------------------------------

  /** "AsyncRetriever hangs indefinitely under load", written around its
      keyword. */
  const SelfTestTitle := "AsyncRetriever " + "hangs" + " indefinitely under load"

  /** The self-test issue: labelled `bug`, open 63 days, and hanging. */
  const SelfTestIssue := Evidence(Some(SelfTestTitle), Some(63), Some(["bug"]), Some("System freezes when users > 50"))

  /** A lower-case word inside a string stays put when the string is
      lower-cased. */
  lemma LowerWordStays(front: string, word: string, back: string)
    requires forall i :: 0 <= i < |word| ==> !('A' <= word[i] <= 'Z')
    ensures OccursAt(word, Lower(front + word + back), |front|)
    ensures IsSubstring(word, Lower(front + word + back))
  {
    LowerAppend(front + word, back);
    LowerAppend(front, word);
    LowerKeepsLowerCase(word);
    var lowered := Lower(front) + word + Lower(back);
    assert Lower(front + word + back) == lowered;
    assert lowered[|front|..|front| + |word|] == word;
    assert OccursAt(word, lowered, |front|);
  }

  lemma SelfTestTitleHangs()
    ensures IsSubstring("hangs", Lower(SelfTestTitle))
  {
    LowerWordStays("AsyncRetriever ", "hangs", " indefinitely under load");
  }

  lemma SelfTestIsZombie()
    ensures IsZombie(SelfTestIssue)
  {
    LowerKeepsLowerCase("bug");
    assert SelfTestIssue.labels.GetOr([])[0] == "bug";
  }

  lemma SelfTestIsSilentFailure()
    ensures IsSilentFailure(SelfTestIssue)
  {
    SelfTestTitleHangs();
    SilentByKeyword(SelfTestIssue, 0);
  }

  lemma SilentByKeyword(e: Evidence, i: nat)
    requires i < |SilentKeywords| && IsSubstring(SilentKeywords[i], Lower(e.title.GetOr("")))
    ensures IsSilentFailure(e)
  {
  }

  /** An issue that triggers both rules on its own costs 30 + 20. */
  lemma BothRulesPenalty(e: Evidence)
    requires IsZombie(e) && IsSilentFailure(e)
    ensures BasePenalty([e]) == ZombiePenalty + SilentPenalty
  {
    RawPenaltyCons(e, []);
    assert [e] + [] == [e];
  }

  /** The self-test issue triggers both rules: 30 + 20 = 50. */
  lemma SelfTestPenalty()
    ensures BasePenalty([SelfTestIssue]) == 50
  {
    SelfTestIsZombie();
    SelfTestIsSilentFailure();
    BothRulesPenalty(SelfTestIssue);
  }

  // ---------------------------------------------------------------------
  // Aggregation in judge_claim
  // ---------------------------------------------------------------------

  /** The semantic part of the penalty. */
  function SemanticBonus(v: Verdict): (bonus: int)
    ensures 0 <= bonus <= 40
  {
    match v
    case Contradicted => 40
    case Unproven => 10
    case Supported => 0
  }

  /** A worse verdict never costs less. */
  lemma SemanticBonusOrder()
    ensures SemanticBonus(Supported) < SemanticBonus(Unproven) < SemanticBonus(Contradicted)
    ensures SemanticBonus(Supported) == 0 && SemanticBonus(Unproven) == 10 && SemanticBonus(Contradicted) == 40
  {
  }

  /** The claim being judged, as the dictionary `claim.model_dump()`. */
  datatype ClaimRecord = ClaimRecord(claimText: string, category: string)

  /** The classifier's reply: the call raised, the reply held no parsed
      object, or a draft judgment whose score is not yet validated. */
  datatype JudgeReply =
    | CallFailed
    | NotParsed
    | Draft(claimText: string, category: string, verdict: Verdict, confidence: Confidence,
            reasoning: string, evidenceRefs: seq<string>, penaltyScore: int)

  /** `judge_claim(claim, issues, use_case)` once the classifier has
      replied. Building the prompt slices every issue's body, which raises
      before the classifier is called when a body is missing or `null`. A
      score outside [0, 100] fails schema validation, which the method
      re-raises like any other error. On success the score and the claim
      fields are overwritten by local values. */
  function JudgeClaim(claim: ClaimRecord, issues: seq<Evidence>, reply: JudgeReply): (r: Result<ClaimJudgment, string>)
    ensures !BodiesPresent(issues) ==> r.Failure?
    ensures r.Success? <==> BodiesPresent(issues) && reply.Draft? && InScoreRange(reply.penaltyScore)
    ensures r.Success? ==>
      && r.value.penaltyScore == BasePenalty(issues) + SemanticBonus(reply.verdict)
      && InScoreRange(r.value.penaltyScore)
      && r.value.penaltyScore >= BasePenalty(issues)
      && r.value.claimText == claim.claimText
      && r.value.category == claim.category
      && r.value.verdict == reply.verdict
      && r.value.confidence == reply.confidence
      && r.value.reasoning == reply.reasoning
      && r.value.evidenceRefs == reply.evidenceRefs
  {
    var base := BasePenalty(issues);
    if !BodiesPresent(issues) then Failure("'NoneType' object is not subscriptable")
    else match reply
    case CallFailed => Failure("classifier call failed")
    case NotParsed => Failure("'NoneType' object has no attribute 'verdict'")
    case Draft(_, _, verdict, confidence, reasoning, refs, score) =>
      if !InScoreRange(score) then Failure("penalty_score out of range")
      else
        var total := base + SemanticBonus(verdict);
        var final := if total < 100 then total else 100;
        Success(ClaimJudgment(claim.claimText, claim.category, verdict, confidence, reasoning, refs, final))
  }

  /** The classifier's own score, claim text and category never reach the
      result: two drafts that differ only there give the same judgment. */
  lemma ModelFieldsIgnored(claim: ClaimRecord, issues: seq<Evidence>, d1: JudgeReply, d2: JudgeReply)
    requires d1.Draft? && d2.Draft?
    requires InScoreRange(d1.penaltyScore) && InScoreRange(d2.penaltyScore)
    requires d1.verdict == d2.verdict && d1.confidence == d2.confidence
    requires d1.reasoning == d2.reasoning && d1.evidenceRefs == d2.evidenceRefs
    ensures JudgeClaim(claim, issues, d1) == JudgeClaim(claim, issues, d2)
  {
  }

  /** The source's self-test: the hanging zombie bug with a `contradicted`
      verdict scores 50 + 40 = 90. */
  lemma SelfTestJudgment(claim: ClaimRecord, reply: JudgeReply)
    requires reply.Draft? && reply.verdict == Contradicted && InScoreRange(reply.penaltyScore)
    ensures JudgeClaim(claim, [SelfTestIssue], reply).Success?
    ensures JudgeClaim(claim, [SelfTestIssue], reply).value.penaltyScore == 90
  {
    SelfTestPenalty();
  }
}
