/** The claim extractor: the claim record the classifier must fill in, the
    fallback when the classifier call fails, and the hallucination filter
    that keeps only claims whose quote occurs verbatim in the section text.
    The classifier itself is not modelled; its reply is an input. */
module ClaimAgent {
  import opened Results
  import opened Text
  import opened Sequences

  /** The five technical domains a claim may belong to. */
  datatype Category = Performance | ConcurrencyAndScale | Reliability | Abstraction | Security

  /** The strength of a claim's wording. */
  datatype ConfidenceTone = Assertive | Suggestive | Aspirational

  /** The label the record schema uses for a category. */
  function CategoryName(c: Category): string {
    match c
    case Performance => "Performance"
    case ConcurrencyAndScale => "Concurrency & Scale"
    case Reliability => "Reliability"
    case Abstraction => "Abstraction"
    case Security => "Security"
  }

  /** The label the record schema uses for a tone. */
  function ToneName(t: ConfidenceTone): string {
    match t
    case Assertive => "assertive"
    case Suggestive => "suggestive"
    case Aspirational => "aspirational"
  }

  /** Schema validation of a category label: only the five exact labels are
      accepted. A reply holding any other label fails validation inside the
      call's `try`, so such a reply is a `CallFailed` and yields no claims. */
  function ParseCategory(s: string): (r: Option<Category>)
    ensures r.Some? ==> CategoryName(r.value) == s
    ensures r.None? ==> forall c: Category :: CategoryName(c) != s
  {
    if s == "Performance" then Some(Performance)
    else if s == "Concurrency & Scale" then Some(ConcurrencyAndScale)
    else if s == "Reliability" then Some(Reliability)
    else if s == "Abstraction" then Some(Abstraction)
    else if s == "Security" then Some(Security)
    else None
  }

  /** Schema validation of a tone label: only the three exact labels are
      accepted. As with categories, a reply holding any other label is a
      `CallFailed`. */
  function ParseTone(s: string): (r: Option<ConfidenceTone>)
    ensures r.Some? ==> ToneName(r.value) == s
    ensures r.None? ==> forall t: ConfidenceTone :: ToneName(t) != s
  {
    if s == "assertive" then Some(Assertive)
    else if s == "suggestive" then Some(Suggestive)
    else if s == "aspirational" then Some(Aspirational)
    else None
  }

  /** Each category has its own label, so a label names exactly one. */
  lemma CategoryLabelRoundTrip(c: Category)
    ensures ParseCategory(CategoryName(c)) == Some(c)
  {
  }

  lemma ToneLabelRoundTrip(t: ConfidenceTone)
    ensures ParseTone(ToneName(t)) == Some(t)
  {
  }

  /** A claim as the classifier returns it. */
  datatype ExtractedClaim = ExtractedClaim(
    claimText: string,
    category: Category,
    tone: ConfidenceTone,
    impliedCommitments: seq<string>,
    sourceSection: string,
    quote: string)

  /** What the structured classifier call gives back: it raised (network or
      schema failure, including a label `ParseCategory` or `ParseTone`
      rejects), the reply carried no parsed object, or the parsed list of
      claims, whose labels are therefore valid. */
  datatype ClassifierReply = CallFailed | NotParsed | Parsed(claims: seq<ExtractedClaim>)

  /** The hallucination filter: the candidates whose quote occurs in `text`
      exactly, case and whitespace included, in their original order. */
  function VerifyQuotes(candidates: seq<ExtractedClaim>, text: string): (kept: seq<ExtractedClaim>)
    ensures |kept| <= |candidates|
    ensures forall c :: c in kept ==> c in candidates && IsSubstring(c.quote, text)
    ensures forall c :: c in candidates && IsSubstring(c.quote, text) ==> c in kept
  {
    if candidates == [] then []
    else
      var c := candidates[0];
      var rest := VerifyQuotes(candidates[1..], text);
      assert forall d :: d in candidates ==> d == c || d in candidates[1..];
      if Contains(text, c.quote) then [c] + rest else rest
  }

  /** The kept claims keep the order in which the classifier gave them. */
  lemma {:induction false} VerifyQuotesKeepsOrder(candidates: seq<ExtractedClaim>, text: string)
    ensures IsSubsequence(VerifyQuotes(candidates, text), candidates)
  {
    if candidates != [] {
      var kept := VerifyQuotes(candidates, text);
      var rest := VerifyQuotes(candidates[1..], text);
      VerifyQuotesKeepsOrder(candidates[1..], text);
      if Contains(text, candidates[0].quote) {
        assert kept[1..] == rest;
      } else if rest != [] {
        SubsequenceDropFront(rest, candidates);
      }
    }
  }

  /** Filtering two batches is filtering each: the filter decides every
      claim on its own. */
  lemma {:induction false} VerifyQuotesAppend(a: seq<ExtractedClaim>, b: seq<ExtractedClaim>, text: string)
    ensures VerifyQuotes(a + b, text) == VerifyQuotes(a, text) + VerifyQuotes(b, text)
  {
    if a == [] {
      assert a + b == b;
    } else {
      assert (a + b)[1..] == a[1..] + b;
      VerifyQuotesAppend(a[1..], b, text);
    }
  }

  /** Filtering twice is filtering once. */
  lemma {:induction false} VerifyQuotesIdempotent(candidates: seq<ExtractedClaim>, text: string)
    ensures VerifyQuotes(VerifyQuotes(candidates, text), text) == VerifyQuotes(candidates, text)
  {
    if candidates != [] {
      VerifyQuotesIdempotent(candidates[1..], text);
      var rest := VerifyQuotes(candidates[1..], text);
      if Contains(text, candidates[0].quote) {
        assert ([candidates[0]] + rest)[1..] == rest;
      }
    }
  }

  /** `extract_claims(text, section_name)` once the classifier has replied:
      a failed call yields no claims, a reply without a parsed object makes
      the later `.claims` access raise, and a parsed list goes through the
      hallucination filter. */
  function ExtractClaims(reply: ClassifierReply, text: string): (r: Result<seq<ExtractedClaim>, string>)
    ensures reply.CallFailed? ==> r == Success([])
    ensures reply.NotParsed? <==> r.Failure?
    ensures r.Success? ==> forall c :: c in r.value ==> IsSubstring(c.quote, text)
    ensures reply.Parsed? ==> r.Success? && IsSubsequence(r.value, reply.claims)
    ensures reply.Parsed? ==> r == Success(VerifyQuotes(reply.claims, text))
  {
    match reply
    case CallFailed => Success([])
    case NotParsed => Failure("'NoneType' object has no attribute 'claims'")
    case Parsed(claims) =>
      VerifyQuotesKeepsOrder(claims, text);
      Success(VerifyQuotes(claims, text))
  }

  // ---------------------------------------------------------------------
  // A paraphrased quote is discarded
  // ---------------------------------------------------------------------

  const SampleText := "It supports 1000+ concurrent users."
  const ParaphrasedQuote := "supports 1000+ users"
  const VerbatimQuote := "supports 1000+ concurrent users"

  lemma SamplePlusSign()
    ensures forall k :: 0 <= k < |SampleText| && SampleText[k] == '+' ==> k == 16
  {
  }

  /** The quote could only sit where its '+' meets the text's one '+'. */
  lemma ParaphraseOnlyFitsAtThree(i: int)
    requires OccursAt(ParaphrasedQuote, SampleText, i)
    ensures i == 3
  {
    assert SampleText[i + 13] == ParaphrasedQuote[13];
    SamplePlusSign();
  }

  lemma ParaphraseNotAtThree()
    ensures !OccursAt(ParaphrasedQuote, SampleText, 3)
  {
    assert SampleText[18] != ParaphrasedQuote[15];
  }

  /** Dropping the word "concurrent" makes the quote fail the exact match,
      although it says the same thing. */
  lemma ParaphraseIsNotSubstring()
    ensures !IsSubstring(ParaphrasedQuote, SampleText)
  {
    forall i | OccursAt(ParaphrasedQuote, SampleText, i)
      ensures i == 3
    {
      ParaphraseOnlyFitsAtThree(i);
    }
    ParaphraseNotAtThree();
  }

  lemma VerbatimIsSubstring()
    ensures IsSubstring(VerbatimQuote, SampleText)
  {
    var front := "It ";
    assert SampleText == front + VerbatimQuote + ".";
    assert SampleText[|front|..|front| + |VerbatimQuote|] == VerbatimQuote;
    assert OccursAt(VerbatimQuote, SampleText, 3);
  }

  /** Of a paraphrased and a verbatim claim about the same capacity, only
      the verbatim one survives. */
  lemma OnlyVerbatimQuoteSurvives(claim: ExtractedClaim)
    ensures var paraphrased := claim.(quote := ParaphrasedQuote);
            var verbatim := claim.(quote := VerbatimQuote);
            ExtractClaims(Parsed([paraphrased, verbatim]), SampleText) == Success([verbatim])
  {
    ParaphraseIsNotSubstring();
    VerbatimIsSubstring();
    KeepsSecondOfPair(claim.(quote := ParaphrasedQuote), claim.(quote := VerbatimQuote), SampleText);
  }

  lemma KeepsSecondOfPair(a: ExtractedClaim, b: ExtractedClaim, text: string)
    requires !IsSubstring(a.quote, text) && IsSubstring(b.quote, text)
    ensures VerifyQuotes([a, b], text) == [b]
  {
    assert [a, b][1..] == [b];
    assert [b][1..] == [];
  }
}
