# TechStack Reality Check — a Dafny model of its deterministic core

The tool checks a GitHub repository's README against its open issues.

- It splits the README into sections keyed by normalized headings.
- It has a language model extract claims from selected sections. A claim survives only if its supporting quote occurs verbatim in the section text.
- It fetches and normalizes open issues, pull requests excluded.
- For each claim it combines a rule-based base penalty with the judge model's verdict into a final penalty score.
- It tallies the verdicts.

This project models everything that is not I/O, as pure functions over immutable data, and proves what that logic promises. The two language-model calls are inputs: a reply value, or a function from the prompt's inputs to a reply.

Modules, one per source file:

- `Results`: `Option` and `Result`.
- `Text`: the ASCII character classes and string operations borrowed from Python and `re`: `isspace`, `\s`, `\w`, `lower`, `strip`, `in` on strings.
- `Sequences`: order-preserving selection, splitting a sequence around an index, multisets of sequences, and associativity of concatenation.
- `ReadmeFetcher` (`ingestion/readme_fetcher.py`): `normalize_key`; the `re.split` on heading lines; building the sections dictionary as an insertion-ordered map.
- `ClaimAgent` (`agents/claim_agent.py`): the claim schema; the fallback on a failed call; the hallucination filter.
- `IssuesFetcher` (`ingestion/issues_fetcher.py`): the page loop over a sequence of page replies; pull-request filtering; normalization; the cap.
- `JudgmentAgent` (`agents/judgment_agent.py`): `calculate_base_penalty`; the aggregation in `judge_claim`.
- `RunAnalysis` (`run_analysis.py`): section selection; the no-claims stop; one judgment per claim; the verdict tally.

The page loop of `fetch_open_bug_issues` and the tally loop are written as methods. Each is proved equal to a reference definition:

- The fetch returns "the first `max_issues` records that are not pull requests, taken from the pages reachable before the first empty or failed page, normalized".
- The tally's counts are the per-verdict counts.

Where the prose description of the system and the code differ, the model follows the code:

- `normalize_key` turns only the plain space into `_`. Tabs and other whitespace stay in the key.
- The heading pattern's `\s+` may cross a line break. A heading line whose text after the marks is only whitespace, such as `#` or `## ` alone, therefore swallows the next line as its heading text, even when that line is itself a heading. The model reproduces this (`ReadmeFetcher.BareHashTakesNextLine`).
- The `body` default `""` applies only to a missing member. A `null` body stays `None`.
- `judge_claim` builds its prompt by slicing every issue's body before its `try` block. An issue whose body is `null` therefore makes the judgment raise (`JudgmentAgent.JudgeClaim`), and the whole run with it.
- `extract_claims` catches failures of the classifier call only. A reply without a parsed object makes the later `.claims` access raise (`ClaimAgent.ExtractClaims`).

## Model

| member | source | states |
|---|---|---|
| ReadmeFetcher.NormalizeKey | ingestion/readme_fetcher.py:11-24 | a normalized key has no `_` at either end, no two adjacent underscores, and only lower-case ASCII letters, digits, `_` and non-space whitespace: no `#`, emoji, punctuation, space or `-` |
| ReadmeFetcher.NormalizeKeyFixesPlainKeys | ingestion/readme_fetcher.py:11-24 | a key already made of lower-case letters, digits and single inner underscores normalizes to itself |
| ReadmeFetcher.QuickStartKey | ingestion/readme_fetcher.py:14-24 | `'## 🚀 Quick Start'` normalizes to `quick_start` |
| ReadmeFetcher.SplitHeadings | ingestion/readme_fetcher.py:65-66 | the split has an odd number of pieces that concatenate back to the whole README; each odd-placed piece is exactly the heading match (1–6 `#` at a line start, whitespace, the rest of the line) that starts at its offset; no heading line starts inside an even-placed piece |
| ReadmeFetcher.SplitHeadingsUnique | ingestion/readme_fetcher.py:65-66 | the split is the only list of pieces with those properties, so it is the `re.split` result |
| ReadmeFetcher.SplitHeadingsMissesNoHeading | ingestion/readme_fetcher.py:65-66 | no body piece contains a heading line |
| ReadmeFetcher.HeadingLineExamples | ingestion/readme_fetcher.py:65 | `# x` and `###### x` are heading lines |
| ReadmeFetcher.NonHeadingLineExamples | ingestion/readme_fetcher.py:65 | `####### x` and `#x` are not heading lines |
| ReadmeFetcher.BareHashTakesNextLine | ingestion/readme_fetcher.py:65 | because `\s+` matches a line feed, `#\nfoo` is one heading match five characters long |
| ReadmeFetcher.FirstPieceIsIntroText | ingestion/readme_fetcher.py:66-73 | the first piece is the text before the first heading line, or the whole README when there is none |
| ReadmeFetcher.Put | ingestion/readme_fetcher.py:74-85 | a dictionary assignment updates the value, keeps the keys distinct, and leaves the order of existing keys unchanged |
| ReadmeFetcher.AssembleKeys | ingestion/readme_fetcher.py:71-85 | after a series of assignments, a key is present exactly when some assignment wrote it |
| ReadmeFetcher.LastEntryWins | ingestion/readme_fetcher.py:85 | the value of a key is the body of the last assignment to it |
| ReadmeFetcher.AssembleAppend | ingestion/readme_fetcher.py:71-85 | assigning two batches in turn gives the first batch's map overridden by the second's |
| ReadmeFetcher.Segment | ingestion/readme_fetcher.py:62-85 | the sections map is a valid ordered dictionary, every stored key is non-empty and clean, and every stored text is whitespace-trimmed |
| ReadmeFetcher.SectionKeys | ingestion/readme_fetcher.py:71-85 | a key is stored exactly when it is `introduction` with non-blank text before the first heading, or the non-empty key of some heading |
| ReadmeFetcher.SectionValueOrigin | ingestion/readme_fetcher.py:72-85 | every stored text is the trimmed introduction or the trimmed body of a heading that produced that very key, so a heading whose key is empty contributes nothing |
| ReadmeFetcher.LaterHeadingWins | ingestion/readme_fetcher.py:78-85 | of two headings with the same key the later body is kept, also when that key is `introduction` |
| ReadmeFetcher.IntroductionSection | ingestion/readme_fetcher.py:71-74 | unless a heading claims it, `introduction` is stored exactly when the leading text is not blank, and holds it trimmed |
| ReadmeFetcher.NoHeadingsIsAllIntroduction | ingestion/readme_fetcher.py:66-85 | a README without heading lines yields only `introduction` holding the whole trimmed text, or nothing when it is blank |
| ClaimAgent.ParseCategory | agents/claim_agent.py:20-26 | exactly the five category labels are accepted, each naming its own category |
| ClaimAgent.ParseTone | agents/claim_agent.py:27 | exactly the three tone labels are accepted |
| ClaimAgent.CategoryLabelRoundTrip | agents/claim_agent.py:20-26 | reading a category's label gives that category back |
| ClaimAgent.ToneLabelRoundTrip | agents/claim_agent.py:27 | reading a tone's label gives that tone back |
| ClaimAgent.VerifyQuotes | agents/claim_agent.py:89-98 | a candidate is kept if and only if its quote is an exact, case-sensitive substring of the text; never more claims than candidates |
| ClaimAgent.VerifyQuotesKeepsOrder | agents/claim_agent.py:90-94 | kept claims are a subsequence of the candidates, in their original order |
| ClaimAgent.VerifyQuotesAppend | agents/claim_agent.py:91-94 | the filter decides each candidate on its own: filtering a concatenation is concatenating the filtered parts |
| ClaimAgent.VerifyQuotesIdempotent | agents/claim_agent.py:90-98 | filtering the filter's output changes nothing |
| ClaimAgent.ExtractClaims | agents/claim_agent.py:74-98 | a failed call gives the empty list; a reply without a parsed object raises; otherwise the result is exactly the hallucination filter applied to the reply's claims: an order-preserving selection whose quotes all occur in the text |
| ClaimAgent.ParaphraseIsNotSubstring | agents/claim_agent.py:93-106 | `supports 1000+ users` does not occur in `It supports 1000+ concurrent users.` |
| ClaimAgent.OnlyVerbatimQuoteSurvives | agents/claim_agent.py:89-106 | of a paraphrased and a verbatim claim, only the verbatim one survives the filter |
| IssuesFetcher.DaysBetween | ingestion/issues_fetcher.py:83 | `days_open` is the floored number of whole days between creation and now |
| IssuesFetcher.DaysAreFloored | ingestion/issues_fetcher.py:83 | one second short of a day is 0 days, a day is 1, one second before creation is -1 |
| IssuesFetcher.LabelNames | ingestion/issues_fetcher.py:85 | labels are the label names in input order, empty when the member is absent |
| IssuesFetcher.BodyText | ingestion/issues_fetcher.py:87 | an absent body becomes `""`, a `null` body stays `None`, a text is kept |
| IssuesFetcher.Normalize | ingestion/issues_fetcher.py:73-88 | normalization fails exactly when a timestamp does not parse, reporting `created_at` first; on success `id`, `number`, `title`, `state`, `comments` and `author_association` are copied, the days are floored, and labels, body and timestamps are carried over |
| IssuesFetcher.AcceptedMembers | ingestion/issues_fetcher.py:65-69 | pull requests are dropped and nothing else is |
| IssuesFetcher.NormalizeAllFailsOnBadStamp | ingestion/issues_fetcher.py:73-74 | the fetch fails, rather than defaulting, exactly when some accepted record has a malformed timestamp |
| IssuesFetcher.NormalizeAllFailure | ingestion/issues_fetcher.py:73-74 | the reported error is that of the first record that fails |
| IssuesFetcher.EmptyPageEndsFetch | ingestion/issues_fetcher.py:50-63 | pages after the first empty or halted page have no influence on the result |
| IssuesFetcher.FetchedIssuesAreIssues | ingestion/issues_fetcher.py:65-90 | each fetched issue is the normalization of a non-pull-request record of the reachable pages, in page order and within-page order |
| IssuesFetcher.FetchIsCapped | ingestion/issues_fetcher.py:37-99 | at most `max_issues` issues are returned, none when `max_issues` is not positive |
| IssuesFetcher.SliceTo | ingestion/issues_fetcher.py:99 | Python's `xs[:n]` is the prefix of `xs` of length `min(n, len(xs))`, or of length `max(len(xs) + n, 0)` when `n` is negative |
| IssuesFetcher.ProcessPage | ingestion/issues_fetcher.py:65-94 | one page's loop adds the normalized non-pull-request records until the cap, or fails at the first malformed timestamp |
| IssuesFetcher.FetchOpenBugIssues | ingestion/issues_fetcher.py:37-99 | the page loop returns exactly the first `max_issues` non-pull-request records of the reachable pages, normalized, or the first timestamp error |
| JudgmentAgent.IsZombie | agents/judgment_agent.py:42-48 | the zombie rule fires exactly when `days_open` is strictly above 60 (missing counts as 0) and some lower-cased label is `bug`, `critical`, `p0` or `p1` (missing labels are none) |
| JudgmentAgent.IsSilentFailure | agents/judgment_agent.py:52-56 | the silent-failure rule fires exactly when the lower-cased title (empty when missing) contains `hangs`, `deadlock`, `silent`, `freeze` or `infinite loop` |
| JudgmentAgent.IssuePenaltyValues | agents/judgment_agent.py:39-56 | an issue adds 0, 20, 30 or 50: the two rules are additive, not exclusive |
| JudgmentAgent.BasePenalty | agents/judgment_agent.py:32-59 | the base penalty lies in [0, 60], never exceeds the uncapped sum, and equals it below the cap |
| JudgmentAgent.CapAppliesToTotal | agents/judgment_agent.py:37-59 | the cap applies to the total: two issues worth 50 give a sum of 100 and a base of 60 |
| JudgmentAgent.RawPenaltyAppend | agents/judgment_agent.py:39-56 | the uncapped sum over two lists of issues is the sum of their sums |
| JudgmentAgent.BasePenaltyMonotone | agents/judgment_agent.py:39-59 | appending issues never lowers the base penalty |
| JudgmentAgent.RawPenaltyPermutation | agents/judgment_agent.py:39-56 | the uncapped sum does not depend on the order of the issues |
| JudgmentAgent.BasePenaltyPermutation | agents/judgment_agent.py:32-59 | the base penalty does not depend on the order of the issues |
| JudgmentAgent.SelfTestPenalty | agents/judgment_agent.py:147-155 | the self-test issue (`bug`, 63 days, a title that hangs) scores 30 + 20 = 50 |
| JudgmentAgent.SemanticBonus | agents/judgment_agent.py:121-125 | the verdict bonus lies in [0, 40] |
| JudgmentAgent.SemanticBonusOrder | agents/judgment_agent.py:121-125 | the bonus is 0 for `supported`, 10 for `unproven` and 40 for `contradicted`, rising with the severity of the verdict |
| JudgmentAgent.JudgeClaim | agents/judgment_agent.py:67-138 | the judgment fails when an issue body is missing, the call fails, no object is parsed or the model's score is outside [0, 100]; otherwise its score is base + bonus, within [0, 100] and at least the base (so the `min` with 100 never bites), and claim text and category come from the claim |
| JudgmentAgent.ModelFieldsIgnored | agents/judgment_agent.py:127-132 | the model's own score, claim text and category never influence the judgment |
| JudgmentAgent.SelfTestJudgment | agents/judgment_agent.py:142-155 | a `contradicted` verdict on the self-test issue scores 50 + 40 = 90 |
| RunAnalysis.TopicKeys | run_analysis.py:45-48 | a key is picked exactly when it contains one of `concurrency`, `scale`, `performance`, `features`, `capabilities` |
| RunAnalysis.TargetSections | run_analysis.py:39-48 | the candidates are exactly `introduction`, the first key when sections are non-empty and lack `introduction`, and every key naming a topic |
| RunAnalysis.AnalysedNames | run_analysis.py:51-52 | the analysed names are exactly the iterated names that are section keys, in iteration order |
| RunAnalysis.AnalysedExactlyOnce | run_analysis.py:51-52 | under set iteration, exactly the candidates that are actual keys are analysed, each once |
| RunAnalysis.WhichSectionsAreAnalysed | run_analysis.py:39-52 | `introduction` is analysed when present, otherwise the first section; every topic section is analysed; nothing else is |
| RunAnalysis.ExtractAllFails | run_analysis.py:51-55 | extraction over the analysed sections raises exactly when some section's reply carries no parsed object |
| RunAnalysis.ExtractedClaimsAreQuoted | run_analysis.py:51-55 | every extracted claim quotes some analysed section's text verbatim |
| RunAnalysis.EvidenceList | run_analysis.py:70 | each normalized issue is handed to the judge with all its members present |
| RunAnalysis.JudgeAll | run_analysis.py:66-71 | a successful judging phase returns as many judgments as claims |
| RunAnalysis.OneJudgmentPerClaim | run_analysis.py:66-71 | judgment `i` is the judge's judgment of claim `i`, and the phase succeeds exactly when each single judgment does |
| RunAnalysis.JudgmentsFollowClaims | run_analysis.py:66-71 | each judgment carries its own claim's text and category, and a score of base + bonus |
| RunAnalysis.Count | run_analysis.py:99-100 | a verdict count never exceeds the number of judgments |
| RunAnalysis.CountsCoverAll | run_analysis.py:94-100 | the three verdict counts sum to the number of judgments |
| RunAnalysis.Summarize | run_analysis.py:94-100 | the summary's three counts sum to the number of judgments |
| RunAnalysis.Tally | run_analysis.py:94-100 | the tally loop yields, for each verdict, the number of judgments with that verdict |
| RunAnalysis.NoClaimsNeverJudges | run_analysis.py:57-59 | when no claim survives extraction the run stops, whatever the judge would say |
| RunAnalysis.CompletedRun | run_analysis.py:57-100 | a completed run has one judgment per extracted claim, in claim order, and a summary of per-verdict counts that sum to the number of judgments |
| RunAnalysis.RunPipeline | run_analysis.py:13-100 | the pipeline fails at ingestion when the README cannot be fetched or the issue fetch fails, and otherwise ends as the reference run over the segmented README and the fetched issues |

## Left out

- HTTP requests, authentication headers, and the rate-limit and status checks are not modelled. Their outcome is an input: the README text (`None` when fetching or decoding fails) and the sequence of page replies. A page reply is either the records or `Halted`, which stands for the rate-limit or bad-status `break`.
- Base64 and UTF-8 decoding of the README is not modelled; the decoded text is the input. The commit SHA is not modelled either.
- The language-model calls and their prompts are not modelled. Replies are parameters; only the prompt's slicing of issue bodies is kept, because it can raise.
- The clock and `strptime` are not modelled. `now` and each parsed timestamp are integer seconds, and a timestamp `strptime` rejects is `None`. Calendar arithmetic and the local-time versus UTC reading of `datetime.now()` are not modelled.
- Python's `set` iteration order at `run_analysis.py:51` is the parameter `order`. `order` is required to list each candidate exactly once; which order Python picks is not modelled.
- Unicode is not modelled. The character classes `\s`, `\w`, `isspace` and `lower` are modelled on ASCII. Non-ASCII characters are neither word characters nor whitespace, so a non-ASCII letter is dropped from a key where Python would keep it.
- Missing required members of a raw issue (`id`, `title`, `created_at`, …) are not modelled; they would raise `KeyError` in Python. The raw record always has them, and only the optional `labels` and `body` may be absent.
- Logging, argument parsing, writing the JSON report and `load_dotenv` are not modelled. The program's exit statuses are the `Outcome` values `IngestionFailed` and `NoClaims`.
- A verdict or confidence outside the schema's literals is not modelled. The judge's reply carries the enumerations directly, and only the numeric bound on `penalty_score` is checked.
- RunAnalysis.RunPipeline: the failure message of a raised error is a fixed string, not Python's exact exception text.
