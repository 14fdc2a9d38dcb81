# Verified model of the competitive-intelligence backend

A Dafny model of the parts of the repository that take decisions or keep state: the concurrent batch ingest, the
sliding-window rate limiter, the report text machinery, the analysis modules behind the release gate, the wire scan
of the capture script and the artifact store. Each file is one module; the methods follow the source loop by loop and
are proved against functions, and the properties are lemmas about those functions. `dafny verify dfyconfig.toml`
checks everything.

- `batch_ingest.dfy` models `_process_batch_ingest` as a step relation over task phases (unstarted, waiting for a
  permit or lock, initialising, ingesting, recording, closing, ended) and proves safety and termination over every
  interleaving.
- `rate_limiter.dfy` has the limiter as a class over its deques, refined against a limiter that never forgets.
- `section_markers.dfy`, `report_sections.dfy`, `citation_policy.dfy` and `release_repair.dfy` treat reports as
  characters (markers, offsets, citations) or as lines (headings, sections).
- `citation_wording.dfy` has the wording rules of the citation policy pattern by pattern, `citation_lines.dfy` follows
  each citation of a line through removal and toning, `citation_repair.dfy` has the exact condition under which the
  repair works, `citation_words.dfy` the words that decide it, and `citation_failures.dfy` the reports that fail it.
- `records.dfy`, `lists.dfy`, `claim_validator.dfy`, `evaluator.dfy`, `evidence_gaps.dfy`, `red_team.dfy` and
  `agreement.dfy` model the four modules that each decide whether a claim has usable evidence, and their agreement.
- `release_gate.dfy`, `gate_decision.dfy`, `gate_issues.dfy` and `gate_progress.dfy` model the gate, when it opens, what
  it lists, and why improving it ends. `report_quality.dfy` and `quality_comparison.dfy` model the quality score and the
  regression gate, `quality_meaning.dfy` says what their numbers mean.
- `wire_scan.dfy` and `artifact_store.dfy` model the varint decoder with its text extraction and the file store.
- `common.dfy` and `text.dfy` hold sequence facts and the Python string operations used.

## Where the code and its promise differ

Each of these has a lemma that exhibits a concrete input or run and, beside it, the condition under which the code does
what is promised:

- Citation repair strips only the plain `[source:...]` spelling, while the resolver also reads other spellings. A weak
  citation in one of those stays (`OtherSpellingsSurvive`). It matters only beside strong evidence, on a line whose own
  wording is toned down, since every other repaired line is marked as a caveat, and only if that line stays strong
  (`OtherSpellingFails`, `SurvivesExactlyWhen`, `KeptWordSurvivesExactlyWhen`).
- Removing the citation of a line such as `#[source:x] Best option SSO` leaves a heading. Lines below that were no
  conclusions can turn strong under it, and a second repair changes them again; without strong evidence this happens
  only to lines that begin with `overall confidence` run into a longer word (`NewHeadingFails`,
  `NewHeadingFailsWithoutStrong`, `RepairWorksExactlyWhen`, `CleanWithoutStrongEvidence`).
- The fail-fast event is read before the semaphore, so it skips no task that has already started waiting
  (`WaitingTaskIsIngested`, `SkippedExactlyWhenLate`).
- An exception out of a recording call or a close leaves the job as running for good (`StuckJob`, `QuietJob`).
- The red-team key joins fields with bars, so ids with bars can hide a finding (`BarsHideFindings`,
  `UnsupportedExactlyWhen`).
- The report-quality check forgets the community section that its signal requires, so it can fail without a listed
  reason (`FailureWithoutReason`, `QualitySignalExactlyWhen`). It does not name the executive summary either, but that
  one is part of the core depth it does name (`DepthNeedsSummary`).
- The schema allows negative call counts, for which the score needs its clamp (`NegativeCallsNeedTheClamp`,
  `ClampIsIdleExactlyWhen`).
- The window bound of a limiter with a limit above one needs a clock that does not go backward
  (`BackwardClockBreaksTheBound`, `BoundHoldsExactlyWhen`). The source reads the clock before it takes the lock, so two
  threads on one key could record out of order; its only caller, `backend/app/routers/runs.py:44`, is an async handler
  on one event loop, where that cannot happen.
- A section body that brings a second heading along is not replaced idempotently (`SecondHeadingsPileUp`,
  `IdempotentExactlyWhen`).

## Assumptions

- Batch ingest: a recording call on the job row either happens or raises and leaves the row unchanged; the row exists
  while the job runs; creating the per-item repository object does not raise.
- Artifact store: the hash has a fixed length and no two handled requests collide.
- Sections: a heading match starts at a line start and its first character that is not white space is a hash; matches
  do not overlap.
- Citation wording: word characters beyond ASCII are a parameter of the patterns; case folding is that of single
  characters, so a ligature never stands for the letters it joins.
- Elsewhere keyword lists and case folding of non-ASCII text are arbitrary functions, and everywhere the strength of
  evidence, UTF-8 decoding and the plausibility test for texts; so are, for the gate, the plan builder, the readiness
  scorer, the enrichment of competitors and the structure, richness and run-quality checks, whose issues are taken as
  they come.
- Numbers are exact: scores, rates and the limiter clock are reals, with Python's rounding of halves to even.

## Model

| member | source | states |
|---|---|---|
| `BatchIngest.StepKeepsInv` | backend/app/routes/knowledge.py:787-823 | every step of every task, in any interleaving, keeps the invariant that ties the job row to the tasks' phases, entry by entry, and each permit and lock to its holders |
| `BatchIngest.RunKeepsInv` | backend/app/routes/knowledge.py:773-830 | the invariant holds after any sequence of steps from the start |
| `BatchIngest.MutualExclusion` | backend/app/routes/knowledge.py:782-785 | at most `max_concurrent` tasks are past the semaphore and each of the two locks has at most one holder |
| `BatchIngest.AtMostOneOutcome` | backend/app/routes/knowledge.py:787-823 | an accepted item never has more than one entry in the job row, and has one exactly when its task has an outcome |
| `BatchIngest.Progress` | backend/app/routes/knowledge.py:825-825 | no deadlock: while anything is left to happen some step is enabled |
| `BatchIngest.StepDecreases` | backend/app/routes/knowledge.py:787-823 | every step lowers the termination measure, so the gather ends under every scheduler |
| `BatchIngest.RunsAreShort` | backend/app/routes/knowledge.py:773-830 | a run over n items has at most 10 n + 1 steps |
| `BatchIngest.SkippedExactlyWhenLate` | backend/app/routes/knowledge.py:787-795 | a task is marked skipped exactly when fail-fast is on and it starts after another task's exception has set the event |
| `BatchIngest.EarlyStartsAreNeverSkipped` | backend/app/routes/knowledge.py:787-797 | fail-fast skips nothing when every task passes its check before the first exception, although tasks may still wait for the semaphore: the check comes before it |
| `BatchIngest.WaitingTaskIsIngested` | backend/app/routes/knowledge.py:787-797 | a run of two items with one permit: the second task is still waiting for the permit when the exception of the first sets the event, and is ingested all the same |
| `BatchIngest.FinishedJob` | backend/app/routes/knowledge.py:825-830 | when the gathering coroutine has finished, every accepted item has exactly one outcome, successes and failures add up to the accepted items, and the status is failed iff an item failed |
| `BatchIngest.QuietJob` | backend/app/routes/knowledge.py:825-830 | where every run ends: the final status is written iff no task raised; an exception out of a recording call or a close leaves the row as running |
| `BatchIngest.StuckJob` | backend/app/routes/knowledge.py:798-830 | a run of one item whose recording call raises: nothing is left to happen and the job row says running |
| `BatchIngest.GatherAll` | backend/app/routes/knowledge.py:825-830 | driving the tasks with an arbitrary scheduler terminates in a quiet state reached by a run |
| `BatchIngest.EntriesGoBack` | backend/app/routes/knowledge.py:787-823 | no entry of the job row is invented: in every run a result goes back to an ingest of the same task, a failure to an exception of it with that message or to its start after another task's exception |
| `BatchIngest.FailuresAreExact` | backend/app/routes/knowledge.py:787-830 | and when the job has finished none is lost: its failures are exactly these |
| `BatchIngest.AcceptedExactlyWhen` | backend/app/routes/knowledge.py:952-964 | which items are accepted, source by source |
| `BatchIngest.SplitBatch` | backend/app/routes/knowledge.py:581-588 | accepted and rejected items partition the request, in request order, each rejected one with its reason |
| `BatchIngest.ProcessRequest` | backend/app/routes/knowledge.py:573-613 | the whole request: when the job has finished every item has been answered exactly once; the job fails iff some item failed, each failure goes back to an exception of its own task or, under fail-fast only, to a late start; it stays running iff a task raised; and a request without an accepted item succeeds at once |
| `RateLimiter.SlidingWindowRateLimiter.Allow` | backend/app/rate_limit.py:27-53 | one call: the answer and the new deque of its key, and no change for any other key; after an allowed call the deque and the reported remaining calls add up to the limit |
| `RateLimiter.DequeRefinesHistory` | backend/app/rate_limit.py:37-53 | over any run with a non-decreasing clock the pruned deque holds exactly the events of the full history that are still in the window, and gives the same answer as looking through all of them |
| `RateLimiter.RecordedIsHistory` | backend/app/rate_limit.py:37-53 | what the deque implementation records over a run is the full history of the reference limiter |
| `RateLimiter.WindowBound` | backend/app/rate_limit.py:45-51 | no half-open interval as long as the window holds more than `limit` recorded events |
| `RateLimiter.DequeIdsAreDistinct` | backend/app/rate_limit.py:42-44 | under any clock, no two events in the deque share an idempotency id |
| `RateLimiter.QueueIsBounded` | backend/app/rate_limit.py:39-51 | the deque never holds more than `limit` events |
| `RateLimiter.AnswerIsExact` | backend/app/rate_limit.py:37-53 | a call is allowed iff it repeats the id of an event of the window or fewer than `limit` recorded events lie in the window; then those events, its own included, and `remaining` add up to the limit; otherwise the window is full |
| `RateLimiter.RemainingIsExact` | backend/app/rate_limit.py:42-53 | what `remaining` promises under any clock: after an allowed call, repeated ids included, of any burst of further calls at the same moment exactly the first so many are recorded and allowed |
| `RateLimiter.NoLimitRecordsNothing` | backend/app/rate_limit.py:35-36 | without a positive limit every call is allowed and none is ever recorded |
| `RateLimiter.BackwardClockBreaksTheBound` | backend/app/rate_limit.py:35-41 | counterexamples: for every limit of two or more, every window and every single step back shorter than it, a run that records more than `limit` events in one window |
| `RateLimiter.BoundHoldsExactlyWhen` | backend/app/rate_limit.py:35-53 | a limiter whose clock may step back by up to a tolerance keeps the window bound on every run iff its limit is one or the tolerance is zero |
| `RateLimiter.RetryAfterIsExact` | backend/app/rate_limit.py:45-49 | after a denial, whatever calls come before the reported wait is over, nothing is recorded; a call with a fresh id is denied before that time and allowed from then on |
| `RateLimiter.RouterWaitIsEnough` | backend/app/routers/runs.py:129-155 | waiting the whole seconds the router reports is enough, and a positive wait of one second less is not |
| `RateLimiter.Serve` | backend/app/rate_limit.py:27-53 | calls on many keys in arrival order are answered by the one limiter object as the reference limiter answers each key, and each answer fits the events of its key in the window: allowed iff a repeated id or room, remaining the room left |
| `SectionMarkers.PrintParseRoundTrip` | backend/packages/business_intel/report_sections.py:111-113 | for every key and layer, parsing the printed marker gives that layer and the folded, filtered key (none when it is empty); no key can add an attribute or end the comment |
| `SectionMarkers.ParsePrintRoundTrip` | backend/packages/business_intel/report_sections.py:143-164 | a marker read with both attributes is the same after printing and reading it again |
| `SectionMarkers.ParsedKeyIsSafe` | backend/packages/business_intel/report_sections.py:143-164 | every key that comes out of the parser consists of key characters only |
| `SectionMarkers.MarkerText` | backend/packages/business_intel/report_sections.py:111-113 | the text of a printed marker, letter by letter, for each layer |
| `SectionMarkers.LookupGivesLast` | backend/packages/business_intel/report_sections.py:147-152 | of a repeated attribute the last one counts, whatever the case of its name |
| `SectionMarkers.PairsStandInText` | backend/packages/business_intel/report_sections.py:143-164 | every attribute that is read stands in the comment, its value in full |
| `SectionMarkers.MarkerIsClosedOnce` | backend/packages/business_intel/report_sections.py:143-164 | a line that is read as a marker has its only closing angle bracket at its end |
| `ReportSections.BuildSectionIndex` | backend/packages/business_intel/report_sections.py:68-108 | the index built heading by heading is the index of the document: one section per heading, in order, with its marker, layer, text range and lines |
| `ReportSections.EntriesFit` | backend/packages/business_intel/report_sections.py:116-140 | section starts go up strictly through the document, marker lines included |
| `ReportSections.SectionsTile` | backend/packages/business_intel/report_sections.py:68-108 | each section ends where the next one starts and the last one ends with the document |
| `ReportSections.SectionsCoverDocument` | backend/packages/business_intel/report_sections.py:68-108 | the sections' texts, joined, are the document from the first section on |
| `ReportSections.SectionLinesTile` | backend/packages/business_intel/report_sections.py:200-201 | the line ranges of sections are non-empty, disjoint and adjacent |
| `ReportSections.LineLookupFindsSection` | backend/packages/business_intel/report_sections.py:40-52 | looking up the line of any character finds the one section that holds it, and says support or audit exactly when it is not core |
| `ReportSections.CorePrefix` | backend/packages/business_intel/report_sections.py:31-38 | the sections before support are the longest prefix of core sections |
| `ReportSections.StickyMeansUnderSupport` | backend/packages/business_intel/report_sections.py:68-108 | the sticky flag, threaded through the loop, says that the nearest earlier section that decides it opened support or audit |
| `ReportSections.LayerOfSection` | backend/packages/business_intel/report_sections.py:182-193 | the layer of a section in terms of its marker, its keywords and what precedes it |
| `ReportSections.SectionHoldsItsText` | backend/packages/business_intel/report_sections.py:68-108 | the body of a section is the document between its heading and its end but for white space at either end |
| `ReportSections.PrintedMarkerIsFound` | backend/packages/business_intel/report_sections.py:128-140 | a printed marker on the line before a heading is found wherever in a document it stands |
| `ReportSections.PrintedMarkerDecidesLayer` | backend/packages/business_intel/report_sections.py:82-99 | and its layer is the layer of the section |
| `CitationPolicy.FindViolations` | backend/packages/business_intel/report_citation_policy.py:99-147 | the violations are exactly the strong-conclusion lines that cite weak evidence, in order, under the heading in force |
| `CitationPolicy.Repair` | backend/packages/business_intel/report_citation_policy.py:150-178 | repair keeps the number of lines, rewrites exactly the violating lines and counts them |
| `CitationPolicy.RepairedLineTokens` | backend/packages/business_intel/report_citation_policy.py:222-236 | what a repaired line cites: the citations the removal pattern does not match, then the strong references |
| `CitationPolicy.CleanRepairIsFixpoint` | backend/packages/business_intel/report_citation_policy.py:150-178 | a clean repair is a fixpoint: repairing again changes nothing |
| `CitationPolicy.ReferencesAreStrong` | backend/packages/business_intel/report_citation_policy.py:197-215 | when evidence that shares a token has one strength, the references a repair attaches are strong |
| `CitationPolicy.PlainCitationsAreRemoved` | backend/packages/business_intel/report_citation_policy.py:228-228 | in a line of text and citations in any mix of spellings, those in the plain spelling are removed and all else is kept as it is |
| `CitationPolicy.OtherSpellingsSurvive` | backend/packages/identity/source_resolver.py:20-24 | citations with lenticular brackets, the Chinese keyword or a keyword in another letter case are read by the resolver but stay in the line |
| `CitationPolicy.SourceIdsForLine` | backend/packages/business_intel/report_citation_policy.py:197-215 | the ids offered for a line are the first `limit` distinct ids of strong evidence |
| `CitationPolicy.StrongIdsComeFirst` | backend/packages/business_intel/report_citation_policy.py:197-215 | no id is offered twice, more evidence only adds ids at the end, and an id is left out only when the limit is reached |
| `CitationPolicy.TableGivesLast` | backend/packages/business_intel/report_citation_policy.py:278-295 | every id, raw id and metadata id of every item can be cited and stands for the last item that has it; nothing else can |
| `CitationPolicy.AnchorsAreIgnored` | backend/packages/identity/source_resolver.py:542-543 | what follows the first hash of a citation does not matter |
| `CitationWording.ToneChanges` | backend/packages/business_intel/report_citation_policy.py:246-258 | toning changes a line iff it finds one of the seven words or phrases, standing alone and in any letter case |
| `CitationWording.CaveatIsNotStrong` | backend/packages/business_intel/report_citation_policy.py:181-194 | a line with the word caveat that does not begin with the overall confidence is no strong conclusion under any heading |
| `CitationWording.UntonedIsNotStrong` | backend/packages/business_intel/report_citation_policy.py:239-260 | a repaired line with no wording of its own toned down is no strong conclusion, because it is marked as a caveat |
| `CitationWording.RepairedIsStrongExactlyWhen` | backend/packages/business_intel/report_citation_policy.py:181-260 | when a repaired line is a strong conclusion, under any heading: there are references, a word of its own is toned down, and the toned wording stays strong and not qualitative |
| `CitationLines.WeakCitationsThatStay` | backend/packages/business_intel/report_citation_policy.py:222-260 | for every line: its toned text cites something weak iff a citation that the removal leaves has an id that is weak once it is toned like the text around it |
| `CitationLines.TokensOfToned` | backend/packages/business_intel/report_citation_policy.py:246-258 | toning makes no citation of any text: those of the toned text are the toned ids of the ones before, so far as they still are ids |
| `CitationLines.OtherCitationsAreLeft` | backend/packages/business_intel/report_citation_policy.py:228-228 | in a line of text and citations the removal leaves exactly the citations in another spelling |
| `CitationRepair.HeadingAfterIs` | backend/packages/business_intel/report_citation_policy.py:150-178 | the headings in force after the repair, read off the report before it: a line that is toned down where the removal leaves a heading becomes one |
| `CitationRepair.RepairWorksExactlyWhen` | backend/packages/business_intel/report_citation_policy.py:150-178 | for every report: the repair leaves no violation iff, under the headings in force after it, no violating line survives and no other line turns strong; and then it is a fixpoint |
| `CitationRepair.SurvivesExactlyWhen` | backend/packages/business_intel/report_citation_policy.py:222-260 | a violating line survives iff there is strong evidence, a word of its own is toned down and leaves no heading, the line stays strong, and something weak is still cited |
| `CitationRepair.RepairWorks` | backend/packages/business_intel/report_citation_policy.py:150-178 | it leaves no violation and is a fixpoint when evidence sharing a token has one strength, ids of strong evidence are well-formed, and in no violating line the removal leaves a weak citation or a heading to be toned down |
| `CitationRepair.OnlyRunOnLinesViolate` | backend/packages/business_intel/report_citation_policy.py:222-236 | without strong evidence exactly these lines violate after the repair: not repaired, under a repaired line that became a heading, beginning with the overall confidence as part of a longer word, and strong and weakly cited there |
| `CitationRepair.CleanWithoutStrongEvidence` | backend/packages/business_intel/report_citation_policy.py:222-236 | without strong evidence the repair is clean iff no such line is there; so it is clean and a fixpoint for every report in which no line begins so |
| `CitationWords.KeptWordsStayStrong` | backend/packages/business_intel/report_citation_policy.py:21-30 | a strong word of the heading, one of the text that is not toned, or recommendation keeps a toned line strong |
| `CitationWords.SaferNeverSurvives` | backend/packages/business_intel/report_citation_policy.py:254-255 | a line that says safer or safest never survives its repair, because the replacement speaks of risk |
| `CitationWords.KeptWordSurvivesExactlyWhen` | backend/packages/business_intel/report_citation_policy.py:181-260 | when a toned line with such a strong word survives: not an appendix, not qualitative, no heading, still citing something weak, beside strong evidence |
| `CitationFailures.OtherSpellingFails` | backend/packages/business_intel/report_citation_policy.py:222-260 | counterexample: beside strong evidence, a recommendation that cites a weak item with a capital is toned down, keeps that citation and still violates |
| `CitationFailures.NewHeadingFails` | backend/packages/business_intel/report_citation_policy.py:150-178 | counterexample: beside strong evidence, `#[source:b] recommendation` becomes a heading under which the next line violates; repairing again changes the report again |
| `CitationFailures.NewHeadingFailsWithoutStrong` | backend/packages/business_intel/report_citation_policy.py:222-236 | counterexample without strong evidence: under such a heading a line that begins with overall confidences violates |
| `WireScan.DecodeVarint` | scripts/agy-capture.py:107-116 | the shift-and-mask loop computes the arithmetic decoding, from any offset |
| `WireScan.VarintRoundTrip` | scripts/agy-capture.py:107-116 | decoding inverts the Base 128 Varints encoding for every value below 2^70, whatever follows |
| `WireScan.DecodeIsLocal` | scripts/agy-capture.py:107-116 | decoding reads at most ten bytes, stays in the buffer and depends only on the bytes it consumes |
| `WireScan.DecodeFailsExactly` | scripts/agy-capture.py:107-116 | there is no value exactly when the first ten bytes, or all there are, ask for another byte |
| `WireScan.MarkersDoNotOverlap` | scripts/agy-capture.py:138-142 | the marker 10 02 1A cannot overlap itself |
| `WireScan.ExtractTexts` | scripts/agy-capture.py:135-153 | the scan from marker to marker misses no marker of the buffer |
| `WireScan.TextsAreExact` | scripts/agy-capture.py:129-153 | it returns every validly framed text, once, and nothing else |
| `WireScan.TextsGrow` | scripts/agy-capture.py:129-132 | in the order of their first marker |
| `WireScan.FramedTextIsFound` | scripts/agy-capture.py:135-153 | a text framed with an encoded length is found wherever it stands |
| `WireScan.OtherFramesAreIgnored` | scripts/agy-capture.py:138-143 | a frame that is empty or longer than two million bytes is no text, whatever stands in it |
| `WireScan.BrokenFramesAreIgnored` | scripts/agy-capture.py:141-152 | nor is one that announces more bytes than there are, or whose bytes are no plausible text |
| `WireScan.CrLfBecomesLf` | scripts/agy-capture.py:129-132 | of a pair of line-end characters the line feed stays, and nothing else changes |
| `ArtifactStore.SafeNamesArePlain` | backend/packages/artifacts/store.py:280-287 | sanitised segments and file names are non-empty, without slashes, and never `.` or `..` |
| `ArtifactStore.SanitizeJoins` | backend/packages/artifacts/store.py:280-287 | names are sanitised piece by piece, a run of other characters across pieces still becoming one dash |
| `ArtifactStore.PlainNamesAreKept` | backend/packages/artifacts/store.py:280-287 | a name that is safe already is kept |
| `ArtifactStore.SameIdSamePayload` | backend/packages/identity/stable_ids.py:321-339 | two artifacts with one id have the same payload, although different fields can be joined to the same text |
| `ArtifactStore.SameIdSameFields` | backend/packages/identity/stable_ids.py:321-339 | and they agree in every field of the identity, as long as no field has a bar in it |
| `ArtifactStore.LocalArtifactStorage.Store` | backend/packages/artifacts/store.py:52-108 | storing adds the payload under its path and changes no stored file; it fails only without a payload: the containment check never fires |
| `ArtifactStore.LocalArtifactStorage.ReadBytes` | backend/packages/artifacts/store.py:122-143 | a read returns the bounded prefix of the file, whether it is truncated, or why not; a URI with an absolute path leaves the root |
| `ArtifactStore.WriteKeeps` | backend/packages/artifacts/store.py:52-108 | writing one more artifact keeps every file that is there |
| `ArtifactStore.UriLeadsToPath` | backend/packages/artifacts/store.py:122-130 | the URI of a record leads back to the path it was stored under |
| `ArtifactStore.StoredReadsBack` | backend/packages/artifacts/store.py:122-143 | anything stored reads back its first bytes, truncated exactly when the payload is longer |
| `ArtifactStore.ReadsOnlyStored` | backend/packages/artifacts/store.py:122-143 | whatever the URI, a successful read returns content of something stored |
| `ArtifactStore.AbsoluteUrisAreRefused` | backend/packages/artifacts/store.py:122-130 | a URI with an absolute path is refused unless that path leads below the root |
| `ArtifactStore.NeighboursAreRefused` | backend/packages/artifacts/store.py:122-130 | a URI that goes up and into a neighbour of the root is refused |
| `ArtifactStore.StoreThenRead` | backend/packages/artifacts/store.py:48-143 | storing, then any later stores, then reading returns what was stored first |
| `ClaimValidator.ValidateClaim` | backend/packages/business_intel/claim_validator.py:58-221 | the checks of one claim, branch by branch, give the status, scores and issues of `Validate`, which the rows below spell out over the evidence |
| `ClaimValidator.ScoresAreBounded` | backend/packages/business_intel/claim_validator.py:275-320 | text, quality and triangulation scores lie in 0..100 |
| `ClaimValidator.CombinedIsBounded` | backend/packages/business_intel/claim_validator.py:323-330 | and so does the combined score, rounding included |
| `ClaimValidator.EvidenceNeverHurts` | backend/packages/business_intel/claim_validator.py:275-330 | adding usable evidence anywhere lowers none of the three scores nor the combined one, rounding included |
| `ClaimValidator.PassingVotesAreWorth` | backend/packages/business_intel/claim_validator.py:323-343 | three passing votes give at least 71.5 before rounding, and 71.5 is attained |
| `ClaimValidator.BlockedExactlyWhen` | backend/packages/business_intel/claim_validator.py:84-94 | a claim is blocked iff none of its ids leads to usable evidence |
| `ClaimValidator.SupportedExactlyWhen` | backend/packages/business_intel/claim_validator.py:95-181 | a claim is supported iff all of the listed conditions on conflict, scores, triangulation and confidence hold |
| `ClaimValidator.UnsupportedExactlyWhen` | backend/packages/business_intel/claim_validator.py:167-182 | a claim is unsupported iff it has usable evidence and a conflict or a score below 55; with three passing votes and no conflict it never is |
| `ClaimValidator.RiskSupportedExactlyWhen` | backend/packages/business_intel/claim_validator.py:502-517 | the risk status is supported iff the claim is high-risk and has no issue, and then it is triangulated and neither blocked nor unsupported |
| `ClaimValidator.TriangulationMeans` | backend/packages/business_intel/claim_validator.py:305-320 | the triangulation score is 100 iff two usable items are verified and two come from different known hosts, 85 iff one of two or more is verified otherwise, 70 iff the only one is verified, 45 iff none is, 0 iff there is none |
| `ClaimValidator.OneDomainIsNotEnough` | backend/packages/business_intel/claim_validator.py:128-140 | a risky claim is never supported by a single host |
| `ClaimValidator.ScoresReach` | backend/packages/business_intel/claim_validator.py:275-302 | text and quality scores reach a threshold iff a single usable item does, in points for shared words, review, reliability and verification, halves rounded to even |
| `ClaimValidator.ScoreReaches` | backend/packages/business_intel/claim_validator.py:323-330 | the combined score reaches 75 iff five times text, three times quality and twice triangulation exceed 745, and 55 iff they exceed 545 |
| `ClaimValidator.IssuesExactlyWhen` | backend/packages/business_intel/claim_validator.py:84-165 | each issue type is raised iff its own condition holds; the first five exclude each other |
| `ClaimValidator.RiskStatusExactlyWhen` | backend/packages/business_intel/claim_validator.py:502-517 | the other four risk statuses, each by its condition; a contradiction is named even when the claim is blocked |
| `ClaimValidator.ReportAddsUp` | backend/packages/business_intel/claim_validator.py:223-255 | the four statuses and the five risk statuses each count every claim once, and blocking issues are exactly the blocked and contradicted claims |
| `ClaimValidator.ReportTalliesAreExact` | backend/packages/business_intel/claim_validator.py:223-255 | every tally of the report counts the results with its own status, and its issues are those of its results |
| `Evaluator.EvaluateBusinessQa` | backend/packages/business_intel/evaluator.py:18-50 | the findings are those of the rules, in order |
| `Evaluator.LinkageIsExact` | backend/packages/business_intel/evaluator.py:162-192 | the claim-linkage findings are one per claim without usable evidence |
| `Evaluator.ClaimFindingsAreUnusable` | backend/packages/business_intel/evaluator.py:53-74 | any finding that names a claim comes from the claim rule and names one without usable evidence |
| `Evaluator.FindingsAreExact` | backend/packages/business_intel/evaluator.py:53-210 | sound and complete: a finding is raised iff some rule of the plan calls for it, spelled out over claims, homepages, reliabilities and the number of covering sources |
| `Evaluator.LongerNameIsTheSame` | backend/packages/business_intel/evaluator.py:219-222 | whatever is written around a dimension name, it stays the same dimension |
| `Evaluator.UnrelatedNamesDiffer` | backend/packages/business_intel/evaluator.py:219-222 | two names are one dimension iff one occurs in the other, stripped and in lower case |
| `EvidenceGaps.AnalyzeEvidenceGaps` | backend/packages/business_intel/evidence_gaps.py:60-87 | the loops give the gaps of `Analyze`, each count is the number of gaps of its severity, and they add up to the gap count |
| `EvidenceGaps.ResultIsExact` | backend/packages/business_intel/evidence_gaps.py:294-309 | the result has one gap per key found and no other, sorted by severity and type, stably |
| `EvidenceGaps.CoverageIsComplete` | backend/packages/business_intel/evidence_gaps.py:90-135 | every competitor and dimension has usable verified evidence or a coverage gap in the result |
| `EvidenceGaps.BadEvidenceIsReported` | backend/packages/business_intel/evidence_gaps.py:138-165 | every rejected or stale item has a gap in the result |
| `EvidenceGaps.FindingsAreReported` | backend/packages/business_intel/evidence_gaps.py:216-252 | every QA finding has a gap with its competitor, dimension, claims and evidence in the result |
| `EvidenceGaps.ClaimGapsAreExact` | backend/packages/business_intel/evidence_gaps.py:168-195 | the critical gap of a claim is in the result, after deduplication, iff the claim has no usable evidence |
| `EvidenceGaps.GapsAreExact` | backend/packages/business_intel/evidence_gaps.py:60-252 | sound and complete, after deduplication: every gap the records make is in the result, and a gap they do not make repeats a QA finding about which they make none |
| `EvidenceGaps.RecordGapsAreExact` | backend/packages/business_intel/evidence_gaps.py:90-213 | a missing-verified-source gap is in the result iff something usable covers the dimension and nothing verified does; likewise for rejected and stale items and for breadth, and for every gap when there are no findings |
| `EvidenceGaps.MostUrgentFirst` | backend/packages/business_intel/evidence_gaps.py:309-309 | the most severe gaps come first, those of one severity in the alphabetical order of their type names |
| `EvidenceGaps.GroupByNewDimension` | backend/packages/business_intel/evidence_gaps.py:312-335 | the dictionary built by the loop groups the gaps by new dimension key, in order |
| `EvidenceGaps.SuggestionsPartition` | backend/packages/business_intel/evidence_gaps.py:326-335 | every gap that names a new dimension is in exactly one group and other gaps are in none |
| `EvidenceGaps.SuggestedExactlyWhen` | backend/packages/business_intel/evidence_gaps.py:312-335 | a gap is behind the suggestion for a key iff it is a coverage or claim gap on a dimension with that key, which no known dimension has |
| `EvidenceGaps.WordsAreJoined` | backend/packages/business_intel/evidence_gaps.py:397-398 | the key of a dimension name: its words, joined by single underscores |
| `RedTeam.RunReview` | backend/packages/business_intel/red_team.py:73-88 | the review is the deduplicated, sorted list of the builders' findings |
| `RedTeam.KeyTellsType` | backend/packages/business_intel/red_team.py:287-295 | findings with the same joined key are of the same type |
| `RedTeam.UnsupportedExactlyWhen` | backend/packages/business_intel/red_team.py:283-300 | the finding against a claim survives iff the first unusable claim with its joined key has the same finding |
| `RedTeam.UnsupportedIsExact` | backend/packages/business_intel/red_team.py:113-138 | with distinct claim ids without bars, a claim has its finding iff it has no usable evidence |
| `RedTeam.SomeUnsupported` | backend/packages/business_intel/red_team.py:113-138 | whatever the ids, some unsupported-claim finding is there iff some claim has no usable evidence |
| `RedTeam.ReviewIsExact` | backend/packages/business_intel/red_team.py:73-246 | the review holds only findings that QA, claims, evidence, coverage or the newest report call for, and for each of those one of its type with its key |
| `RedTeam.MostSevereFirst` | backend/packages/business_intel/red_team.py:300-304 | critical findings come first, those of one severity in the alphabetical order of their type names |
| `RedTeam.BarsHideFindings` | backend/packages/business_intel/red_team.py:287-295 | counterexample: ids with bars make two claims share one finding |
| `Agreement.FourJudgesAgree` | backend/packages/business_intel/claim_validator.py:84-94 | claim by claim the validator, the evaluator, the gap analysis and the red team agree that there is no usable evidence, through their filters, scores, deduplication by key and sorting |
| `Lists.StableSortIsStable` | backend/packages/business_intel/evidence_gaps.py:309-309 | sorting is a permutation, sorted, and keeps the order of equal ranks |
| `Lists.DedupeKeepsFirst` | backend/packages/business_intel/evidence_gaps.py:294-308 | deduplication keeps exactly the first element of every key |
| `ReleaseGate.ApplySourceRegistry` | backend/packages/business_intel/release_gate.py:161-189 | the loop looks an entry up by id or else by key, the last one winning: item by item the result has the review states of the entry that applies, except those that say nothing, and is unchanged where none applies |
| `GateDecision.RegistryKeepsEvidence` | backend/packages/business_intel/release_gate.py:173-189 | item by item everything but the review states stays, and so does the release grade |
| `GateDecision.ReviewNeededExactlyWhen` | backend/packages/business_intel/release_gate.py:161-189 | on the gate's input: something awaits policy review iff the report lists an item that the entry that applies holds back, or that is held back on its own and not overridden |
| `GateDecision.HeldSourceCloses` | backend/packages/business_intel/release_gate.py:315-359 | and a report that lists such an item is not released, whatever else speaks for it |
| `ReleaseGate.FindReleaseCluster` | backend/packages/business_intel/release_gate.py:437-457 | the early-exit loop finds a cluster iff one is official or triangulated with enough confidence and sources |
| `ReleaseGate.ReleaseGradeMeans` | backend/packages/business_intel/release_gate.py:409-425 | what release-grade means at 0.75, and how the two thresholds compare |
| `ReleaseGate.EvaluateReportReleaseGate` | backend/packages/business_intel/release_gate.py:70-150 | the checks, loop by loop, give the gate of `Judge` on the scoped records, which the rows below spell out over the input |
| `GateDecision.AllowedMeansNoBlockers` | backend/packages/business_intel/release_gate.py:135-137 | the gate is open iff it has no blocker: any blocking QA finding forces one |
| `GateDecision.AllowedExactlyWhen` | backend/packages/business_intel/release_gate.py:115-150 | sound and complete: the gate is open iff every condition on report, records and outcome holds |
| `GateDecision.ReleasedClaimsAreSupported` | backend/packages/business_intel/release_gate.py:488-527 | behind an open gate every claim cites evidence, all of it in the report, usable, reliable, cleared and verified or triangulated |
| `GateDecision.ReleasedCitationsResolve` | backend/packages/business_intel/release_gate.py:939-984 | and every citation leads to evidence of the report |
| `GateDecision.SourcesClean` | backend/packages/business_intel/release_gate.py:315-385 | the source check passes iff nothing awaits policy review and four fifths of the rate base are release-grade |
| `GateIssues.RateIsMetExactlyWhen` | backend/packages/business_intel/release_gate.py:360-385 | the release-grade rate is met iff some source is rated and four fifths of the rated ones are release-grade, a community source needing 0.75 where a verified page needs 0.5 |
| `GateIssues.IssuesAreExact` | backend/packages/business_intel/release_gate.py:115-135 | sound and complete: which issues the gate lists, with their severity and the claims and evidence they name |
| `GateIssues.CountsAreExact` | backend/packages/business_intel/release_gate.py:135-150 | its counts are those of the listed issues by severity |
| `GateIssues.FindingsAreOfTheReport` | backend/packages/business_intel/release_gate.py:81-114 | its findings and readiness are those of the enriched competitors, the listed evidence as the registry reviews it, and the listed claims |
| `GateIssues.TokenTableGivesLast` | backend/packages/business_intel/release_gate.py:894-984 | a citation stands for the last item of the report that answers to it |
| `GateDecision.OutsidersDoNotMatter` | backend/packages/business_intel/release_gate.py:153-206 | evidence and claims the report does not list can be put in anywhere without changing the gate |
| `GateProgress.ImprovedShowsInDeltas` | backend/app/routers/enterprise.py:3027-3048 | an improvement shows in a recorded delta and makes no count worse |
| `GateProgress.ImprovementIsAnOrder` | backend/app/routers/enterprise.py:3030-3047 | improvement is irreflexive, asymmetric and transitive on such gates |
| `GateProgress.ImprovementsEnd` | backend/app/routers/enterprise.py:3030-3047 | a chain of improvements is no longer than the room of its first gate and never comes back |
| `GateProgress.GateImprovementsEnd` | backend/packages/business_intel/release_gate.py:70-150 | for the gates that the evaluation produces: improvements end after as many steps as the first gate has room for, and no gate is met twice |
| `GateProgress.CyclesExactlyWhen` | backend/app/routers/enterprise.py:3041-3047 | exactly when two arbitrary gates improve on each other |
| `ReportQuality.WeightsSumToOne` | backend/packages/business_intel/report_quality.py:349-386 | the weights of the listed metrics add up to one |
| `QualityMeaning.OneMetricIsWorth` | backend/packages/business_intel/report_quality.py:297-386 | what each metric is worth: when two runs differ in one metric, their scores differ by its points times the difference, up to rounding |
| `QualityMeaning.CountsAreScaled` | backend/packages/business_intel/report_quality.py:194-296 | how the counted metrics are scaled: full at so many, nothing at so many, even steps between |
| `ReportQuality.NormalizedAreFractionsExactlyWhen` | backend/packages/business_intel/report_quality.py:256-296 | with fractions measured, every normalised metric is a fraction iff the call count is not negative |
| `ReportQuality.ClampIsIdle` | backend/packages/business_intel/report_quality.py:297-340 | the score lies in 0..100 before its clamp |
| `ReportQuality.NegativeCallsNeedTheClamp` | backend/packages/business_intel/report_quality.py:217-217 | for every run with at most -73 calls, however good the rest, the sum is below zero and only the clamp makes the score zero |
| `ReportQuality.ClampIsIdleExactlyWhen` | backend/packages/business_intel/report_quality.py:297-340 | for a call count: the clamp changes the score of no run with that count iff the count is not negative |
| `ReportQuality.ScoreIsMonotone` | backend/packages/business_intel/report_quality.py:297-299 | better normalised metrics never lower the score, rounding and clamp included |
| `ReportQuality.ListsExplainSignals` | backend/packages/business_intel/report_quality.py:435-451 | the collection and model signals pass iff their check lists nothing |
| `ReportQuality.QualitySignalExactlyWhen` | backend/packages/business_intel/report_quality.py:310-338 | the quality signal passes iff its check lists nothing and, if there are community sources, the community section is complete |
| `QualityMeaning.QualitySignalMeans` | backend/packages/business_intel/report_quality.py:310-338 | the quality signal spelled out over rates, sections, core depths and counts of the run |
| `ReportQuality.DepthNeedsSummary` | backend/packages/business_intel/report_quality.py:946-1011 | the executive summary, which the check does not look at either, is covered: the core depth is the minimum over sections of which it is the first |
| `ReportQuality.FailureWithoutReason` | backend/packages/business_intel/report_quality.py:453-486 | counterexample: with an incomplete community section and all else perfect, the signal fails while its check lists nothing |
| `ReportQuality.CollectReportBlockers` | backend/packages/business_intel/report_quality.py:453-486 | the loop lists the failed floors in order |
| `ReportQuality.BalanceIsFullExactlyWhen` | backend/packages/business_intel/report_quality.py:1096-1115 | the balance is a fraction, full iff support takes at most 35 parts to 65 of core |
| `ReportQuality.BalanceIsProportional` | backend/packages/business_intel/report_quality.py:1096-1115 | where it is not full it is the share of the core, taken of 65 parts in 100; it is zero only without core |
| `ReportQuality.BalanceIsMonotone` | backend/packages/business_intel/report_quality.py:1108-1115 | more core or less support never lowers the balance |
| `QualityComparison.RegressionGate` | backend/packages/business_intel/report_quality.py:1915-1980 | the grade of the gate and its list of reasons |
| `QualityComparison.CompareRunQuality` | backend/packages/business_intel/report_quality.py:119-144 | a comparison passes only what the verdict passes, on a real run with a baseline; a failing verdict fails it; every listed core regression is in a row that says regressed, and against itself a run has none |
| `QualityComparison.GateIsStricter` | backend/packages/business_intel/report_quality.py:1897-1980 | the gate passes iff the verdict does, both signals of a real run are there, a baseline was given and no core metric regressed; a failing verdict fails the gate |
| `QualityComparison.SelfComparison` | backend/packages/business_intel/report_quality.py:389-431 | a run compared with itself has delta 0, every metric unchanged, and no core regression |
| `QualityComparison.CoreRegressionIsRegressed` | backend/packages/business_intel/report_quality.py:1933-1961 | a metric listed as a core regression has the status regressed, although the two are computed from different deltas |
| `QualityComparison.SpecsFollowDirections` | backend/packages/business_intel/report_quality.py:349-386 | the listed directions are the ones normalisation follows |
| `QualityComparison.NothingWorseNothingLost` | backend/packages/business_intel/report_quality.py:1933-1961 | with no metric worse, the score does not drop and no core regression is listed |
| `QualityMeaning.RowIsExact` | backend/packages/business_intel/report_quality.py:389-431 | the row of a metric shows its values and differences to four places, and its status follows the exact gain in the metric's own direction |
| `QualityMeaning.ComparisonMirrors` | backend/packages/business_intel/report_quality.py:389-431 | comparing the other way round negates every difference and turns improvements into regressions |
| `QualityMeaning.VerdictExactlyWhen` | backend/packages/business_intel/report_quality.py:1897-1912 | the verdict fails iff below 55 or ten points down, and passes iff at 72, not down, with the quality signal; the structure floor decides neither |
| `QualityMeaning.CoreRegressionsAreExact` | backend/packages/business_intel/report_quality.py:1933-1961 | the listed core regressions are exactly the core metrics that have dropped by 0.15, as far as four places show |
| `QualityMeaning.HardReasonsMean` | backend/packages/business_intel/report_quality.py:1921-1966 | each reason of a failing gate stands for its own condition |
| `ReleaseRepair.SubstituteWorksBySection` | backend/packages/business_intel/release_repair.py:193-198 | the pattern substitution replaces exactly the sections with the title and leaves all others as they are |
| `ReleaseRepair.SectionsCoverText` | backend/packages/business_intel/release_repair.py:87-90 | cutting a text at its headings loses nothing |
| `ReleaseRepair.RemovalIsExact` | backend/packages/business_intel/release_repair.py:85-91 | removal leaves no section with the title and the trimmed rest |
| `ReleaseRepair.RemovalIsIdempotent` | backend/packages/business_intel/release_repair.py:85-91 | removing twice is removing once |
| `ReleaseRepair.ReplaceOrInsertIsIdempotent` | backend/packages/business_intel/release_repair.py:191-207 | replacing or inserting a normalised section again changes nothing |
| `ReleaseRepair.IdempotentExactlyWhen` | backend/packages/business_intel/release_repair.py:191-207 | for a section with its heading first and one newline at its end: replacing or inserting it is idempotent on every report iff it has no second heading |
| `ReleaseRepair.SecondHeadingGrows` | backend/packages/business_intel/release_repair.py:191-207 | and with a second heading the empty report already shows it |
| `ReleaseRepair.ExactlyOneSection` | backend/packages/business_intel/release_repair.py:191-207 | afterwards the title is there exactly once if it was there at most once |
| `ReleaseRepair.InsertedBeforeFinal` | backend/packages/business_intel/release_repair.py:200-207 | a new section goes directly before the first final QA heading, a blank line between them, or to the end when there is none |
| `ReleaseRepair.RemovalUndoesInsertion` | backend/packages/business_intel/release_repair.py:191-207 | all other sections stay in order, and removal undoes the insertion, up to blank lines |
| `ReleaseRepair.SecondHeadingsPileUp` | backend/packages/business_intel/release_repair.py:191-198 | counterexample, line by line: the second heading stands there twice after the second replacement |
| `ReleaseRepair.ReleaseRepairTargets` | backend/packages/business_intel/release_repair.py:94-106 | the tasks whose issue is a non-blocking issue of the gate, in order |
| `ReleaseRepair.TargetsAreExact` | backend/packages/business_intel/release_repair.py:94-106 | a task is followed up iff it names an issue of the gate that does not block |
| `ReleaseRepair.WarningRepairSettles` | backend/packages/business_intel/release_repair.py:53-82 | with anything to record the follow-up section is gone, `changed` is honest, and a second repair changes nothing |

## Left out

- FastAPI routing, request validation, database, HTTP, LLM and workflow code: input, output and plumbing.
- The pattern engine: the patterns of the citation policy are written out as predicates; elsewhere heading and marker matches are stated as conditions on matches, and a match of a heading that runs over several lines is not modelled.
- `re.sub` reads replacement text as a template; `ReleaseRepair` treats it as literal text.
- A text that ends in a bare `##` line: `ReleaseRepair` takes that line for a heading, the source only when another line follows.
- Splitting reports into lines and the trailing newline that the citation repair keeps: `CitationPolicy` works on the list of lines.
- Mojibake repair, keyword tables, alias lists, message wording, ids of findings and report rendering.
- Floating point: a real model cannot show rounding errors of sums or ratios.
- Symbolic links, file permissions and the base64 and external backends of the artifact store.
- `_report_structure_issues`, `_report_richness_issues` and `_run_quality_issues` of the release gate are inputs of the model; the gate's audit trails and metadata are not modelled.
- The homepage and reliability rules of the evaluator and the coverage-bias loop of the red team are modelled as functions, not as loops.
- The section scores behind the quality metrics (`_body_content_summary` and its callers) are inputs, except the core-support balance, which is modelled on the two sizes.
- `_project_with_schema_review`, `_quality_finding_groups` and the lifecycle guards of `enterprise.py`: single-branch or dictionary bookkeeping.
- Sorting the schema suggestions by key and drafting their skills: only the grouping is modelled.
- The clock and the lock of the rate limiter: calls are atomic and carry their time.
