# Resume ranking core, modelled in Dafny

This is a model of the matching-and-scoring engine of a small resume-ranking web service. The service receives a job description for a job id and reads the candidate resumes stored for that job. If the ranking it stored earlier still covers the same set of candidate e-mails, it returns that stored ranking. Otherwise it recomputes the ranking. It:

- fetches and extracts each resume;
- extracts and normalises skills and qualifications;
- measures work experience from the dated periods in the resume;
- scores every resume against the job's requirements with an F1 skill score and a penalty;
- rescales the scores to a display range;
- sorts them best first and numbers them from 1.

The model covers the deterministic core of that pipeline. The modules follow the source's structure:

| module | file | models |
|---|---|---|
| `Text` | text.dfy | `preprocess_text`, plus the character classes and Python's `lower()` |
| `Skills` | skills.dfy | `normalize_skill` and `normalize_qualification` |
| `RequiredExperience` | experience.dfy | `parse_required_experience`, with each phrase classified by which of its searches matched |
| `WorkHistory` | periods.dfy | the filtering part of `extract_work_periods` (reversed and out-of-range periods dropped) and `total_experience_in_months` |
| `Duration` | duration.dfy | `format_months`, with a reader that parses its output back |
| `Scoring` | scoring.dfy | the per-resume loop of `rank_resumes`: experience verdict, matched sets, F1 skill score, 0.3 penalty |
| `Ranking` | ranking.dfy | the rescaling guard, the stable descending sort and the 1-based numbering |
| `Cache` | cache.dfy | the stored-ranking reuse check on e-mail sets |
| `Pipeline` | pipeline.dfy | the `rank_resumes` handler from the empty-pool check to the response, with every HTTP outcome |
| `Wrappers` | wrappers.dfy | `Option` and `Result` |

Some things the handler depends on are parameters of the model rather than part of it:

- the current date (`today`);
- the outcome of fetching and extracting each resume (`documents`: `None` when the download raised or the text was blank);
- the extracted skill, qualification and date-range lists of each document (`ResumeProfile`), and the skill, qualification and duration-phrase lists extracted from the job description (`JobPosting`);
- the display rescaling (`scale`), which stands for the square root, the random ceiling and the rounding.

## Model

| member | source | states |
|---|---|---|
| Text.LowerChar | utils/resume_utils.py:37 | each capital `A`-`Z` becomes the one small letter at the same place in the alphabet; every other character except U+0130 and the Kelvin sign stays as it is (see "## Left out") |
| Text.Lower | utils/resume_utils.py:37 | lower-casing leaves no upper-case ASCII letter |
| Text.LowerAlphabet | utils/resume_utils.py:37 | "A".."Z" lower-case to "a".."z", letter by letter |
| Text.LowerIdempotent | utils/resume_utils.py:37 | lower-casing twice is lower-casing once, including U+0130 (which lowers to two characters) and the Kelvin sign U+212A |
| Text.LowerAppend | utils/resume_utils.py:37 | lower-casing works character by character: it distributes over concatenation |
| Text.Select | utils/resume_utils.py:38 | deleting the characters a pattern rejects keeps only accepted characters, never lengthens the text, and changes nothing when every character is accepted |
| Text.SelectAppend | utils/resume_utils.py:38 | the deletion works character by character: it distributes over concatenation |
| Text.Squash | utils/resume_utils.py:39 | collapsing whitespace runs to one space and stripping gives text with no leading, trailing or doubled space |
| Text.SquashSolid | utils/resume_utils.py:39 | squashing only moves spaces: the non-space characters stay the same and in the same order |
| Text.SquashJoin | utils/resume_utils.py:39 | between two pieces of text, any run of whitespace becomes exactly one space and the pieces themselves are squashed on their own |
| Text.SquashIdentity | utils/resume_utils.py:39 | text that is already single-spaced with plain spaces is left unchanged |
| Text.PreprocessText | utils/resume_utils.py:35-40 | cleaned text holds only lower-case letters, digits, underscore and single inner spaces, and its non-space characters are exactly those the lower-case-and-delete steps keep |
| Text.PreprocessIdempotent | utils/resume_utils.py:35-40 | cleaning cleaned text changes nothing |
| Text.PreprocessEmptyIff | utils/resume_utils.py:35-40 | cleaning yields the empty string exactly when the lower-cased input has no letter, digit or underscore |
| Text.PreprocessJoin | utils/resume_utils.py:35-40 | two cleaned texts separated by any run of whitespace (newlines, tabs, several spaces) clean to the two joined by exactly one space |
| Skills.NormalizeSkill | utils/resume_utils.py:43-49 | a normalised skill contains only `a-z` and `0-9` and is no longer than the lower-cased input; it is the lower-cased input's `a-z0-9` characters, in order, with a final "js" removed exactly when the text without whitespace, '.' and '-' ends in "js" |
| Skills.NormalizeKey | utils/resume_utils.py:43-49 | on a string that already contains only `a-z0-9`, normalisation removes one trailing "js" if there is one and otherwise changes nothing |
| Skills.NormalizeSkillFixpointIff | utils/resume_utils.py:46-47 | a normalised skill is unchanged by another normalisation exactly when it does not end in "js" |
| Skills.NormalizeSkillIdempotentUnlessJs | utils/resume_utils.py:43-49 | normalisation is idempotent on every input whose result does not end in "js" |
| Skills.NormalizeDoubleJs | utils/resume_utils.py:46-47 | "reactjsjs" normalises to "reactjs", which normalises further: normalisation is not idempotent |
| Skills.NormalizeReactJs | utils/resume_utils.py:43-49 | "ReactJS" normalises to "react", the key of the plain spelling |
| Skills.NormalizeJsBeforeCleanup | utils/resume_utils.py:46-48 | the "js" test runs before punctuation is removed, so "reactjs!" keeps its "js" |
| Skills.NormalizeKeyWithTrailingMark | utils/resume_utils.py:45-48 | a key followed by one punctuation mark normalises to the key: the mark hides any "js" ending from the suffix test |
| Skills.NormalizeQualification | utils/resume_utils.py:52-69 | each synonym set maps to its canonical degree token; any other lower-cased input is passed through |
| Skills.NormalizeQualificationIdempotent | utils/resume_utils.py:52-69 | normalising a normalised qualification changes nothing |
| Skills.CanonicalTokenFixed | utils/resume_utils.py:59-68 | the five canonical tokens are fixed points |
| Skills.NormalizeBsc | utils/resume_utils.py:54 | "B.Sc" is a bachelor degree after lower-casing |
| RequiredExperience.ParseRequiredExperience | utils/resume_utils.py:104-141 | the minimum is the least contributed minimum and the maximum the greatest contributed maximum; either is absent exactly when no phrase contributes one |
| RequiredExperience.MaxImpliesMin | utils/resume_utils.py:109-136 | every phrase that contributes a maximum also contributes a minimum, so a window with a maximum has a minimum |
| RequiredExperience.FreshMeansZeroMin | utils/resume_utils.py:109-110 | any "fresh" phrase forces the minimum to 0 |
| RequiredExperience.OrderIndependent | utils/resume_utils.py:107-141 | the window depends only on which phrases occur, not on their order or repetition |
| RequiredExperience.FreshToYearsIsUnbounded | utils/resume_utils.py:109-114 | "fresh to N years" sets no maximum, because only "fresh to N months" supplies one |
| RequiredExperience.InvertedRangeKept | utils/resume_utils.py:115-118 | a range written high-to-low is stored as written, so the minimum exceeds the maximum |
| RequiredExperience.YearsAndRange | utils/resume_utils.py:120-130 | years are converted to months, and minimum and maximum are taken across phrases |
| RequiredExperience.MinOf | utils/resume_utils.py:109-136 | a phrase contributes a minimum exactly when one of the searches matched it, and any "fresh" phrase contributes 0 |
| RequiredExperience.MaxOf | utils/resume_utils.py:109-136 | a phrase contributes a maximum unless it is unrecognised or a "fresh" phrase without a months bound; a single duration is both minimum and maximum; a range's maximum is at least its minimum exactly when it is written low to high |
| RequiredExperience.MaxNeedsMin | utils/resume_utils.py:109-136 | a phrase that contributes a maximum also contributes a minimum |
| RequiredExperience.YearsAreMonths | utils/resume_utils.py:119-130 | "N years" contributes what "12N months" does, and a range in years what the same range in months times twelve does |
| WorkHistory.MonthsBetween | utils/resume_utils.py:163-166 | the month difference is negative exactly when the end is before the start |
| WorkHistory.PeriodOf | utils/resume_utils.py:159-170 | an unparsable pair or a reversed range yields nothing; a range whose month difference, with "present" resolved to today, lies in 0..600 is kept as that difference, and nothing else is kept |
| WorkHistory.WorkPeriods | utils/resume_utils.py:158-171 | each kept period lies in 0..600 and there are no more periods than date pairs |
| WorkHistory.WorkPeriodsSingle | utils/resume_utils.py:158-171 | a single date pair yields its period when that pair is kept and nothing otherwise |
| WorkHistory.WorkPeriodsAppend | utils/resume_utils.py:159-170 | each pair is judged independently: extraction distributes over concatenation |
| WorkHistory.ReversedRangeDropped | utils/resume_utils.py:163-164 | inserting a range that ends before it starts changes nothing |
| WorkHistory.OngoingUntilToday | utils/resume_utils.py:162 | an ongoing period runs to the evaluation date |
| WorkHistory.TotalMonths | utils/resume_utils.py:174-175 | the total is at least every period, is zero exactly when every period is zero, is at most 600 months per period when every period is at most 600, and a single period totals itself |
| WorkHistory.TotalMonthsAppend | utils/resume_utils.py:174-175 | the total is additive over concatenation, so with the single-period case it is the plain sum |
| WorkHistory.OverlapsCountTwice | utils/resume_utils.py:174-175 | overlapping periods are not merged: a period listed twice counts twice |
| WorkHistory.TotalBound | utils/resume_utils.py:167-175 | total experience is at most 600 months per date pair |
| Duration.NatToString | utils/resume_utils.py:182-184 | `str(n)` is a non-empty run of decimal digits with no leading zero, starting with "0" exactly for 0 |
| Duration.FormatMonths | utils/resume_utils.py:178-184 | the formatted duration reads back as the month count it came from |
| Duration.FormatInjective | utils/resume_utils.py:178-184 | different month counts never format to the same text |
| Duration.MonthPlurality | utils/resume_utils.py:182-184 | "months" is plural exactly when the remainder is not 1 |
| Duration.YearClause | utils/resume_utils.py:179-184 | a years clause appears exactly from 12 months, with plural "years" exactly from 24, and the leading number is the whole years or the months |
| Duration.FormatTwelve | utils/resume_utils.py:182 | 12 months formats as "1 year 0 months" |
| Scoring.ExperienceVerdict | app.py:199-207 | "no requirement" exactly when the job has no minimum; not "not matched" exactly when the total lies within the window |
| Scoring.Overlap | app.py:209-210 | the matched set is the intersection of the two sets of normalised keys |
| Scoring.SkillScore | app.py:213-218 | the skill score lies in [0, 1] and is positive exactly when a skill is shared |
| Scoring.SkillScoreIsDice | app.py:213-216 | F1 of precision and recall equals twice the matches over the sum of the two list lengths, duplicates included |
| Scoring.F1IsDice | app.py:214-216 | the F1 of precision m/a and recall m/b equals the Dice coefficient 2m/(a+b) |
| Scoring.FinalScore | app.py:221-223 | a missing experience, skill or qualification match multiplies the score by 0.3, and otherwise the score is unchanged |
| Scoring.JobRequirements | app.py:180-183 | the job side holds one normalised key per extracted skill and qualification, in order, and the window whose minimum is the least and maximum the greatest the phrases contribute |
| Scoring.Assess | app.py:189-223 | one resume's assessment: the months are the total of the resume's kept periods, and the experience text is their `format_months` text, which reads back as them; matched sets are intersections of normalised lists; the verdict is the window's verdict for those months; the score is the F1 skill score with the penalty rule applied, lies in [0, 1], is positive exactly when a skill matched and is at most 0.3 when penalised |
| Scoring.WorkedExample | app.py:213-223 | a resume sharing one of two job skills scores 2/3, and 0.2 with no matching qualification |
| Ranking.StableSortDescending | app.py:246 | the order lists every position once, higher scores first and earlier positions first among ties |
| Ranking.StableOrderUnique | app.py:246 | two such orders of the same positions coincide: the sorted order is determined |
| Ranking.TiesKeepInputOrder | app.py:246 | equal scores keep their input order |
| Ranking.BetterKeyFirst | app.py:246 | a higher score is listed first |
| Ranking.RankPool | app.py:237-248 | the sort fails exactly when the pool is non-empty and no raw score is positive; otherwise every candidate appears once with its rescaled score, stably sorted best first and numbered 1, 2, ... |
| Ranking.RankingIsTheStableSort | app.py:237-248 | the ranking order is the unique stable descending order of the display scores |
| Ranking.MonotoneScaleRespectsRaw | app.py:242-246 | with a monotone rescaling, a candidate ranked higher has a raw score at least as high or an equal display score |
| Ranking.StrictScaleFollowsRaw | app.py:242-246 | with a strictly increasing rescaling, the ranking is the stable descending order of the raw scores |
| Ranking.EveryPositionRanked | app.py:246-248 | no candidate is dropped by ranking |
| Ranking.ScoresNonIncreasing | app.py:246 | display scores never increase down the ranking |
| Ranking.ZeroPoolFails | app.py:237-246 | a pool whose scores are all zero leaves the candidates without scores, and the sort fails |
| Cache.EmailsOf | app.py:121-122 | the e-mail set of a list of records is exactly the non-empty e-mails present in it, whatever their order or repetition |
| Cache.PoolEmails | app.py:122 | the current e-mail set is exactly the non-empty e-mails present in the pool |
| Cache.CacheGate | app.py:120-126 | the stored ranking is reused, verbatim, exactly when it exists and its non-empty e-mails equal the pool's as sets |
| Cache.PoolOrderIgnored | app.py:120-124 | reordering or repeating resumes never changes the decision |
| Cache.EmaillessIgnored | app.py:121-122 | a resume without an e-mail never changes the decision |
| Cache.NewEmailRecomputes | app.py:120-126 | an e-mail missing from the stored ranking forces recomputation |
| Pipeline.Intake | app.py:136-162 | the candidates are admitted resumes from the pool, no more of them than resumes, and none exactly when no resume has both a URL and extractable text |
| Pipeline.AdmittedIsKept | app.py:141-158 | every resume with a URL and text becomes a candidate |
| Pipeline.IntakeSingle | app.py:141-162 | one resume yields its candidate exactly when it has a URL and text |
| Pipeline.IntakeAppend | app.py:136-162 | intake keeps pool order and repetitions: intake of two pools in turn is intake of the first followed by intake of the second |
| Pipeline.AssessAll | app.py:189-225 | each candidate is assessed on its own, in intake order |
| Pipeline.Entry | app.py:226-248 | the stored record carries the candidate's name, e-mail and URL, the matched sets, the experience text, the verdict's label (from which the verdict is recovered), the display score and the rank |
| Pipeline.RankScored | app.py:237-248 | ranking assessed candidates fails exactly when there is one and none scored above zero; otherwise the entries are the candidates' records, numbered 1, 2, ..., in the stable descending order of display scores (ties keep intake order), so scores never increase down the list |
| Pipeline.RankScoredNumbered | app.py:247-248 | ranks are 1, 2, ... down the list |
| Pipeline.RankScoredSound | app.py:226-248 | each entry carries one candidate's name, e-mail, matched sets, experience, verdict, URL and display score |
| Pipeline.RankScoredComplete | app.py:226-248 | every candidate appears in the ranking |
| Pipeline.RankingFailsIffNoSharedSkill | app.py:237-246 | the ranking fails exactly when there are candidates and none shares a skill with the job |
| Pipeline.RankResumes | app.py:110-258 | the job profile is built from the job posting's extracted lists; the handler answers 404 exactly for an empty pool; the stored ranking exactly when the cache check passes; 404 exactly when nothing survives intake; 500 exactly when the ranking fails (in the model, where collaborators do not raise); and otherwise the fresh ranking |
| Pipeline.ServerErrorIffNoSharedSkill | app.py:237-258 | in the model, where collaborators do not raise, the handler answers 500 exactly when it recomputes and every surviving candidate shares no skill with the job |
| Pipeline.FreshEmails | app.py:226-248 | the e-mails in a fresh ranking are exactly those of the candidates |
| Pipeline.IntakeKeepsEmails | app.py:136-162 | when every resume with an e-mail survives intake, the candidates' e-mails are the pool's |
| Pipeline.IntakeDropsEmail | app.py:136-162 | an e-mail whose resumes were all skipped is missing from the candidates |
| Pipeline.FreshRankingIsReused | app.py:120-126 | after a fresh ranking in which every resume with an e-mail survived, the next request for the same pool returns that ranking verbatim, whatever the documents, job text, date or rescaling |
| Pipeline.SkippedResumeDefeatsCache | app.py:120-162 | if every resume carrying some e-mail was skipped, the stored ranking lacks that e-mail, so the next request for the same pool recomputes |

## Left out

- HTTP and storage. The model leaves out the Flask routing, the 400 response for missing fields, and the Firestore reads and the write of the ranking (app.py:251). The stored ranking and the pool are parameters.
- Document fetching and PDF text extraction (`requests.get`, `extract_text_from_pdf`). They become the `documents` parameter, with `None` for a download that raised or text that was blank.
- Signal extraction. The spaCy-based `extract_skills_dynamic` is left out. So are the regular-expression extractors: `extract_qualifications`, `extract_experience`, `extract_work_experience_section`, and the patterns and date parsing in `extract_work_periods`. Their outputs arrive as parameters:
  - a resume's skill and qualification lists and its date pairs (`DateRange`, with `Unparsable` for a pair the date parser rejects);
  - the job description's skill and qualification lists and its duration phrases, the phrases already classified by which search matched (`Phrase`).
- Embeddings and cosine similarity (app.py:168-177). They are computed in the source, but nothing downstream uses them.
- Model loading, logging, `config.py`, `gunicorn.conf.py` and `test_api.py`. These are configuration and external behaviour, not core logic.
- Ranking.RankPool: display scores are `scale(raw)` for an arbitrary function. The square root, the random ceiling 91-99 and rounding to two places are not modelled, because they need floating point and randomness. The lemmas state which properties need a monotone or strictly increasing `scale`.
- WorkHistory.PeriodOf: dates are year and month; the day of the month and the time of day are not modelled. For a month-name date ("Jan 2020") or a numeric date ("03/2020"), both admitted by the date patterns (utils/resume_utils.py:155-156), `dateutil` fills in the day from today's date, clamped to the month's length, so both dates carry the same day or a clamped one. `relativedelta`'s clamped month addition then never takes away a month, so on these inputs the plain month difference is what the source computes.
- Weekday-named dates are not modelled. The first pattern's `[A-Za-z]{3,9} \d{4}` also matches a weekday name followed by a year ("Mon 2021"). `dateutil` then moves the date forward to the next such weekday, which can fall in the following month, and `relativedelta` counts one month fewer than the plain month difference the model computes. The model only receives dates as year and month (`DateRange`).
- Unexpected exceptions. The catch-all handler (app.py:256-258) also answers 500 when a collaborator raises: the Firestore reads and the write at app.py:251, spaCy, or `model.encode`. The model has no such failures, so its "500 exactly when" statements hold only for collaborators that succeed.
- Order of the matched lists. The source stores `list(matched_skills)` and `list(matched_quals)` (app.py:229-230) in Python's set-iteration order, which is not specified. The model stores the matched skills and qualifications as sets.
- Text.Lower: models Python's `lower()` on ASCII letters, on U+0130, which lowers to "i" followed by a combining dot, and on the Kelvin sign U+212A, which lowers to "k". Other non-ASCII characters are left unchanged. In `preprocess_text` and `normalize_skill` the following deletion removes them in any case.
- Skills.NormalizeQualification: the pass-through returns the model's `Lower(q)`, so a non-ASCII upper-case letter such as "É" stays as it is where Python would lower it. The callers only pass tokens that `extract_qualifications` found by searching `text.lower()` with an ASCII-only pattern (utils/resume_utils.py:87-89), so these tokens are already lower-case.
- Text.PreprocessText: the first substitution in `preprocess_text` (utils/resume_utils.py:36) replaces "letter.letter" with itself, so the model leaves it out.
- Scores are real numbers, not floats. Rounding in the F1 division and the 0.3 multiplication is not modelled.

## Notes on the source

- Skill normalisation is not idempotent. The trailing "js" is removed once per call, so "reactjsjs" becomes "reactjs" and then "react". `Skills.NormalizeDoubleJs` and `Skills.NormalizeSkillFixpointIff` state exactly when idempotence holds.
- The cache compares the pool's e-mails with those of the stored ranked resumes (app.py:121). Those include only resumes that survived intake (app.py:136-162). So when a resume with an e-mail is skipped for a missing URL or failed extraction, and no admitted resume carries the same e-mail, the cache is never reused for that pool; see `Pipeline.SkippedResumeDefeatsCache`. A skipped resume without an e-mail does not affect the cache (`Cache.EmaillessIgnored`).
- When every score is zero, the code assigns no display scores. The sort then fails on the missing key and the handler answers 500. The model keeps that error path (`Ranking.ZeroPoolFails`, `Pipeline.ServerErrorIffNoSharedSkill`).
