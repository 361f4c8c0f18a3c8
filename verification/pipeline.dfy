/** The ranking request as a whole (app.py, `rank_resumes`): the empty-pool
    answer, the cache check, intake of the resume documents, per-candidate
    scoring, ranking and the failure answers. Fetching, text extraction,
    the document store and the HTTP layer are outside the model: a resume's
    extracted profile arrives as a parameter, `None` when its document could
    not be fetched or held no text. */
module Pipeline {
  import opened Wrappers
  import Cache
  import Scoring
  import Ranking
  import WorkHistory

  /** The handler's answers. */
  datatype Response =
    | NoResumes                                    // 404: the job has no resumes
    | Cached(ranked: seq<Cache.RankedResume>)      // 200: the stored ranking, verbatim
    | NoValidResumes                               // 404: no resume survived intake
    | Fresh(ranked: seq<Cache.RankedResume>)       // 200: a new ranking, also stored
    | ServerError                                  // 500: the handler raised

  /** A resume that survived intake. */
  datatype Candidate = Candidate(
    name: Option<string>,
    email: Option<string>,
    url: string,
    profile: Scoring.ResumeProfile)

  /** A resume is kept when its URL is present and non-empty and its
      document yielded text. */
  predicate Admitted(r: Cache.StoredResume, document: Option<Scoring.ResumeProfile>) {
    Cache.Truthy(r.url) && document.Some?
  }

  function Admit(r: Cache.StoredResume, document: Option<Scoring.ResumeProfile>): Candidate
    requires Admitted(r, document)
  {
    Candidate(r.name, r.email, r.url.value, document.value)
  }

  /** The intake loop: the admitted resumes, in pool order. */
  function Intake(pool: seq<Cache.StoredResume>, documents: seq<Option<Scoring.ResumeProfile>>): (cs: seq<Candidate>)
    requires |documents| == |pool|
    ensures |cs| <= |pool|
    ensures forall j :: 0 <= j < |cs| ==>
      exists i :: 0 <= i < |pool| && Admitted(pool[i], documents[i]) && cs[j] == Admit(pool[i], documents[i])
    ensures cs == [] <==> forall i :: 0 <= i < |pool| ==> !Admitted(pool[i], documents[i])
  {
    if pool == [] then []
    else
      var rest := Intake(pool[1..], documents[1..]);
      assert forall i :: 1 <= i < |pool| ==> pool[i] == pool[1..][i - 1] && documents[i] == documents[1..][i - 1];
      if Admitted(pool[0], documents[0]) then [Admit(pool[0], documents[0])] + rest else rest
  }

  /** Every admitted resume reaches the candidates. */
  lemma {:induction false} AdmittedIsKept(pool: seq<Cache.StoredResume>, documents: seq<Option<Scoring.ResumeProfile>>, i: nat)
    requires |documents| == |pool|
    requires i < |pool| && Admitted(pool[i], documents[i])
    ensures Admit(pool[i], documents[i]) in Intake(pool, documents)
  {
    if i > 0 {
      AdmittedIsKept(pool[1..], documents[1..], i - 1);
    }
  }

  /** One resume on its own yields its candidate exactly when it is admitted, */
  lemma IntakeSingle(r: Cache.StoredResume, document: Option<Scoring.ResumeProfile>)
    ensures Intake([r], [document]) == (if Admitted(r, document) then [Admit(r, document)] else [])
  {
    assert [r][1..] == [] && [document][1..] == [];
  }

  /** and intake of two pools one after the other is intake of the first
      followed by intake of the second: order and repetitions are kept. */
  lemma {:induction false} IntakeAppend(
    p1: seq<Cache.StoredResume>, d1: seq<Option<Scoring.ResumeProfile>>,
    p2: seq<Cache.StoredResume>, d2: seq<Option<Scoring.ResumeProfile>>)
    requires |d1| == |p1| && |d2| == |p2|
    ensures Intake(p1 + p2, d1 + d2) == Intake(p1, d1) + Intake(p2, d2)
    decreases |p1|
  {
    if p1 == [] {
      assert p1 + p2 == p2 && d1 + d2 == d2;
    } else {
      assert (p1 + p2)[1..] == p1[1..] + p2 && (d1 + d2)[1..] == d1[1..] + d2;
      IntakeAppend(p1[1..], d1[1..], p2, d2);
    }
  }

  /** A candidate together with what the scoring loop found for it. */
  datatype Scored = Scored(candidate: Candidate, assessment: Scoring.Assessment)

  /** The scoring loop: one assessment per candidate, in intake order. */
  function AssessAll(job: Scoring.JobProfile, cs: seq<Candidate>, today: WorkHistory.YearMonth): (ss: seq<Scored>)
    ensures |ss| == |cs|
    ensures forall i :: 0 <= i < |cs| ==> ss[i].candidate == cs[i] && ss[i].assessment == Scoring.Assess(job, cs[i].profile, today)
  {
    seq(|cs|, i requires 0 <= i < |cs| => Scored(cs[i], Scoring.Assess(job, cs[i].profile, today)))
  }

  /** The stored record of one scored candidate at a given rank: the
      candidate's contact fields, the matched sets, the formatted experience,
      the verdict's label (from which the verdict can be read back), the
      display score and the rank. */
  function Entry(s: Scored, scale: real -> real, rank: nat): (e: Cache.RankedResume)
    ensures e.name == s.candidate.name && e.email == s.candidate.email && e.url == s.candidate.url
    ensures e.skills == s.assessment.skills && e.quals == s.assessment.quals
    ensures e.experience == s.assessment.experience
    ensures forall v :: Scoring.Label(v) == e.requirement <==> v == s.assessment.verdict
    ensures e.score == scale(s.assessment.score) && e.rank == rank
  {
    var a := s.assessment;
    Cache.RankedResume(s.candidate.name, s.candidate.email, a.skills, a.quals, a.experience,
                       Scoring.Label(a.verdict), s.candidate.url, scale(a.score), rank)
  }

  function RawScores(ss: seq<Scored>): (raw: seq<real>)
    ensures |raw| == |ss|
    ensures forall i :: 0 <= i < |ss| ==> raw[i] == ss[i].assessment.score
  {
    seq(|ss|, i requires 0 <= i < |ss| => ss[i].assessment.score)
  }

  /** The stored records of a ranking, in ranked order. */
  function Entries(out: seq<Ranking.Ranked<Scored>>, scale: real -> real): (ranked: seq<Cache.RankedResume>)
    ensures |ranked| == |out|
    ensures forall k :: 0 <= k < |out| ==> ranked[k] == Entry(out[k].item, scale, out[k].rank)
  {
    seq(|out|, k requires 0 <= k < |out| => Entry(out[k].item, scale, out[k].rank))
  }

  lemma EntriesRanked(ss: seq<Scored>, scale: real -> real)
    requires Ranking.RankPool(ss, RawScores(ss), scale).Ok?
    ensures var ranked := Entries(Ranking.RankPool(ss, RawScores(ss), scale).value, scale);
      && |ranked| == |ss|
      && (forall k :: 0 <= k < |ranked| ==> ranked[k].rank == k + 1)
      && (forall k :: 0 <= k < |ranked| ==>
            exists i :: 0 <= i < |ss| && ranked[k] == Entry(ss[i], scale, ranked[k].rank))
  {
    var out := Ranking.RankPool(ss, RawScores(ss), scale).value;
    var ranked := Entries(out, scale);
    forall k | 0 <= k < |ranked|
      ensures exists i :: 0 <= i < |ss| && ranked[k] == Entry(ss[i], scale, ranked[k].rank)
    {
      var i := out[k].position;
      assert ranked[k] == Entry(ss[i], scale, ranked[k].rank);
    }
  }

  lemma EntriesSorted(ss: seq<Scored>, scale: real -> real)
    requires Ranking.RankPool(ss, RawScores(ss), scale).Ok?
    ensures var ranked := Entries(Ranking.RankPool(ss, RawScores(ss), scale).value, scale);
      forall k, l :: 0 <= k < l < |ranked| ==> ranked[k].score >= ranked[l].score
  {
    var raw := RawScores(ss);
    var out := Ranking.RankPool(ss, raw, scale).value;
    var ranked := Entries(out, scale);
    forall k: nat, l: nat | k < l < |ranked|
      ensures ranked[k].score >= ranked[l].score
    {
      Ranking.ScoresNonIncreasing(ss, raw, scale, k, l);
    }
  }

  lemma EntriesComplete(ss: seq<Scored>, scale: real -> real)
    requires Ranking.RankPool(ss, RawScores(ss), scale).Ok?
    ensures var ranked := Entries(Ranking.RankPool(ss, RawScores(ss), scale).value, scale);
      forall i :: 0 <= i < |ss| ==> exists k :: 0 <= k < |ranked| && ranked[k] == Entry(ss[i], scale, ranked[k].rank)
  {
    var raw := RawScores(ss);
    var out := Ranking.RankPool(ss, raw, scale).value;
    var ranked := Entries(out, scale);
    forall i: nat | i < |ss|
      ensures exists k :: 0 <= k < |ranked| && ranked[k] == Entry(ss[i], scale, ranked[k].rank)
    {
      Ranking.EveryPositionRanked(ss, raw, scale, i);
      var k :| 0 <= k < |out| && out[k].position == i;
      assert ranked[k] == Entry(ss[i], scale, ranked[k].rank);
    }
  }

  /** Rescaling, sorting and numbering. The ranking fails exactly when no
      candidate has a positive score; otherwise it has one entry per
      candidate and display scores never increase down the list. */
  function RankScored(ss: seq<Scored>, scale: real -> real): (r: Result<seq<Cache.RankedResume>, Ranking.RankError>)
    ensures r.Err? <==> |ss| > 0 && forall i :: 0 <= i < |ss| ==> ss[i].assessment.score <= 0.0
    ensures r.Ok? ==> |r.value| == |ss|
    ensures r.Ok? ==> forall k, l :: 0 <= k < l < |r.value| ==> r.value[k].score >= r.value[l].score
    ensures r.Ok? ==> exists o :: FollowsStableOrder(ss, scale, o, r.value)
  {
    var p := Ranking.RankPool(ss, RawScores(ss), scale);
    PoolFails(ss, scale);
    if p.Err? then Err(p.error)
    else
      EntriesOrdered(ss, scale);
      Ok(Entries(p.value, scale))
  }

  lemma PoolFails(ss: seq<Scored>, scale: real -> real)
    ensures Ranking.RankPool(ss, RawScores(ss), scale).Err? <==>
      |ss| > 0 && forall i :: 0 <= i < |ss| ==> ss[i].assessment.score <= 0.0
  {
    var raw := RawScores(ss);
    assert forall i :: 0 <= i < |ss| ==> raw[i] == ss[i].assessment.score;
  }

  lemma EntriesOrdered(ss: seq<Scored>, scale: real -> real)
    requires Ranking.RankPool(ss, RawScores(ss), scale).Ok?
    ensures var ranked := Entries(Ranking.RankPool(ss, RawScores(ss), scale).value, scale);
      && |ranked| == |ss|
      && (forall k, l :: 0 <= k < l < |ranked| ==> ranked[k].score >= ranked[l].score)
      && exists o :: FollowsStableOrder(ss, scale, o, ranked)
  {
    EntriesSorted(ss, scale);
    EntriesFollowOrder(ss, scale);
  }

  /** `ranked` lists the records of the candidates in the order `o`, which is
      the stable descending order of the display scores: ties keep intake order. */
  predicate FollowsStableOrder(ss: seq<Scored>, scale: real -> real, o: seq<nat>, ranked: seq<Cache.RankedResume>) {
    && Ranking.IsStableDescending(Ranking.Rescaled(RawScores(ss), scale), o)
    && |o| == |ranked|
    && forall k :: 0 <= k < |o| ==> o[k] < |ss| && ranked[k] == Entry(ss[o[k]], scale, k + 1)
  }

  lemma EntriesFollowOrder(ss: seq<Scored>, scale: real -> real)
    requires Ranking.RankPool(ss, RawScores(ss), scale).Ok?
    ensures FollowsStableOrder(ss, scale, Ranking.OutputOrder(Ranking.RankPool(ss, RawScores(ss), scale).value),
                               Entries(Ranking.RankPool(ss, RawScores(ss), scale).value, scale))
  {
  }

  /** Ranks run 1, 2, 3, ... down a successful ranking. */
  lemma RankScoredNumbered(ss: seq<Scored>, scale: real -> real)
    requires RankScored(ss, scale).Ok?
    ensures forall k :: 0 <= k < |RankScored(ss, scale).value| ==> RankScored(ss, scale).value[k].rank == k + 1
  {
    EntriesRanked(ss, scale);
  }

  /** Every entry of a successful ranking is the record of some candidate. */
  lemma RankScoredSound(ss: seq<Scored>, scale: real -> real, k: nat)
    requires RankScored(ss, scale).Ok? && k < |RankScored(ss, scale).value|
    ensures var ranked := RankScored(ss, scale).value;
      exists i :: 0 <= i < |ss| && ranked[k] == Entry(ss[i], scale, ranked[k].rank)
  {
    EntriesRanked(ss, scale);
  }

  /** Every candidate has an entry in a successful ranking. */
  lemma RankScoredComplete(ss: seq<Scored>, scale: real -> real, i: nat)
    requires RankScored(ss, scale).Ok? && i < |ss|
    ensures var ranked := RankScored(ss, scale).value;
      exists k :: 0 <= k < |ranked| && ranked[k] == Entry(ss[i], scale, ranked[k].rank)
  {
    EntriesComplete(ss, scale);
  }

  /** Scores every admitted candidate and ranks them. */
  function RankCandidates(job: Scoring.JobProfile, cs: seq<Candidate>, today: WorkHistory.YearMonth, scale: real -> real)
    : Result<seq<Cache.RankedResume>, Ranking.RankError>
  {
    RankScored(AssessAll(job, cs, today), scale)
  }

  /** The ranking fails exactly when no candidate shares a skill with the job. */
  lemma RankingFailsIffNoSharedSkill(job: Scoring.JobProfile, cs: seq<Candidate>, today: WorkHistory.YearMonth, scale: real -> real)
    ensures RankCandidates(job, cs, today, scale).Err? <==>
      |cs| > 0 && forall i :: 0 <= i < |cs| ==> Scoring.Assess(job, cs[i].profile, today).skills == {}
  {
    var ss := AssessAll(job, cs, today);
    assert forall i :: 0 <= i < |cs| ==>
      (ss[i].assessment.score <= 0.0 <==> Scoring.Assess(job, cs[i].profile, today).skills == {});
  }

  /** `rank_resumes` after the request has been validated. `cached` is the
      stored ranking for the job, if any; `documents[i]` is what intake
      obtains from resume `i`. */
  function RankResumes(
    pool: seq<Cache.StoredResume>,
    cached: Option<seq<Cache.RankedResume>>,
    documents: seq<Option<Scoring.ResumeProfile>>,
    posting: Scoring.JobPosting,
    today: WorkHistory.YearMonth,
    scale: real -> real): (resp: Response)
    requires |documents| == |pool|
    ensures resp == NoResumes <==> pool == []
    ensures resp.Cached? <==> pool != [] && Cache.CacheGate(cached, pool).Reuse?
    ensures resp.Cached? ==> resp.ranked == cached.value
    ensures resp == NoValidResumes <==>
      && pool != [] && Cache.CacheGate(cached, pool) == Cache.Recompute
      && forall i :: 0 <= i < |pool| ==> !Admitted(pool[i], documents[i])
    ensures resp == ServerError <==>
      && pool != [] && Cache.CacheGate(cached, pool) == Cache.Recompute
      && Intake(pool, documents) != [] && RankCandidates(Scoring.JobRequirements(posting), Intake(pool, documents), today, scale).Err?
    ensures resp.Fresh? ==> resp.ranked == RankCandidates(Scoring.JobRequirements(posting), Intake(pool, documents), today, scale).value
  {
    if pool == [] then NoResumes
    else match Cache.CacheGate(cached, pool)
      case Reuse(ranked) => Cached(ranked)
      case Recompute =>
        var job := Scoring.JobRequirements(posting);
        var cs := Intake(pool, documents);
        if cs == [] then NoValidResumes
        else match RankCandidates(job, cs, today, scale)
          case Err(_) => ServerError
          case Ok(ranked) => Fresh(ranked)
  }

  /** The handler answers 500 exactly when the stored ranking is not reused,
      some resume survives intake, and no surviving resume shares a skill
      with the job. */
  lemma ServerErrorIffNoSharedSkill(
    pool: seq<Cache.StoredResume>, cached: Option<seq<Cache.RankedResume>>,
    documents: seq<Option<Scoring.ResumeProfile>>, posting: Scoring.JobPosting,
    today: WorkHistory.YearMonth, scale: real -> real)
    requires |documents| == |pool|
    ensures RankResumes(pool, cached, documents, posting, today, scale) == ServerError <==>
      && pool != [] && Cache.CacheGate(cached, pool) == Cache.Recompute
      && var cs := Intake(pool, documents);
         cs != [] && forall j :: 0 <= j < |cs| ==> Scoring.Assess(Scoring.JobRequirements(posting), cs[j].profile, today).skills == {}
  {
    RankingFailsIffNoSharedSkill(Scoring.JobRequirements(posting), Intake(pool, documents), today, scale);
  }

  /** The non-empty emails of the admitted resumes. */
  function CandidateEmails(cs: seq<Candidate>): (r: set<string>)
    ensures forall x :: x in r <==> exists j :: 0 <= j < |cs| && cs[j].email == Some(x) && x != ""
  {
    set j | 0 <= j < |cs| && Cache.Truthy(cs[j].email) :: cs[j].email.value
  }

  lemma RankedEmailIsCandidate(ss: seq<Scored>, scale: real -> real, k: nat)
    requires RankScored(ss, scale).Ok? && k < |RankScored(ss, scale).value|
    ensures exists j :: 0 <= j < |ss| && ss[j].candidate.email == RankScored(ss, scale).value[k].email
  {
    var out := RankScored(ss, scale).value;
    RankScoredSound(ss, scale, k);
    var j :| 0 <= j < |ss| && out[k] == Entry(ss[j], scale, out[k].rank);
    assert ss[j].candidate.email == out[k].email;
  }

  lemma CandidateEmailIsRanked(ss: seq<Scored>, scale: real -> real, j: nat)
    requires RankScored(ss, scale).Ok? && j < |ss|
    ensures exists k :: 0 <= k < |RankScored(ss, scale).value| && RankScored(ss, scale).value[k].email == ss[j].candidate.email
  {
    var out := RankScored(ss, scale).value;
    RankScoredComplete(ss, scale, j);
    var k :| 0 <= k < |out| && out[k] == Entry(ss[j], scale, out[k].rank);
    assert out[k].email == ss[j].candidate.email;
  }

  /** The emails of a fresh ranking are those of the admitted resumes. */
  lemma FreshEmails(job: Scoring.JobProfile, cs: seq<Candidate>, today: WorkHistory.YearMonth, scale: real -> real)
    requires RankCandidates(job, cs, today, scale).Ok?
    ensures Cache.RankedEmails(RankCandidates(job, cs, today, scale).value) == CandidateEmails(cs)
  {
    var ss := AssessAll(job, cs, today);
    var out := RankScored(ss, scale).value;
    forall x | x in Cache.RankedEmails(out)
      ensures x in CandidateEmails(cs)
    {
      var k :| 0 <= k < |out| && out[k].email == Some(x) && x != "";
      RankedEmailIsCandidate(ss, scale, k);
      var j :| 0 <= j < |ss| && ss[j].candidate.email == out[k].email;
      assert cs[j].email == Some(x);
    }
    forall x | x in CandidateEmails(cs)
      ensures x in Cache.RankedEmails(out)
    {
      var j :| 0 <= j < |cs| && cs[j].email == Some(x) && x != "";
      CandidateEmailIsRanked(ss, scale, j);
      var k :| 0 <= k < |out| && out[k].email == ss[j].candidate.email;
      assert out[k].email == Some(x);
    }
  }

  /** Every candidate comes from an admitted pool resume with its email. */
  lemma CandidateFromPool(pool: seq<Cache.StoredResume>, documents: seq<Option<Scoring.ResumeProfile>>, j: nat)
    requires |documents| == |pool| && j < |Intake(pool, documents)|
    ensures exists i :: 0 <= i < |pool| && pool[i].email == Intake(pool, documents)[j].email
  {
    var cs := Intake(pool, documents);
    var i :| 0 <= i < |pool| && Admitted(pool[i], documents[i]) && cs[j] == Admit(pool[i], documents[i]);
    assert pool[i].email == cs[j].email;
  }

  /** A candidate's email is the email of a pool resume. */
  lemma CandidateEmailFromPool(pool: seq<Cache.StoredResume>, documents: seq<Option<Scoring.ResumeProfile>>, x: string)
    requires |documents| == |pool|
    requires x in CandidateEmails(Intake(pool, documents))
    ensures x in Cache.PoolEmails(pool)
  {
    var cs := Intake(pool, documents);
    var j :| 0 <= j < |cs| && cs[j].email == Some(x) && x != "";
    CandidateFromPool(pool, documents, j);
    var i :| 0 <= i < |pool| && pool[i].email == cs[j].email;
  }

  /** The email of an admitted pool resume reaches the candidates. */
  lemma AdmittedEmailKept(pool: seq<Cache.StoredResume>, documents: seq<Option<Scoring.ResumeProfile>>, i: nat)
    requires |documents| == |pool|
    requires i < |pool| && Admitted(pool[i], documents[i]) && Cache.Truthy(pool[i].email)
    ensures pool[i].email.value in CandidateEmails(Intake(pool, documents))
  {
    var cs := Intake(pool, documents);
    AdmittedIsKept(pool, documents, i);
    var j :| 0 <= j < |cs| && cs[j] == Admit(pool[i], documents[i]);
    assert cs[j].email == pool[i].email;
  }

  /** Intake drops no email when every resume with one is admitted. */
  lemma IntakeKeepsEmails(pool: seq<Cache.StoredResume>, documents: seq<Option<Scoring.ResumeProfile>>)
    requires |documents| == |pool|
    requires forall i :: 0 <= i < |pool| && Cache.Truthy(pool[i].email) ==> Admitted(pool[i], documents[i])
    ensures CandidateEmails(Intake(pool, documents)) == Cache.PoolEmails(pool)
  {
    forall x | x in Cache.PoolEmails(pool)
      ensures x in CandidateEmails(Intake(pool, documents))
    {
      var i :| 0 <= i < |pool| && pool[i].email == Some(x) && x != "";
      AdmittedEmailKept(pool, documents, i);
    }
    forall x | x in CandidateEmails(Intake(pool, documents))
      ensures x in Cache.PoolEmails(pool)
    {
      CandidateEmailFromPool(pool, documents, x);
    }
  }

  /** An email whose every resume was skipped does not reach the candidates. */
  lemma IntakeDropsEmail(pool: seq<Cache.StoredResume>, documents: seq<Option<Scoring.ResumeProfile>>, s: nat)
    requires |documents| == |pool|
    requires s < |pool| && Cache.Truthy(pool[s].email)
    requires forall i :: 0 <= i < |pool| && pool[i].email == pool[s].email ==> !Admitted(pool[i], documents[i])
    ensures pool[s].email.value !in CandidateEmails(Intake(pool, documents))
  {
    var cs := Intake(pool, documents);
    forall j | 0 <= j < |cs|
      ensures cs[j].email != pool[s].email
    {
      var i :| 0 <= i < |pool| && Admitted(pool[i], documents[i]) && cs[j] == Admit(pool[i], documents[i]);
    }
  }

  /** A fresh answer is the ranking of the admitted candidates. */
  lemma FreshIsRanking(
    pool: seq<Cache.StoredResume>, cached: Option<seq<Cache.RankedResume>>,
    documents: seq<Option<Scoring.ResumeProfile>>, posting: Scoring.JobPosting,
    today: WorkHistory.YearMonth, scale: real -> real)
    requires |documents| == |pool|
    requires RankResumes(pool, cached, documents, posting, today, scale).Fresh?
    ensures pool != []
    ensures RankCandidates(Scoring.JobRequirements(posting), Intake(pool, documents), today, scale).Ok?
    ensures RankResumes(pool, cached, documents, posting, today, scale).ranked == RankCandidates(Scoring.JobRequirements(posting), Intake(pool, documents), today, scale).value
  {
  }

  /** When every resume with an email made it through intake, the ranking
      just produced is reused by the next request for the same pool, however
      the documents or scores would come out then. */
  lemma FreshRankingIsReused(
    pool: seq<Cache.StoredResume>, cached: Option<seq<Cache.RankedResume>>,
    documents: seq<Option<Scoring.ResumeProfile>>, posting: Scoring.JobPosting,
    today: WorkHistory.YearMonth, scale: real -> real,
    later: seq<Option<Scoring.ResumeProfile>>, laterPosting: Scoring.JobPosting,
    laterToday: WorkHistory.YearMonth, laterScale: real -> real)
    requires |documents| == |pool| && |later| == |pool|
    requires RankResumes(pool, cached, documents, posting, today, scale).Fresh?
    requires forall i :: 0 <= i < |pool| && Cache.Truthy(pool[i].email) ==> Admitted(pool[i], documents[i])
    ensures var out := RankResumes(pool, cached, documents, posting, today, scale).ranked;
      RankResumes(pool, Some(out), later, laterPosting, laterToday, laterScale) == Cached(out)
  {
    var out := RankResumes(pool, cached, documents, posting, today, scale).ranked;
    FreshIsRanking(pool, cached, documents, posting, today, scale);
    FreshEmails(Scoring.JobRequirements(posting), Intake(pool, documents), today, scale);
    IntakeKeepsEmails(pool, documents);
    assert Cache.CacheGate(Some(out), pool) == Cache.Reuse(out);
  }

  /** A resume with an email that intake skipped, with no admitted resume
      sharing that email, makes the stored ranking useless: the next request
      for the same pool recomputes instead of reusing it. */
  lemma SkippedResumeDefeatsCache(
    pool: seq<Cache.StoredResume>, cached: Option<seq<Cache.RankedResume>>,
    documents: seq<Option<Scoring.ResumeProfile>>, posting: Scoring.JobPosting,
    today: WorkHistory.YearMonth, scale: real -> real,
    later: seq<Option<Scoring.ResumeProfile>>, laterPosting: Scoring.JobPosting,
    laterToday: WorkHistory.YearMonth, laterScale: real -> real, s: nat)
    requires |documents| == |pool| && |later| == |pool|
    requires RankResumes(pool, cached, documents, posting, today, scale).Fresh?
    requires s < |pool| && Cache.Truthy(pool[s].email)
    requires forall i :: 0 <= i < |pool| && pool[i].email == pool[s].email ==> !Admitted(pool[i], documents[i])
    ensures var out := RankResumes(pool, cached, documents, posting, today, scale).ranked;
      !RankResumes(pool, Some(out), later, laterPosting, laterToday, laterScale).Cached?
  {
    var out := RankResumes(pool, cached, documents, posting, today, scale).ranked;
    FreshIsRanking(pool, cached, documents, posting, today, scale);
    FreshEmails(Scoring.JobRequirements(posting), Intake(pool, documents), today, scale);
    IntakeDropsEmail(pool, documents, s);
    Cache.NewEmailRecomputes(Some(out), pool, s);
  }
}
