/** Per-candidate requirement matching and scoring (app.py, the loop body
    that follows the embedding step). The semantic similarity the loop
    iterates over is bound but never read, so it does not appear here. */
module Scoring {
  import opened Wrappers
  import Skills
  import RequiredExperience
  import WorkHistory
  import Duration

  type Window = RequiredExperience.Window

  /** The three outcomes of the experience check. */
  datatype Verdict = Matched | NotMatched | NoRequirement

  function Label(v: Verdict): string {
    match v
    case Matched => "Experience matched"
    case NotMatched => "Experience not matched"
    case NoRequirement => "No experience requirement specified"
  }

  /** Whether a candidate satisfies a window: an unspecified minimum admits
      everyone, an absent maximum is unbounded. */
  predicate Satisfies(total: nat, w: Window) {
    match w.min
    case None => true
    case Some(lo) => lo <= total && (w.max.None? || total <= w.max.value)
  }

  function ExperienceVerdict(total: nat, w: Window): (v: Verdict)
    ensures v == NoRequirement <==> w.min.None?
    ensures v != NotMatched <==> Satisfies(total, w)
  {
    if w.min.Some? && total >= w.min.value && (w.max.None? || total <= w.max.value) then Matched
    else if w.min.Some? then NotMatched
    else NoRequirement
  }

  /** Python's `set(list)`. */
  function Elems(s: seq<string>): (r: set<string>)
    ensures forall x :: x in r <==> x in s
    ensures |r| <= |s|
  {
    if s == [] then {}
    else
      var rest := Elems(s[1..]);
      assert forall x :: x in s <==> x == s[0] || x in s[1..];
      {s[0]} + rest
  }

  /** The keys both sides list (`set(job) & set(resume)`). */
  function Overlap(job: seq<string>, resume: seq<string>): (m: set<string>)
    ensures forall x :: x in m <==> x in job && x in resume
    ensures |m| <= |job| && |m| <= |resume|
  {
    var a := Elems(job);
    var b := Elems(resume);
    assert a * b <= a && a * b <= b;
    assert |a * b| <= |a| by { SubsetCard(a * b, a); }
    assert |a * b| <= |b| by { SubsetCard(a * b, b); }
    a * b
  }

  lemma SubsetCard(a: set<string>, b: set<string>)
    requires a <= b
    ensures |a| <= |b|
  {
    assert b == a + (b - a);
  }

  /** The harmonic mean of precision `m/a` and recall `m/b`, computed as
      the source does; 0 when both are 0. */
  function F1(m: nat, a: nat, b: nat): real
    requires a > 0 && b > 0
  {
    var precision := m as real / a as real;
    var recall := m as real / b as real;
    if precision + recall > 0.0 then 2.0 * (precision * recall) / (precision + recall) else 0.0
  }

  /** `x / d1 == y / d2` follows from `x * d2 == y * d1`. */
  lemma CrossDivide(x: real, d1: real, y: real, d2: real)
    requires d1 != 0.0 && d2 != 0.0
    requires x * d2 == y * d1
    ensures x / d1 == y / d2
  {
    var q := x / d1;
    assert q * d1 == x;
    assert (q * d2) * d1 == (y) * d1 by {
      calc {
        (q * d2) * d1;
        (q * d1) * d2;
        x * d2;
      }
    }
    assert q * d2 == y;
  }

  /** With `m` matches out of `a` and `b` (both non-empty), F1 is the
      Dice coefficient 2m/(a+b). */
  lemma F1IsDice(m: nat, a: nat, b: nat)
    requires a > 0 && b > 0
    ensures F1(m, a, b) == 2.0 * (m as real) / ((a + b) as real)
  {
    var M := m as real;
    var A := a as real;
    var B := b as real;
    var p := M / A;
    var r := M / B;
    if m == 0 {
      assert p == 0.0 && r == 0.0;
    } else {
      assert p > 0.0;
      assert p * A == M;
      assert r * B == M;
      assert (p * r) * A == M * r by {
        calc {
          (p * r) * A;
          (p * A) * r;
        }
      }
      assert (p * r) * B == p * M by {
        calc {
          (p * r) * B;
          p * (r * B);
        }
      }
      assert (2.0 * (p * r)) * (A + B) == (2.0 * M) * (p + r) by {
        calc {
          (2.0 * (p * r)) * (A + B);
          2.0 * ((p * r) * A + (p * r) * B);
          2.0 * (M * r + p * M);
        }
      }
      CrossDivide(2.0 * (p * r), p + r, 2.0 * M, A + B);
    }
  }

  /** The Dice coefficient lies in [0, 1] when the matches fit in both lists,
      and is positive exactly when there is a match. */
  lemma DiceBounds(m: nat, a: nat, b: nat)
    requires a > 0 && b > 0 && m <= a && m <= b
    ensures 0.0 <= 2.0 * (m as real) / ((a + b) as real) <= 1.0
    ensures 2.0 * (m as real) / ((a + b) as real) > 0.0 <==> m > 0
  {
    var d := (a + b) as real;
    var q := 2.0 * (m as real) / d;
    assert q * d == 2.0 * (m as real);
    assert 2.0 * (m as real) <= d;
  }

  /** The skill score (app.py): F1 over the two key lists, 0 when either
      list is empty. Precision and recall divide by list lengths, so
      duplicate keys count. */
  function SkillScore(job: seq<string>, resume: seq<string>): (s: real)
    ensures 0.0 <= s <= 1.0
    ensures s > 0.0 <==> Overlap(job, resume) != {}
  {
    if |job| > 0 && |resume| > 0 then
      var m := |Overlap(job, resume)|;
      F1IsDice(m, |resume|, |job|);
      DiceBounds(m, |resume|, |job|);
      F1(m, |resume|, |job|)
    else 0.0
  }

  /** The skill score equals `2|matched| / (|job| + |resume|)`. */
  lemma SkillScoreIsDice(job: seq<string>, resume: seq<string>)
    requires |job| > 0 && |resume| > 0
    ensures SkillScore(job, resume) == 2.0 * (|Overlap(job, resume)| as real) / ((|job| + |resume|) as real)
  {
    F1IsDice(|Overlap(job, resume)|, |resume|, |job|);
    assert |resume| + |job| == |job| + |resume|;
  }

  /** The penalty multiplier for a missing requirement. */
  const Penalty: real := 0.3

  predicate Penalised(v: Verdict, skills: set<string>, quals: set<string>) {
    v == NotMatched || skills == {} || quals == {}
  }

  /** The final score: the skill score, multiplied once by the penalty if any
      requirement is missing. */
  function FinalScore(skill: real, v: Verdict, skills: set<string>, quals: set<string>): (f: real)
    ensures Penalised(v, skills, quals) ==> f == Penalty * skill
    ensures !Penalised(v, skills, quals) ==> f == skill
    ensures 0.0 <= skill ==> 0.0 <= f <= skill
  {
    if v == NotMatched || skills == {} || quals == {} then skill * Penalty else skill
  }

  /** What the job side contributes: normalised skill and qualification keys
      (in extraction order, duplicates kept) and the experience window. */
  datatype JobProfile = JobProfile(skills: seq<string>, quals: seq<string>, window: Window)

  /** What one resume contributes: extracted skill and qualification strings
      and the date ranges found in its work-experience section. */
  datatype ResumeProfile = ResumeProfile(skills: seq<string>, quals: seq<string>, ranges: seq<WorkHistory.DateRange>)

  function NormalizeSkills(raw: seq<string>): (keys: seq<string>)
    ensures |keys| == |raw|
    ensures forall i :: 0 <= i < |raw| ==> keys[i] == Skills.NormalizeSkill(raw[i])
  {
    seq(|raw|, i requires 0 <= i < |raw| => Skills.NormalizeSkill(raw[i]))
  }

  function NormalizeQualifications(raw: seq<string>): (keys: seq<string>)
    ensures |keys| == |raw|
    ensures forall i :: 0 <= i < |raw| ==> keys[i] == Skills.NormalizeQualification(raw[i])
  {
    seq(|raw|, i requires 0 <= i < |raw| => Skills.NormalizeQualification(raw[i]))
  }

  /** What the extractors find in the job description: raw skill and
      qualification strings and the duration phrases. */
  datatype JobPosting = JobPosting(skills: seq<string>, quals: seq<string>, phrases: seq<RequiredExperience.Phrase>)

  /** The job side: one normalised key per extracted string, in order, and
      the window the duration phrases require. */
  function JobRequirements(posting: JobPosting): (job: JobProfile)
    ensures |job.skills| == |posting.skills|
    ensures forall i :: 0 <= i < |job.skills| ==>
      job.skills[i] == Skills.NormalizeSkill(posting.skills[i]) && Skills.IsKey(job.skills[i])
    ensures |job.quals| == |posting.quals|
    ensures forall i :: 0 <= i < |job.quals| ==> job.quals[i] == Skills.NormalizeQualification(posting.quals[i])
    ensures job.window.min.None? <==> forall p :: p in posting.phrases ==> RequiredExperience.MinOf(p).None?
    ensures job.window.min.Some? ==> RequiredExperience.IsLeastMin(posting.phrases, job.window.min.value)
    ensures job.window.max.None? <==> forall p :: p in posting.phrases ==> RequiredExperience.MaxOf(p).None?
    ensures job.window.max.Some? ==> RequiredExperience.IsGreatestMax(posting.phrases, job.window.max.value)
  {
    JobProfile(NormalizeSkills(posting.skills), NormalizeQualifications(posting.quals),
               RequiredExperience.ParseRequiredExperience(posting.phrases))
  }

  /** Everything the loop body records for one resume. */
  datatype Assessment = Assessment(
    skills: set<string>,
    quals: set<string>,
    months: nat,
    experience: string,
    verdict: Verdict,
    score: real)

  /** Scores one resume against the job. */
  function Assess(job: JobProfile, resume: ResumeProfile, today: WorkHistory.YearMonth): (a: Assessment)
    ensures forall k :: k in a.skills <==> k in job.skills && k in NormalizeSkills(resume.skills)
    ensures forall k :: k in a.quals <==> k in job.quals && k in NormalizeQualifications(resume.quals)
    ensures a.verdict != NotMatched <==> Satisfies(a.months, job.window)
    ensures 0.0 <= a.score <= 1.0
    ensures a.score > 0.0 <==> a.skills != {}
    ensures Penalised(a.verdict, a.skills, a.quals) ==> a.score <= Penalty
    ensures Duration.ParseDuration(a.experience) == Some(a.months)
    ensures a.experience == Duration.FormatMonths(a.months)
    ensures a.months == WorkHistory.TotalMonths(WorkHistory.WorkPeriods(resume.ranges, today))
    ensures a.verdict == ExperienceVerdict(a.months, job.window)
    ensures a.score == FinalScore(SkillScore(job.skills, NormalizeSkills(resume.skills)), a.verdict, a.skills, a.quals)
  {
    var resumeSkills := NormalizeSkills(resume.skills);
    var resumeQuals := NormalizeQualifications(resume.quals);
    var months := WorkHistory.TotalMonths(WorkHistory.WorkPeriods(resume.ranges, today));
    var verdict := ExperienceVerdict(months, job.window);
    var skills := Overlap(job.skills, resumeSkills);
    var quals := Overlap(job.quals, resumeQuals);
    var skill := SkillScore(job.skills, resumeSkills);
    Assessment(skills, quals, months, Duration.FormatMonths(months), verdict,
               FinalScore(skill, verdict, skills, quals))
  }

  /** Without a shared skill the final score is 0, penalty or not. */
  lemma NoSharedSkillScoresZero(job: JobProfile, resume: ResumeProfile, today: WorkHistory.YearMonth)
    requires Assess(job, resume, today).skills == {}
    ensures Assess(job, resume, today).score == 0.0
  {
  }

  /** Job skills {python, sql}, candidate skills {python}, no shared
      qualification: F1 is 2/3 and the penalised score is 0.2. */
  lemma WorkedExample()
    ensures SkillScore(["python", "sql"], ["python"]) == 2.0 / 3.0
    ensures FinalScore(2.0 / 3.0, Matched, {"python"}, {}) == 0.2
  {
    var job := ["python", "sql"];
    var resume := ["python"];
    var m := Overlap(job, resume);
    assert "python" in m;
    assert forall k :: k in m ==> k == "python";
    assert m == {"python"};
    SkillScoreIsDice(job, resume);
  }
}
