/**
 * The application route of the Node backend: the score an application gets
 * from the job's required skills and the candidate's skills and
 * experience, and the replies of the POST handler that files an
 * application. The database is given as maps from ids to stored records.
 */
module ApplicationsRoute {
  import opened Wrappers
  import opened Text

  /** A stored job, with the fields the route reads; an absent field is None. */
  datatype Job = Job(requiredSkills: Option<seq<string>>, minExperienceYears: Option<real>)

  /** A stored candidate, with the fields the route reads. */
  datatype Candidate = Candidate(skills: Option<seq<string>>, experienceYears: Option<real>, resumeText: Option<string>)

  /** The required entries found in `have`, duplicates counted. */
  function MatchCount(required: seq<string>, have: seq<string>): nat {
    if required == [] then 0
    else MatchCount(required[..|required| - 1], have) + (if required[|required| - 1] in have then 1 else 0)
  }

  /**
   * The count is at most the number of required entries; it is that number
   * exactly when every entry is found, and 0 exactly when none is.
   */
  lemma {:induction false} MatchCountBounds(required: seq<string>, have: seq<string>)
    ensures MatchCount(required, have) <= |required|
    ensures MatchCount(required, have) == |required| <==> forall i :: 0 <= i < |required| ==> required[i] in have
    ensures MatchCount(required, have) == 0 <==> forall i :: 0 <= i < |required| ==> required[i] !in have
  {
    if required != [] {
      var n := |required| - 1;
      MatchCountBounds(required[..n], have);
      assert forall i :: 0 <= i < n ==> required[..n][i] == required[i];
    }
  }

  /** Counts add up over a concatenation of requirement lists. */
  lemma {:induction false} MatchCountConcat(a: seq<string>, b: seq<string>, have: seq<string>)
    ensures MatchCount(a + b, have) == MatchCount(a, have) + MatchCount(b, have)
  {
    if b == [] {
      assert a + b == a;
    } else {
      var n := |b| - 1;
      assert (a + b)[..|a| + n] == a + b[..n];
      MatchCountConcat(a, b[..n], have);
    }
  }

  /** The experience bonus: 1 when the candidate's years reach the job's minimum. */
  function ExperienceBonus(job: Job, candidate: Candidate): nat {
    if candidate.experienceYears.UnwrapOr(0.0) >= job.minExperienceYears.UnwrapOr(0.0) then 1 else 0
  }

  /** The score computeScore returns. */
  function Score(job: Job, candidate: Candidate): nat {
    MatchCount(LowerAll(job.requiredSkills.UnwrapOr([])), LowerAll(candidate.skills.UnwrapOr([])))
      + ExperienceBonus(job, candidate)
  }

  /**
   * The score is at most one more than the number of required skills; it
   * reaches that bound exactly when every required skill is among the
   * candidate's, ignoring case, and the experience is sufficient.
   */
  lemma ScoreBounds(job: Job, candidate: Candidate)
    ensures var required := LowerAll(job.requiredSkills.UnwrapOr([]));
            var have := LowerAll(candidate.skills.UnwrapOr([]));
      && Score(job, candidate) <= |job.requiredSkills.UnwrapOr([])| + 1
      && (Score(job, candidate) == |job.requiredSkills.UnwrapOr([])| + 1 <==>
            (forall i :: 0 <= i < |required| ==> required[i] in have)
            && candidate.experienceYears.UnwrapOr(0.0) >= job.minExperienceYears.UnwrapOr(0.0))
  {
    MatchCountBounds(LowerAll(job.requiredSkills.UnwrapOr([])), LowerAll(candidate.skills.UnwrapOr([])));
  }

  /** A skill the job lists twice counts twice for a candidate who has it once. */
  lemma DuplicatesCounted(skill: string, candidate: Candidate)
    requires candidate.skills == Some([skill])
    ensures Score(Job(Some([skill, skill]), None), candidate) == 2 + ExperienceBonus(Job(Some([skill, skill]), None), candidate)
  {
    var l := Lower(skill);
    assert LowerAll([skill, skill]) == [l, l];
    assert LowerAll([skill]) == [l];
    assert [l, l][..1] == [l] && [l][..0] == [];
    assert MatchCount([l, l], [l]) == MatchCount([l], [l]) + 1 == MatchCount([], [l]) + 2;
  }

  /** computeScore: count the required skills the candidate has, then add the experience bonus. */
  method ComputeScore(job: Job, candidate: Candidate) returns (score: nat)
    ensures score == Score(job, candidate)
  {
    var reqSkills := LowerAll(job.requiredSkills.UnwrapOr([]));
    var candSkills := LowerAll(candidate.skills.UnwrapOr([]));
    var skillMatches := 0;
    var i := 0;
    while i < |reqSkills|
      invariant 0 <= i <= |reqSkills|
      invariant skillMatches == MatchCount(reqSkills[..i], candSkills)
    {
      if reqSkills[i] in candSkills {
        skillMatches := skillMatches + 1;
      }
      assert reqSkills[..i + 1][..i] == reqSkills[..i];
      i := i + 1;
    }
    assert reqSkills[..i] == reqSkills;
    var expBonus := if candidate.experienceYears.UnwrapOr(0.0) >= job.minExperienceYears.UnwrapOr(0.0) then 1 else 0;
    return skillMatches + expBonus;
  }

  // POST /api/applications

  /** The request body; an absent field is None. */
  datatype ApplyBody = ApplyBody(
    jobId: Option<string>,
    candidateId: Option<string>,
    coverLetter: Option<string>,
    resumeText: Option<string>)

  datatype Application = Application(
    job: string,
    candidate: string,
    coverLetter: Option<string>,
    resumeSnapshot: string,
    score: nat)

  /** The handler's reply: 201 with the saved application, or a status and an error message. */
  datatype Reply = Created(application: Application) | Failed(status: nat, error: string)

  /** The first of two optional strings that is present and non-empty, else the empty string. */
  function FirstTruthy(a: Option<string>, b: Option<string>): string {
    if Truthy(a) then a.value else if Truthy(b) then b.value else ""
  }

  /**
   * The POST handler: both ids are required, the job and the candidate must
   * exist, and the new application carries the computed score and a resume
   * snapshot taken from the request, or else from the candidate.
   */
  method Apply(body: ApplyBody, jobs: map<string, Job>, candidates: map<string, Candidate>)
    returns (reply: Reply)
    ensures !Truthy(body.jobId) || !Truthy(body.candidateId) ==> reply == Failed(400, "jobId and candidateId required")
    ensures Truthy(body.jobId) && Truthy(body.candidateId) ==>
      if body.jobId.value !in jobs then reply == Failed(404, "Job not found")
      else if body.candidateId.value !in candidates then reply == Failed(404, "Candidate not found")
      else
        var job, candidate := jobs[body.jobId.value], candidates[body.candidateId.value];
        reply == Created(Application(
          body.jobId.value, body.candidateId.value, body.coverLetter,
          FirstTruthy(body.resumeText, candidate.resumeText), Score(job, candidate)))
    ensures reply.Created? ==>
      reply.application.score <= |jobs[body.jobId.value].requiredSkills.UnwrapOr([])| + 1
  {
    if !Truthy(body.jobId) || !Truthy(body.candidateId) {
      return Failed(400, "jobId and candidateId required");
    }
    var jobId, candidateId := body.jobId.value, body.candidateId.value;
    if jobId !in jobs {
      return Failed(404, "Job not found");
    }
    if candidateId !in candidates {
      return Failed(404, "Candidate not found");
    }
    var job, candidate := jobs[jobId], candidates[candidateId];
    var score := ComputeScore(job, candidate);
    ScoreBounds(job, candidate);
    var snapshot := FirstTruthy(body.resumeText, candidate.resumeText);
    return Created(Application(jobId, candidateId, body.coverLetter, snapshot, score));
  }
}
