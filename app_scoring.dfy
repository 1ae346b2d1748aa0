/**
 * The scoring fragments of the API handlers match_candidates and match_jobs:
 * the lower-cased skill sets, the matched/missing partition, the skill and
 * final scores, the filter and the sort by match percentage, and the
 * skill-only fallback. Embeddings are abstract: the raw cosine similarity of
 * a text with the other side of the match is a function `semantic` of that
 * text, and the NLP skill extraction is a function `extract` of the text.
 * The iteration order of a Python set is a function `order` of the set.
 * Rounding of the reported numbers is not modelled: every field carries the
 * exact value that the source rounds for display.
 */
module AppScoring {
  import opened Wrappers
  import opened Text
  import opened StringOrder
  import opened StableSort
  import opened AliasTable
  import opened NlpProcessor
  import SkillMatcher

  /**
   * found_skills of extract_skills(text) over the lower-cased catalogue
   * `table`. The handlers below take the extraction as a parameter
   * `extract`; the one the service uses is `text => FoundSkills(table, text)`
   * with `table` the lower-cased catalogue.
   */
  function FoundSkills(table: seq<Entry>, text: string): seq<string> {
    ExtractionOf(table, Lower(text)).foundSkills
  }

  /** The set of the lower-cased entries of both lists. */
  function LoweredUnion(a: seq<string>, b: seq<string>): set<string> {
    Elements(LowerAll(a) + LowerAll(b))
  }

  /** The union holds the lower-cased form of every entry of both lists, and nothing else. */
  lemma LoweredUnionSpec(a: seq<string>, b: seq<string>)
    ensures forall s :: s in a || s in b ==> Lower(s) in LoweredUnion(a, b)
    ensures forall x :: x in LoweredUnion(a, b) ==> IsLowered(x) && exists s :: (s in a || s in b) && x == Lower(s)
  {
    var la, lb := LowerAll(a), LowerAll(b);
    var u := la + lb;
    forall s | s in a || s in b ensures Lower(s) in LoweredUnion(a, b) {
      if s in a {
        var i :| 0 <= i < |a| && a[i] == s;
        assert la[i] == Lower(s);
        assert u[i] == la[i];
      } else {
        var i :| 0 <= i < |b| && b[i] == s;
        assert lb[i] == Lower(s);
        assert u[|a| + i] == lb[i];
      }
    }
    forall x | x in LoweredUnion(a, b) ensures IsLowered(x) && exists s :: (s in a || s in b) && x == Lower(s) {
      var i :| 0 <= i < |u| && u[i] == x;
      var s;
      if i < |a| {
        s := a[i];
        assert u[i] == la[i];
      } else {
        s := b[i - |a|];
        assert u[i] == lb[i - |a|];
      }
      assert x == Lower(s);
      LowerIsLowered(s);
    }
  }

  /** A list enumerates a set: each member once, nothing else. */
  predicate Lists(l: seq<string>, s: set<string>) {
    Elements(l) == s && NoDuplicates(l)
  }

  // The matched/missing partition

  /**
   * The entries of s, in order and with repetitions, whose normal form f(x)
   * is (keep) or is not (!keep) in `have`.
   */
  function Selected(s: seq<string>, f: string -> string, have: set<string>, keep: bool): seq<string> {
    if s == [] then []
    else Selected(s[..|s| - 1], f, have, keep) + (if (f(s[|s| - 1]) in have) == keep then [s[|s| - 1]] else [])
  }

  /** The two selections are a partition of s: each entry lands in exactly one of them, with its multiplicity. */
  lemma {:induction false} SelectedPartition(s: seq<string>, f: string -> string, have: set<string>)
    ensures |Selected(s, f, have, true)| + |Selected(s, f, have, false)| == |s|
    ensures multiset(Selected(s, f, have, true)) + multiset(Selected(s, f, have, false)) == multiset(s)
  {
    if s != [] {
      var init, x := s[..|s| - 1], s[|s| - 1];
      SelectedPartition(init, f, have);
      var m, n := Selected(init, f, have, true), Selected(init, f, have, false);
      assert multiset(s) == multiset(init) + multiset{x} by {
        assert s == init + [x];
      }
      if f(x) in have {
        assert Selected(s, f, have, true) == m + [x];
        assert Selected(s, f, have, false) == n;
      } else {
        assert Selected(s, f, have, true) == m;
        assert Selected(s, f, have, false) == n + [x];
      }
    }
  }

  /** An entry is selected exactly when it is in s and its normal form's membership is `keep`. */
  lemma {:induction false} SelectedMembers(s: seq<string>, f: string -> string, have: set<string>, keep: bool)
    ensures forall x :: x in Selected(s, f, have, keep) <==> x in s && (f(x) in have) == keep
  {
    if s != [] {
      var init := s[..|s| - 1];
      SelectedMembers(init, f, have, keep);
      assert s == init + [s[|s| - 1]];
    }
  }

  /** When every entry's normal form is in `have`, all entries are selected, in order, and none is left over. */
  lemma {:induction false} SelectedOfAll(s: seq<string>, f: string -> string, have: set<string>)
    requires forall x :: x in s ==> f(x) in have
    ensures Selected(s, f, have, true) == s && Selected(s, f, have, false) == []
  {
    if s != [] {
      var init, x := s[..|s| - 1], s[|s| - 1];
      assert s == init + [x];
      assert forall y :: y in init ==> f(y) in have by {
        assert forall y :: y in init ==> y in s;
      }
      SelectedOfAll(init, f, have);
      assert f(x) in have;
      assert Selected(s, f, have, true) == init + [x];
      assert Selected(s, f, have, false) == [];
    }
  }

  /**
   * The loop over the job's skills that appends each to matched_skills or
   * missing_skills according to whether its normal form is in `have`.
   */
  method PartitionSkills(s: seq<string>, f: string -> string, have: set<string>)
    returns (matched: seq<string>, missing: seq<string>)
    ensures matched == Selected(s, f, have, true)
    ensures missing == Selected(s, f, have, false)
  {
    matched, missing := [], [];
    var i := 0;
    while i < |s|
      invariant 0 <= i <= |s|
      invariant matched == Selected(s[..i], f, have, true)
      invariant missing == Selected(s[..i], f, have, false)
    {
      assert s[..i + 1][..i] == s[..i];
      if f(s[i]) in have {
        matched := matched + [s[i]];
      } else {
        missing := missing + [s[i]];
      }
      i := i + 1;
    }
    assert s[..i] == s;
  }

  /** The identity, for a comparison without lower-casing. */
  function Same(x: string): string { x }

  /**
   * Over a list that enumerates a set, the two selections enumerate the
   * members in `have` and the rest, and their counts add up to the set's size.
   */
  lemma SelectedOfSet(l: seq<string>, s: set<string>, have: set<string>)
    requires Lists(l, s)
    ensures Lists(Selected(l, Same, have, true), s * have)
    ensures Lists(Selected(l, Same, have, false), s - have)
    ensures |Selected(l, Same, have, true)| + |Selected(l, Same, have, false)| == |s|
  {
    SelectedMembers(l, Same, have, true);
    SelectedMembers(l, Same, have, false);
    SelectedPartition(l, Same, have);
    SelectedNoDuplicates(l, Same, have, true);
    SelectedNoDuplicates(l, Same, have, false);
    NoDuplicatesCard(l);
  }

  lemma {:induction false} SelectedNoDuplicates(s: seq<string>, f: string -> string, have: set<string>, keep: bool)
    requires NoDuplicates(s)
    ensures NoDuplicates(Selected(s, f, have, keep))
  {
    if s != [] {
      var init, x := s[..|s| - 1], s[|s| - 1];
      assert NoDuplicates(init);
      SelectedNoDuplicates(init, f, have, keep);
      SelectedMembers(init, f, have, keep);
      assert x !in init;
    }
  }

  // Scores

  function Min(a: real, b: real): real { if a <= b then a else b }
  function Max(a: real, b: real): real { if a >= b then a else b }

  /** `max(lo, min(hi, x))`. */
  function Clamp(x: real, lo: real, hi: real): real {
    Max(lo, Min(hi, x))
  }

  /** Clamping lands in [lo, hi], leaves a value already there alone, and is idempotent. */
  lemma ClampSpec(x: real, lo: real, hi: real)
    requires lo <= hi
    ensures lo <= Clamp(x, lo, hi) <= hi
    ensures lo <= x <= hi ==> Clamp(x, lo, hi) == x
    ensures x <= lo ==> Clamp(x, lo, hi) == lo
    ensures hi <= x ==> Clamp(x, lo, hi) == hi
    ensures Clamp(Clamp(x, lo, hi), lo, hi) == Clamp(x, lo, hi)
  {
  }

  /** skill_score: the matched share of the required skills, 0.5 when none are required. */
  function SkillScore(matched: nat, required: nat): real {
    if required > 0 then matched as real / required as real else 0.5
  }

  /** The skill score is in [0, 1]: 1 when all are matched, 0 when none are, 0.5 without requirements. */
  lemma SkillScoreBounds(matched: nat, required: nat)
    requires matched <= required
    ensures 0.0 <= SkillScore(matched, required) <= 1.0
    ensures required == 0 ==> SkillScore(matched, required) == 0.5
    ensures 0 < required == matched ==> SkillScore(matched, required) == 1.0
    ensures 0 == matched < required ==> SkillScore(matched, required) == 0.0
  {
    if required > 0 {
      SkillMatcher.RatioBounds(matched, required);
    }
  }

  /**
   * The fallback's match_percentage: 100 times the matched share of the
   * job's skills, 50 when the job has none, clamped to [0, 100].
   */
  function FallbackPercentage(matched: nat, total: nat): real {
    Clamp(if total > 0 then (matched as real / total as real) * 100.0 else 50.0, 0.0, 100.0)
  }

  /** The fallback percentage is the plain share when the counts are consistent; it is 0 only when nothing matched. */
  lemma FallbackPercentageSpec(matched: nat, total: nat)
    requires matched <= total
    ensures 0.0 <= FallbackPercentage(matched, total) <= 100.0
    ensures total == 0 ==> FallbackPercentage(matched, total) == 50.0
    ensures total > 0 ==> FallbackPercentage(matched, total) == (matched as real / total as real) * 100.0
    ensures FallbackPercentage(matched, total) > 0.0 <==> total == 0 || matched > 0
  {
    if total > 0 {
      SkillMatcher.RatioBounds(matched, total);
      if matched > 0 {
        PositiveRatio(matched, total);
      }
    }
  }

  lemma PositiveRatio(a: nat, b: nat)
    requires 0 < a <= b
    ensures a as real / b as real > 0.0
  {
  }

  // match_candidates

  /** A candidate record as fetched from the database. */
  datatype Candidate = Candidate(
    name: string,
    email: string,
    phone: string,
    experience: string,
    skills: seq<string>,
    resumeText: string)

  /** One entry of the `matches` list of match_candidates. */
  datatype CandidateMatch = CandidateMatch(
    candidate: Candidate,
    matchPercentage: real,
    matchedSkills: seq<string>,
    missingSkills: seq<string>,
    semanticScore: real,
    skillScore: real,
    finalScore: real)

  /** The sort key of both candidate lists. */
  function Pct(m: CandidateMatch): real { m.matchPercentage }

  /** The fallback's resume text: the stored text, else "Skills: " and the skills joined by ", " when there are any. */
  function FallbackResumeText(c: Candidate): string {
    if c.resumeText == "" && c.skills != [] then "Skills: " + Join(c.skills, ", ") else c.resumeText
  }

  /** The primary path's resume text: as the fallback's, then the name when that is still empty. */
  function ResumeText(c: Candidate): string {
    var t := FallbackResumeText(c);
    if t == "" then c.name else t
  }

  /** all_candidate_skills: the skills extracted from the text and the stored skills, lower-cased. */
  function CandidateSkills(extract: string -> seq<string>, c: Candidate, text: string): set<string> {
    LoweredUnion(extract(text), c.skills)
  }

  /**
   * One candidate scored against the job's skill list, as the loop body is
   * meant to: the order-preserving matched/missing split by lower-cased
   * membership, the clamped similarity, the skill score and their blend.
   */
  function CandidateRow(extract: string -> seq<string>, jobSkills: seq<string>, c: Candidate,
                        semantic: string -> real): CandidateMatch
  {
    var text := ResumeText(c);
    var have := CandidateSkills(extract, c, text);
    var matched := Selected(jobSkills, Lower, have, true);
    Blend(c, Clamp(semantic(text), 0.0, 1.0), matched, Selected(jobSkills, Lower, have, false),
          SkillScore(|matched|, |jobSkills|))
  }

  /** The row for a candidate with the given split and scores: 0.7 · semantic + 0.3 · skill, and that times 100. */
  function Blend(c: Candidate, sem: real, matched: seq<string>, missing: seq<string>, skill: real): CandidateMatch {
    var final := SkillMatcher.ComputeFinalScore(sem, skill);
    CandidateMatch(c, final * 100.0, matched, missing, sem, skill, final)
  }

  /**
   * A scored row: every required skill lands in exactly one of the two lists,
   * in order with repetitions, matched exactly when its lower-cased form is
   * one of the candidate's skills; the scores lie in [0, 1], the skill score
   * is the matched share of the requirements, and the percentage is the
   * final score times 100.
   */
  lemma CandidateRowSpec(extract: string -> seq<string>, jobSkills: seq<string>, c: Candidate, semantic: string -> real)
    ensures var m := CandidateRow(extract, jobSkills, c, semantic);
            var have := CandidateSkills(extract, c, ResumeText(c));
      && |m.matchedSkills| + |m.missingSkills| == |jobSkills|
      && multiset(m.matchedSkills) + multiset(m.missingSkills) == multiset(jobSkills)
      && (forall x :: x in m.matchedSkills <==> x in jobSkills && Lower(x) in have)
      && (forall x :: x in m.missingSkills <==> x in jobSkills && Lower(x) !in have)
      && 0.0 <= m.semanticScore <= 1.0 && 0.0 <= m.skillScore <= 1.0 && 0.0 <= m.finalScore <= 1.0
      && (jobSkills != [] ==> m.skillScore == |m.matchedSkills| as real / |jobSkills| as real)
      && (jobSkills == [] ==> m.skillScore == 0.5)
      && m.finalScore == 0.7 * m.semanticScore + 0.3 * m.skillScore
      && m.matchPercentage == m.finalScore * 100.0
      && m.candidate == c
  {
    var m := CandidateRow(extract, jobSkills, c, semantic);
    var have := CandidateSkills(extract, c, ResumeText(c));
    SelectedPartition(jobSkills, Lower, have);
    SelectedMembers(jobSkills, Lower, have, true);
    SelectedMembers(jobSkills, Lower, have, false);
    ClampSpec(semantic(ResumeText(c)), 0.0, 1.0);
    SkillScoreBounds(|m.matchedSkills|, |jobSkills|);
    SkillMatcher.FinalScoreBounds(m.semanticScore, m.skillScore);
  }

  /** Without required skills every row scores 0.5 on skills and so between 15 and 85 percent. */
  lemma NoRequirementsRow(extract: string -> seq<string>, c: Candidate, semantic: string -> real)
    ensures var m := CandidateRow(extract, [], c, semantic);
      && m.matchedSkills == [] && m.missingSkills == [] && m.skillScore == 0.5
      && 15.0 <= m.matchPercentage <= 85.0
  {
    ClampSpec(semantic(ResumeText(c)), 0.0, 1.0);
  }

  /** The rows that pass `matchPercentage > 0`, in candidate order. */
  function Scored(extract: string -> seq<string>, jobSkills: seq<string>, cs: seq<Candidate>,
                  semantic: string -> real): seq<CandidateMatch>
  {
    if cs == [] then []
    else
      var m := CandidateRow(extract, jobSkills, cs[|cs| - 1], semantic);
      Scored(extract, jobSkills, cs[..|cs| - 1], semantic) + (if m.matchPercentage > 0.0 then [m] else [])
  }

  /** A row is kept exactly when some candidate's row has a positive percentage. */
  lemma {:induction false} ScoredMembers(extract: string -> seq<string>, jobSkills: seq<string>, cs: seq<Candidate>,
                                         semantic: string -> real)
    ensures forall m :: m in Scored(extract, jobSkills, cs, semantic) <==>
      m.matchPercentage > 0.0 && exists c :: c in cs && m == CandidateRow(extract, jobSkills, c, semantic)
  {
    if cs != [] {
      var init, c := cs[..|cs| - 1], cs[|cs| - 1];
      ScoredMembers(extract, jobSkills, init, semantic);
      assert cs == init + [c];
    }
  }

  /** Without required skills no candidate is dropped: one row per candidate, in order. */
  lemma {:induction false} NoRequirementsKeepsAll(extract: string -> seq<string>, cs: seq<Candidate>, semantic: string -> real)
    ensures var rows := Scored(extract, [], cs, semantic);
      |rows| == |cs| && forall i :: 0 <= i < |cs| ==> rows[i] == CandidateRow(extract, [], cs[i], semantic)
  {
    if cs != [] {
      var init, c := cs[..|cs| - 1], cs[|cs| - 1];
      NoRequirementsKeepsAll(extract, init, semantic);
      NoRequirementsRow(extract, c, semantic);
      var m := CandidateRow(extract, [], c, semantic);
      assert Scored(extract, [], cs, semantic) == Scored(extract, [], init, semantic) + [m];
    }
  }

  /** The error the primary loop raises: `final_score` is read before it is assigned. */
  const UnboundFinalScore := "cannot access local variable 'final_score'"

  /**
   * The primary candidate loop of match_candidates as written: with required
   * skills, the log line after the split reads final_score before its
   * assignment and the first candidate raises.
   */
  method MatchCandidatesPrimary(extract: string -> seq<string>, jobSkills: seq<string>, candidates: seq<Candidate>,
                                semantic: string -> real)
    returns (r: Result<seq<CandidateMatch>, string>)
    ensures jobSkills != [] && candidates != [] ==> r == Err(UnboundFinalScore)
    ensures jobSkills == [] || candidates == [] ==> r == Ok(SortDesc(Scored(extract, jobSkills, candidates, semantic), Pct))
  {
    var rows: seq<CandidateMatch> := [];
    var i := 0;
    while i < |candidates|
      invariant 0 <= i <= |candidates|
      invariant rows == Scored(extract, jobSkills, candidates[..i], semantic)
      invariant jobSkills != [] ==> i == 0
    {
      assert candidates[..i + 1][..i] == candidates[..i];
      var c := candidates[i];
      var text := ResumeText(c);
      var sem := Clamp(semantic(text), 0.0, 1.0);
      var have := CandidateSkills(extract, c, text);
      var matched: seq<string> := [];
      var missing: seq<string> := [];
      var skill: real;
      if jobSkills != [] {
        matched, missing := PartitionSkills(jobSkills, Lower, have);
        skill := |matched| as real / |jobSkills| as real;
        return Err(UnboundFinalScore);
      } else {
        skill := 0.5;
      }
      var m := Blend(c, sem, matched, missing, skill);
      assert m == CandidateRow(extract, jobSkills, c, semantic);
      if m.matchPercentage > 0.0 {
        rows := rows + [m];
      }
      i := i + 1;
    }
    assert candidates[..i] == candidates;
    r := Ok(SortDesc(rows, Pct));
  }

  /** One candidate in the fallback: matched and missing in the set's iteration order, percentage as the score. */
  function FallbackRow(extract: string -> seq<string>, order: set<string> -> seq<string>, allJob: set<string>,
                       c: Candidate): CandidateMatch
  {
    var have := CandidateSkills(extract, c, FallbackResumeText(c));
    var listed := order(allJob);
    var matched := Selected(listed, Same, have, true);
    var missing := Selected(listed, Same, have, false);
    var pct := FallbackPercentage(|matched|, |allJob|);
    CandidateMatch(c, pct, matched, missing, pct / 100.0, pct / 100.0, pct / 100.0)
  }

  /**
   * A fallback row lists the job skills the candidate has and those they
   * lack, each once; the percentage is 100 times the matched share (50 for a
   * job without skills), and it is positive exactly when the job has no
   * skills or the candidate has one of them.
   */
  lemma FallbackRowSpec(extract: string -> seq<string>, order: set<string> -> seq<string>, allJob: set<string>, c: Candidate)
    requires Lists(order(allJob), allJob)
    ensures var m := FallbackRow(extract, order, allJob, c);
            var have := CandidateSkills(extract, c, FallbackResumeText(c));
      && Lists(m.matchedSkills, allJob * have)
      && Lists(m.missingSkills, allJob - have)
      && 0.0 <= m.matchPercentage <= 100.0
      && (allJob != {} ==> m.matchPercentage == (|allJob * have| as real / |allJob| as real) * 100.0)
      && (allJob == {} ==> m.matchPercentage == 50.0)
      && (m.matchPercentage > 0.0 <==> allJob == {} || allJob * have != {})
      && m.semanticScore == m.skillScore == m.finalScore == m.matchPercentage / 100.0
  {
    var m := FallbackRow(extract, order, allJob, c);
    var have := CandidateSkills(extract, c, FallbackResumeText(c));
    SelectedOfSet(order(allJob), allJob, have);
    NoDuplicatesCard(m.matchedSkills);
    SkillMatcher.SubsetCard(allJob * have, allJob);
    FallbackPercentageSpec(|m.matchedSkills|, |allJob|);
  }

  /** The fallback rows that pass `match_percentage > 0`, in candidate order. */
  function FallbackScored(extract: string -> seq<string>, order: set<string> -> seq<string>, allJob: set<string>,
                          cs: seq<Candidate>): seq<CandidateMatch>
  {
    if cs == [] then []
    else
      var m := FallbackRow(extract, order, allJob, cs[|cs| - 1]);
      FallbackScored(extract, order, allJob, cs[..|cs| - 1]) + (if m.matchPercentage > 0.0 then [m] else [])
  }

  /** A fallback row is kept exactly when some candidate's row has a positive percentage. */
  lemma {:induction false} FallbackScoredMembers(extract: string -> seq<string>, order: set<string> -> seq<string>,
                                                 allJob: set<string>, cs: seq<Candidate>)
    ensures forall m :: m in FallbackScored(extract, order, allJob, cs) <==>
      m.matchPercentage > 0.0 && exists c :: c in cs && m == FallbackRow(extract, order, allJob, c)
  {
    if cs != [] {
      var init, c := cs[..|cs| - 1], cs[|cs| - 1];
      FallbackScoredMembers(extract, order, allJob, init);
      assert cs == init + [c];
    }
  }

  /** The fallback candidate loop of match_candidates, then the sort by percentage. */
  method MatchCandidatesFallback(extract: string -> seq<string>, order: set<string> -> seq<string>, allJob: set<string>,
                                 candidates: seq<Candidate>)
    returns (matches: seq<CandidateMatch>)
    ensures matches == SortDesc(FallbackScored(extract, order, allJob, candidates), Pct)
  {
    var rows: seq<CandidateMatch> := [];
    var i := 0;
    while i < |candidates|
      invariant 0 <= i <= |candidates|
      invariant rows == FallbackScored(extract, order, allJob, candidates[..i])
    {
      assert candidates[..i + 1][..i] == candidates[..i];
      var m := FallbackRow(extract, order, allJob, candidates[i]);
      if m.matchPercentage > 0.0 {
        rows := rows + [m];
      }
      i := i + 1;
    }
    assert candidates[..i] == candidates;
    matches := SortDesc(rows, Pct);
  }

  /** How a response was computed: embeddings and skills, or skills alone. */
  datatype Method = Transformer | SkillFallback

  /** The request body of match_candidates. */
  datatype CandidateRequest = CandidateRequest(
    jobDescription: string,
    requiredSkills: seq<string>,
    jobTitle: string,
    company: string)

  /** The message of match_candidates' 400 reply, sent in the HTTP_ERROR envelope. */
  const EmptyDescription := "Job description cannot be empty"

  /** The reply of match_candidates: the refusal of a blank description, or the data of a success response. */
  datatype CandidateResponse =
    | BadCandidateRequest(detail: string)
    | NoCandidates
    | CandidateMatches(
        matches: seq<CandidateMatch>,
        requiredSkills: seq<string>,
        totalMatches: nat,
        totalCandidates: nat,
        jobTitle: string,
        company: string,
        matchingMethod: Method)

  /** The value, or N/A when it is empty. */
  function OrNA(s: string): string { if s == "" then "N/A" else s }

  /** The fallback's all_job_skills: the request's skills and those extracted from the description, lower-cased. */
  function AllJobSkills(extract: string -> seq<string>, request: CandidateRequest): set<string> {
    LoweredUnion(request.requiredSkills, extract(request.jobDescription))
  }

  /**
   * The job skills match_candidates means to score against: the request's
   * list, or, when that is empty, the skills extracted from the description.
   */
  function IntendedJobSkills(extract: string -> seq<string>, request: CandidateRequest): seq<string> {
    if request.requiredSkills != [] then request.requiredSkills else extract(request.jobDescription)
  }

  /**
   * As written, a request without required skills is scored against no
   * skills at all, although its description names some: every row has empty
   * matched and missing lists and the 0.5 default skill score. The intended
   * row splits the extracted skills between the two lists instead.
   */
  lemma UnboundNlpDropsJobSkills(extract: string -> seq<string>, request: CandidateRequest, c: Candidate,
                                 semantic: string -> real)
    requires request.requiredSkills == [] && extract(request.jobDescription) != []
    ensures var written := CandidateRow(extract, request.requiredSkills, c, semantic);
            var intended := CandidateRow(extract, IntendedJobSkills(extract, request), c, semantic);
      && written.matchedSkills == [] && written.missingSkills == [] && written.skillScore == 0.5
      && multiset(intended.matchedSkills) + multiset(intended.missingSkills) == multiset(extract(request.jobDescription))
      && |intended.matchedSkills| + |intended.missingSkills| > 0
      && written != intended
  {
    NoRequirementsRow(extract, c, semantic);
    CandidateRowSpec(extract, IntendedJobSkills(extract, request), c, semantic);
  }

  /**
   * The candidate loop of match_candidates as intended: the job's skills are
   * the request's or else the extracted ones, and the final score is
   * computed before it is reported, so no candidate raises.
   */
  method MatchCandidatesIntended(extract: string -> seq<string>, request: CandidateRequest, candidates: seq<Candidate>,
                                 semantic: string -> real)
    returns (matches: seq<CandidateMatch>)
    ensures matches == SortDesc(Scored(extract, IntendedJobSkills(extract, request), candidates, semantic), Pct)
  {
    var jobSkills := request.requiredSkills;
    if jobSkills == [] {
      jobSkills := extract(request.jobDescription);
    }
    var rows: seq<CandidateMatch> := [];
    var i := 0;
    while i < |candidates|
      invariant 0 <= i <= |candidates|
      invariant rows == Scored(extract, jobSkills, candidates[..i], semantic)
    {
      assert candidates[..i + 1][..i] == candidates[..i];
      var c := candidates[i];
      var text := ResumeText(c);
      var sem := Clamp(semantic(text), 0.0, 1.0);
      var have := CandidateSkills(extract, c, text);
      var matched, missing := PartitionSkills(jobSkills, Lower, have);
      var skill := if jobSkills != [] then |matched| as real / |jobSkills| as real else 0.5;
      var m := Blend(c, sem, matched, missing, skill);
      assert m == CandidateRow(extract, jobSkills, c, semantic);
      if m.matchPercentage > 0.0 {
        rows := rows + [m];
      }
      i := i + 1;
    }
    assert candidates[..i] == candidates;
    matches := SortDesc(rows, Pct);
  }

  /**
   * match_candidates, with `candidates` the records the fetch returns. A
   * description that is empty or all white space is refused before
   * anything else. `semantic` is None when the embedding library fails.
   * The job's skills are the request's: the extraction from the description
   * for an empty list refers to `nlp` before the assignment that makes it a
   * local, raises, and is caught with an empty list.
   */
  method MatchCandidates(extract: string -> seq<string>, request: CandidateRequest, candidates: seq<Candidate>,
                         order: set<string> -> seq<string>, semantic: Option<string -> real>)
    returns (r: CandidateResponse)
    ensures Strip(request.jobDescription) == "" <==> r == BadCandidateRequest(EmptyDescription)
    ensures Strip(request.jobDescription) != "" ==> (candidates == [] <==> r == NoCandidates)
    ensures Strip(request.jobDescription) != "" && candidates != [] ==>
      && r.CandidateMatches?
      && r.totalMatches == |r.matches| && r.totalCandidates == |candidates|
      && r.jobTitle == OrNA(request.jobTitle) && r.company == OrNA(request.company)
      && (r.matchingMethod == SkillFallback <==> semantic.None? || request.requiredSkills != [])
    ensures r.CandidateMatches? && r.matchingMethod == Transformer ==>
      && r.matches == SortDesc(Scored(extract, [], candidates, semantic.value), Pct)
      && r.requiredSkills == []
    ensures r.CandidateMatches? && r.matchingMethod == SkillFallback ==>
      && r.matches == SortDesc(FallbackScored(extract, order, AllJobSkills(extract, request), candidates), Pct)
      && r.requiredSkills == order(AllJobSkills(extract, request))
  {
    if Strip(request.jobDescription) == "" {
      return BadCandidateRequest(EmptyDescription);
    }
    if candidates == [] {
      return NoCandidates;
    }
    var jobSkills := request.requiredSkills;
    if semantic.Some? {
      var primary := MatchCandidatesPrimary(extract, jobSkills, candidates, semantic.value);
      if primary.Ok? {
        var matches := primary.value;
        return CandidateMatches(matches, jobSkills, |matches|, |candidates|,
                                OrNA(request.jobTitle), OrNA(request.company), Transformer);
      }
    }
    var allJob := AllJobSkills(extract, request);
    var matches := MatchCandidatesFallback(extract, order, allJob, candidates);
    r := CandidateMatches(matches, order(allJob), |matches|, |candidates|,
                          OrNA(request.jobTitle), OrNA(request.company), SkillFallback);
  }

  // match_jobs

  /** A job record as fetched from the database. */
  datatype Job = Job(
    id: string,
    title: string,
    company: string,
    description: string,
    requiredSkills: seq<string>,
    salary: string)

  /** One entry of the `matches` list of match_jobs. */
  datatype JobMatch = JobMatch(
    job: Job,
    requiredSkills: seq<string>,
    matchPercentage: real,
    matchedSkills: seq<string>,
    missingSkills: seq<string>,
    semanticScore: real,
    skillScore: real)

  /** The sort key of both job lists. */
  function JobPct(m: JobMatch): real { m.matchPercentage }

  /** The primary path's job text: the description, else the title and the required skills. */
  function JobText(job: Job): string {
    if job.description != "" then job.description else job.title + " " + Join(job.requiredSkills, " ")
  }

  /**
   * all_job_skills: the job's listed skills and the skills extracted from
   * them joined by spaces (from `text` when it lists none), lower-cased.
   */
  function JobSkills(extract: string -> seq<string>, job: Job, text: string): set<string> {
    LoweredUnion(job.requiredSkills, extract(if job.requiredSkills != [] then Join(job.requiredSkills, " ") else text))
  }

  /** all_candidate_skills of match_jobs: the given skills and those extracted from them joined by spaces, lower-cased. */
  function SeekerSkills(extract: string -> seq<string>, skills: seq<string>): set<string> {
    LoweredUnion(skills, extract(Join(skills, " ")))
  }

  /**
   * One job scored for the candidate: the job's skill set split, in the
   * set's iteration order, into those the candidate has and those they
   * lack, the clamped similarity of the job text, and the blend.
   */
  function JobRow(extract: string -> seq<string>, order: set<string> -> seq<string>, have: set<string>,
                  job: Job, semantic: string -> real): JobMatch
  {
    var text := JobText(job);
    var allJob := JobSkills(extract, job, text);
    var matched := Selected(order(allJob), Same, have, true);
    var sem := Clamp(semantic(text), 0.0, 1.0);
    var skill := SkillScore(|matched|, |allJob|);
    JobMatch(job, job.requiredSkills, SkillMatcher.ComputeFinalScore(sem, skill) * 100.0,
             matched, Selected(order(allJob), Same, have, false), sem, skill)
  }

  /**
   * A job row lists each of the job's skills once, as matched when the
   * candidate has it and as missing otherwise; the skill score is the
   * matched share (0.5 for a job without skills) and the percentage is
   * 100 · (0.7 · semantic + 0.3 · skill), in [0, 100].
   */
  lemma JobRowSpec(extract: string -> seq<string>, order: set<string> -> seq<string>, have: set<string>,
                   job: Job, semantic: string -> real)
    requires Lists(order(JobSkills(extract, job, JobText(job))), JobSkills(extract, job, JobText(job)))
    ensures var m := JobRow(extract, order, have, job, semantic);
            var allJob := JobSkills(extract, job, JobText(job));
      && Lists(m.matchedSkills, allJob * have)
      && Lists(m.missingSkills, allJob - have)
      && (allJob != {} ==> m.skillScore == |allJob * have| as real / |allJob| as real)
      && (allJob == {} ==> m.skillScore == 0.5)
      && 0.0 <= m.semanticScore <= 1.0 && 0.0 <= m.skillScore <= 1.0
      && m.matchPercentage == (0.7 * m.semanticScore + 0.3 * m.skillScore) * 100.0
      && 0.0 <= m.matchPercentage <= 100.0
      && m.job == job && m.requiredSkills == job.requiredSkills
  {
    var m := JobRow(extract, order, have, job, semantic);
    var allJob := JobSkills(extract, job, JobText(job));
    SelectedOfSet(order(allJob), allJob, have);
    NoDuplicatesCard(m.matchedSkills);
    SkillMatcher.SubsetCard(allJob * have, allJob);
    ClampSpec(semantic(JobText(job)), 0.0, 1.0);
    SkillScoreBounds(|m.matchedSkills|, |allJob|);
    SkillMatcher.FinalScoreBounds(m.semanticScore, m.skillScore);
  }

  /** Every job's row, in job order: match_jobs keeps them all. */
  function JobRows(extract: string -> seq<string>, order: set<string> -> seq<string>, have: set<string>,
                   jobs: seq<Job>, semantic: string -> real): (r: seq<JobMatch>)
    ensures |r| == |jobs|
  {
    if jobs == [] then []
    else JobRows(extract, order, have, jobs[..|jobs| - 1], semantic) + [JobRow(extract, order, have, jobs[|jobs| - 1], semantic)]
  }

  /** The number of rows whose percentage is at least t. */
  function CountAtLeast(rows: seq<JobMatch>, t: real): nat {
    if rows == [] then 0
    else CountAtLeast(rows[..|rows| - 1], t) + (if rows[|rows| - 1].matchPercentage >= t then 1 else 0)
  }

  lemma {:induction false} CountAtLeastConcat(a: seq<JobMatch>, b: seq<JobMatch>, t: real)
    ensures CountAtLeast(a + b, t) == CountAtLeast(a, t) + CountAtLeast(b, t)
  {
    if b == [] {
      assert a + b == a;
    } else {
      CountAtLeastConcat(a, b[..|b| - 1], t);
      assert (a + b)[..|a + b| - 1] == a + b[..|b| - 1];
    }
  }

  /** The count depends only on the rows, not on their order: sorting does not change totalMatches. */
  lemma {:induction false} CountAtLeastPermutation(a: seq<JobMatch>, b: seq<JobMatch>, t: real)
    requires multiset(a) == multiset(b)
    ensures CountAtLeast(a, t) == CountAtLeast(b, t)
    decreases |a|
  {
    if a == [] {
      assert |multiset(b)| == 0;
    } else {
      var init, x := a[..|a| - 1], a[|a| - 1];
      assert a == init + [x];
      assert x in multiset(b);
      var k :| 0 <= k < |b| && b[k] == x;
      var rest := b[..k] + b[k + 1..];
      assert b == b[..k] + [x] + b[k + 1..];
      assert multiset(b) == multiset(b[..k]) + multiset{x} + multiset(b[k + 1..]);
      assert multiset(a) == multiset(init) + multiset{x};
      assert multiset(rest) == multiset(b[..k]) + multiset(b[k + 1..]);
      MultisetCancel(multiset(init), multiset(rest), x);
      CountAtLeastPermutation(init, rest, t);
      CountAtLeastConcat(b[..k], b[k + 1..], t);
      CountAtLeastConcat(b[..k] + [x], b[k + 1..], t);
      CountAtLeastConcat(b[..k], [x], t);
      assert [x][..0] == [];
    }
  }

  lemma {:induction false} CountAtLeastBound(rows: seq<JobMatch>, t: real)
    ensures CountAtLeast(rows, t) <= |rows|
  {
    if rows != [] {
      CountAtLeastBound(rows[..|rows| - 1], t);
    }
  }

  /** Sorting the rows keeps the number at t or more. */
  lemma SortKeepsCount(rows: seq<JobMatch>, t: real)
    ensures CountAtLeast(SortDesc(rows, JobPct), t) == CountAtLeast(rows, t)
  {
    SortDescSpec(rows, JobPct);
    CountAtLeastPermutation(SortDesc(rows, JobPct), rows, t);
  }

  /**
   * In a list sorted best first, the rows at t or more are exactly its
   * first CountAtLeast(rows, t) entries.
   */
  lemma {:induction false} CountedPrefix(rows: seq<JobMatch>, t: real)
    requires SortedDesc(rows, JobPct)
    ensures forall i :: 0 <= i < |rows| ==> (rows[i].matchPercentage >= t <==> i < CountAtLeast(rows, t))
  {
    if rows != [] {
      var init, x := rows[..|rows| - 1], rows[|rows| - 1];
      assert SortedDesc(init, JobPct) by {
        forall i, j | 0 <= i < j < |init| ensures JobPct(init[i]) >= JobPct(init[j]) {
          assert init[i] == rows[i] && init[j] == rows[j];
        }
      }
      CountedPrefix(init, t);
      CountAtLeastBound(init, t);
      if x.matchPercentage >= t {
        forall i | 0 <= i < |init| ensures init[i].matchPercentage >= t {
          assert JobPct(rows[i]) >= JobPct(rows[|rows| - 1]);
        }
        if |init| > 0 {
          assert init[|init| - 1].matchPercentage >= t;
        }
      }
    }
  }

  lemma MultisetCancel<T>(p: multiset<T>, q: multiset<T>, x: T)
    requires p + multiset{x} == q + multiset{x}
    ensures p == q
  {
    forall y ensures p[y] == q[y] {
      assert (p + multiset{x})[y] == p[y] + multiset{x}[y];
      assert (q + multiset{x})[y] == q[y] + multiset{x}[y];
    }
  }

  /** The primary loop of match_jobs: every job scored, then sorted by percentage, and the jobs at 40 or more counted. */
  method MatchJobsPrimary(extract: string -> seq<string>, order: set<string> -> seq<string>, have: set<string>,
                          jobs: seq<Job>, semantic: string -> real)
    returns (matches: seq<JobMatch>, totalMatches: nat)
    ensures matches == SortDesc(JobRows(extract, order, have, jobs, semantic), JobPct)
    ensures totalMatches == CountAtLeast(matches, 40.0)
  {
    var rows: seq<JobMatch> := [];
    var i := 0;
    while i < |jobs|
      invariant 0 <= i <= |jobs|
      invariant rows == JobRows(extract, order, have, jobs[..i], semantic)
    {
      assert jobs[..i + 1][..i] == jobs[..i];
      var job := jobs[i];
      var text := JobText(job);
      var sem := Clamp(semantic(text), 0.0, 1.0);
      var allJob := JobSkills(extract, job, text);
      var matched: seq<string> := [];
      var missing: seq<string> := [];
      var skill: real;
      if allJob != {} {
        matched, missing := PartitionSkills(order(allJob), Same, have);
        skill := |matched| as real / |allJob| as real;
      } else {
        matched, missing := Selected(order(allJob), Same, have, true), Selected(order(allJob), Same, have, false);
        skill := 0.5;
      }
      var final := 0.7 * sem + 0.3 * skill;
      var m := JobMatch(job, job.requiredSkills, final * 100.0, matched, missing, sem, skill);
      assert m == JobRow(extract, order, have, job, semantic);
      rows := rows + [m];
      i := i + 1;
    }
    assert jobs[..i] == jobs;
    matches := SortDesc(rows, JobPct);
    totalMatches := CountAtLeast(matches, 40.0);
  }

  /** One job in the fallback: its skill set split in iteration order, the fallback percentage as every score. */
  function JobFallbackRow(extract: string -> seq<string>, order: set<string> -> seq<string>, have: set<string>,
                          job: Job): JobMatch
  {
    var allJob := JobSkills(extract, job, job.description);
    var matched := Selected(order(allJob), Same, have, true);
    var pct := FallbackPercentage(|matched|, |allJob|);
    JobMatch(job, order(allJob), pct, matched, Selected(order(allJob), Same, have, false), pct / 100.0, pct / 100.0)
  }

  /**
   * A fallback job row reports the job's skill set, split into the skills
   * the candidate has and those they lack, and 100 times the matched share
   * (50 for a job without skills) as its percentage.
   */
  lemma JobFallbackRowSpec(extract: string -> seq<string>, order: set<string> -> seq<string>, have: set<string>, job: Job)
    requires Lists(order(JobSkills(extract, job, job.description)), JobSkills(extract, job, job.description))
    ensures var m := JobFallbackRow(extract, order, have, job);
            var allJob := JobSkills(extract, job, job.description);
      && Lists(m.requiredSkills, allJob)
      && Lists(m.matchedSkills, allJob * have)
      && Lists(m.missingSkills, allJob - have)
      && (allJob != {} ==> m.matchPercentage == (|allJob * have| as real / |allJob| as real) * 100.0)
      && (allJob == {} ==> m.matchPercentage == 50.0)
      && 0.0 <= m.matchPercentage <= 100.0
      && m.semanticScore == m.skillScore == m.matchPercentage / 100.0
  {
    var m := JobFallbackRow(extract, order, have, job);
    var allJob := JobSkills(extract, job, job.description);
    SelectedOfSet(order(allJob), allJob, have);
    NoDuplicatesCard(m.matchedSkills);
    SkillMatcher.SubsetCard(allJob * have, allJob);
    FallbackPercentageSpec(|m.matchedSkills|, |allJob|);
  }

  function JobFallbackRows(extract: string -> seq<string>, order: set<string> -> seq<string>, have: set<string>,
                           jobs: seq<Job>): (r: seq<JobMatch>)
    ensures |r| == |jobs|
  {
    if jobs == [] then []
    else JobFallbackRows(extract, order, have, jobs[..|jobs| - 1]) + [JobFallbackRow(extract, order, have, jobs[|jobs| - 1])]
  }

  /** The fallback loop of match_jobs, then the sort and the count of jobs at 40 or more. */
  method MatchJobsFallback(extract: string -> seq<string>, order: set<string> -> seq<string>, have: set<string>,
                           jobs: seq<Job>)
    returns (matches: seq<JobMatch>, totalMatches: nat)
    ensures matches == SortDesc(JobFallbackRows(extract, order, have, jobs), JobPct)
    ensures totalMatches == CountAtLeast(matches, 40.0)
  {
    var rows: seq<JobMatch> := [];
    var i := 0;
    while i < |jobs|
      invariant 0 <= i <= |jobs|
      invariant rows == JobFallbackRows(extract, order, have, jobs[..i])
    {
      assert jobs[..i + 1][..i] == jobs[..i];
      rows := rows + [JobFallbackRow(extract, order, have, jobs[i])];
      i := i + 1;
    }
    assert jobs[..i] == jobs;
    matches := SortDesc(rows, JobPct);
    totalMatches := CountAtLeast(matches, 40.0);
  }

  /** The request body of match_jobs. */
  datatype JobRequest = JobRequest(candidateSkills: seq<string>, resume: string)

  /** The message of match_jobs' 400 reply, sent in the HTTP_ERROR envelope. */
  const EmptySkills := "Candidate skills cannot be empty"

  /** The reply of match_jobs: the refusal of an empty skill list, or the data of a success response. */
  datatype JobResponse =
    | BadJobRequest(detail: string)
    | NoJobs
    | JobMatches(
        matches: seq<JobMatch>,
        jobSkills: seq<string>,
        totalMatches: nat,
        totalJobs: nat,
        matchingMethod: Method)

  /**
   * match_jobs, with `jobs` the records the fetch returns. An empty skill
   * list is refused before anything else. `semantic` is None when the
   * embedding library fails, which sends the request to the fallback.
   * Every job is reported, best first, and totalMatches counts those at 40
   * percent or more.
   */
  method MatchJobs(extract: string -> seq<string>, request: JobRequest, jobs: seq<Job>,
                   order: set<string> -> seq<string>, semantic: Option<string -> real>)
    returns (r: JobResponse)
    ensures request.candidateSkills == [] <==> r == BadJobRequest(EmptySkills)
    ensures request.candidateSkills != [] ==> (jobs == [] <==> r == NoJobs)
    ensures request.candidateSkills != [] && jobs != [] ==>
      && r.JobMatches?
      && |r.matches| == |jobs| && r.totalJobs == |jobs|
      && r.totalMatches == CountAtLeast(r.matches, 40.0) && r.totalMatches <= |jobs|
      && (r.matchingMethod == Transformer <==> semantic.Some?)
    ensures r.JobMatches? && r.matchingMethod == Transformer ==>
      && r.matches == SortDesc(JobRows(extract, order, SeekerSkills(extract, request.candidateSkills), jobs, semantic.value), JobPct)
      && r.jobSkills == request.candidateSkills
    ensures r.JobMatches? && r.matchingMethod == SkillFallback ==>
      && r.matches == SortDesc(JobFallbackRows(extract, order, SeekerSkills(extract, request.candidateSkills), jobs), JobPct)
      && r.jobSkills == order(SeekerSkills(extract, request.candidateSkills))
  {
    if request.candidateSkills == [] {
      return BadJobRequest(EmptySkills);
    }
    if jobs == [] {
      return NoJobs;
    }
    var have := SeekerSkills(extract, request.candidateSkills);
    var matches: seq<JobMatch>;
    var total: nat;
    if semantic.Some? {
      matches, total := MatchJobsPrimary(extract, order, have, jobs, semantic.value);
      SortDescLength(JobRows(extract, order, have, jobs, semantic.value), JobPct);
      r := JobMatches(matches, request.candidateSkills, total, |jobs|, Transformer);
    } else {
      matches, total := MatchJobsFallback(extract, order, have, jobs);
      SortDescLength(JobFallbackRows(extract, order, have, jobs), JobPct);
      r := JobMatches(matches, order(have), total, |jobs|, SkillFallback);
    }
    CountAtLeastBound(matches, 40.0);
  }
}
