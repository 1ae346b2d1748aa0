/**
 * SkillMatcher and CandidateScorer: compare a resume's extracted skills with
 * a job's, blend the skill ratio with a semantic similarity, and rank the
 * scored candidates. The semantic similarity (a cosine of two embeddings
 * computed by a library) is an abstract function of the two embeddings.
 */
module SkillMatcher {
  import opened Wrappers
  import opened Text
  import opened StringOrder
  import opened StableSort
  import opened NlpProcessor

  /** SEMANTIC_WEIGHT and SKILL_WEIGHT of the configuration. */
  const SemanticWeight: real := 0.7
  const SkillWeight: real := 0.3

  /** The dict compute_skill_match_score returns. */
  datatype SkillMatch = SkillMatch(
    score: real,
    matchedSkills: seq<string>,
    missingSkills: seq<string>,
    additionalSkills: seq<string>,
    matchedCount: nat,
    requiredCount: nat,
    matchPercentage: real)

  /** The entries of s whose membership in other is `keep`, in order. */
  function Keep(s: seq<string>, other: set<string>, keep: bool): (r: seq<string>)
    ensures forall x :: x in r <==> x in s && (x in other) == keep
  {
    if s == [] then []
    else Keep(s[..|s| - 1], other, keep) + (if (s[|s| - 1] in other) == keep then [s[|s| - 1]] else [])
  }

  /** `sorted(list(st))` for a set given as the entries of a list. */
  function SortedSet(s: seq<string>): (r: seq<string>)
    ensures StrictlySorted(r) && Elements(r) == Elements(s)
  {
    SortUnique(s)
  }

  /** compute_skill_match_score over the found_skills lists of the two extractions. */
  function ComputeSkillMatchScore(resumeSkills: Extraction, jobSkills: Extraction): SkillMatch {
    var resumeSet := Elements(resumeSkills.foundSkills);
    var jobSet := Elements(jobSkills.foundSkills);
    var matched := resumeSet * jobSet;
    var score := if |jobSet| == 0 then 1.0 else |matched| as real / |jobSet| as real;
    SkillMatch(
      score,
      SortedSet(Keep(jobSkills.foundSkills, resumeSet, true)),
      SortedSet(Keep(jobSkills.foundSkills, resumeSet, false)),
      SortedSet(Keep(resumeSkills.foundSkills, jobSet, false)),
      |matched|,
      |jobSet|,
      score * 100.0)
  }

  /** The entries kept by Keep, as a set. */
  lemma KeepElements(s: seq<string>, other: set<string>, keep: bool)
    ensures Elements(Keep(s, other, keep)) == if keep then Elements(s) * other else Elements(s) - other
  {
  }

  /** A subset is no larger than its superset. */
  lemma {:induction false} SubsetCard<T>(a: set<T>, b: set<T>)
    requires a <= b
    ensures |a| <= |b|
    decreases a
  {
    if a != {} {
      var x :| x in a;
      SubsetCard(a - {x}, b - {x});
    }
  }

  /** A sorted duplicate-free list is as long as its set of entries. */
  lemma SortedCard(s: seq<string>)
    requires StrictlySorted(s)
    ensures |Elements(s)| == |s|
  {
    StrictlySortedNoDuplicates(s);
    NoDuplicatesCard(s);
  }

  /**
   * matched = resume ∩ job, missing = job − resume, additional = resume − job,
   * each sorted ascending without duplicates.
   */
  lemma SkillMatchSets(resumeSkills: Extraction, jobSkills: Extraction)
    ensures var m := ComputeSkillMatchScore(resumeSkills, jobSkills);
            var resumeSet, jobSet := Elements(resumeSkills.foundSkills), Elements(jobSkills.foundSkills);
      && Elements(m.matchedSkills) == resumeSet * jobSet
      && Elements(m.missingSkills) == jobSet - resumeSet
      && Elements(m.additionalSkills) == resumeSet - jobSet
      && StrictlySorted(m.matchedSkills) && StrictlySorted(m.missingSkills) && StrictlySorted(m.additionalSkills)
  {
    var resumeSet, jobSet := Elements(resumeSkills.foundSkills), Elements(jobSkills.foundSkills);
    KeepElements(jobSkills.foundSkills, resumeSet, true);
    KeepElements(jobSkills.foundSkills, resumeSet, false);
    KeepElements(resumeSkills.foundSkills, jobSet, false);
  }

  /** matched and missing split the job's skills: together they are all of it, and they share nothing. */
  lemma SkillMatchPartition(resumeSkills: Extraction, jobSkills: Extraction)
    ensures var m := ComputeSkillMatchScore(resumeSkills, jobSkills);
      && Elements(m.matchedSkills) + Elements(m.missingSkills) == Elements(jobSkills.foundSkills)
      && Elements(m.matchedSkills) * Elements(m.missingSkills) == {}
      && |m.matchedSkills| + |m.missingSkills| == m.requiredCount
  {
    var m := ComputeSkillMatchScore(resumeSkills, jobSkills);
    SkillMatchSets(resumeSkills, jobSkills);
    var resumeSet, jobSet := Elements(resumeSkills.foundSkills), Elements(jobSkills.foundSkills);
    var matched, missing := Elements(m.matchedSkills), Elements(m.missingSkills);
    assert matched + missing == jobSet;
    assert matched * missing == {};
    SortedCard(m.matchedSkills);
    SortedCard(m.missingSkills);
    assert |matched + missing| == |matched| + |missing|;
  }

  /**
   * matched_count is the length of matched_skills, required_count the number
   * of distinct job skills, and the first never exceeds the second.
   */
  lemma SkillMatchCounts(resumeSkills: Extraction, jobSkills: Extraction)
    ensures var m := ComputeSkillMatchScore(resumeSkills, jobSkills);
      && m.matchedCount == |m.matchedSkills|
      && m.requiredCount == |Elements(jobSkills.foundSkills)|
      && m.matchedCount <= m.requiredCount
  {
    var m := ComputeSkillMatchScore(resumeSkills, jobSkills);
    SkillMatchSets(resumeSkills, jobSkills);
    SortedCard(m.matchedSkills);
    var resumeSet, jobSet := Elements(resumeSkills.foundSkills), Elements(jobSkills.foundSkills);
    SubsetCard(resumeSet * jobSet, jobSet);
  }

  /**
   * The score is matched/required for a job with skills and exactly 1.0 for
   * one without; it lies in [0, 1], and an empty resume against a job with
   * skills scores 0.
   */
  lemma SkillMatchScoreBounds(resumeSkills: Extraction, jobSkills: Extraction)
    ensures var m := ComputeSkillMatchScore(resumeSkills, jobSkills);
      && (m.requiredCount == 0 ==> m.score == 1.0)
      && (m.requiredCount > 0 ==> m.score == m.matchedCount as real / m.requiredCount as real)
      && 0.0 <= m.score <= 1.0
      && (resumeSkills.foundSkills == [] && m.requiredCount > 0 ==> m.score == 0.0)
      && m.matchPercentage == m.score * 100.0
  {
    var m := ComputeSkillMatchScore(resumeSkills, jobSkills);
    if m.requiredCount > 0 {
      assert m.matchedCount <= m.requiredCount by {
        SkillMatchCounts(resumeSkills, jobSkills);
      }
      RatioBounds(m.matchedCount, m.requiredCount);
      if resumeSkills.foundSkills == [] {
        assert m.matchedCount == 0 by {
          assert Elements(resumeSkills.foundSkills) == {};
        }
      }
    }
  }

  /** A count over a larger positive count is a ratio in [0, 1]. */
  lemma RatioBounds(a: nat, b: nat)
    requires a <= b && b > 0
    ensures 0.0 <= a as real / b as real <= 1.0
  {
    var x, y := a as real, b as real;
    assert x / y * y == x;
  }

  /** An Extraction whose found skills are the given list. */
  function Found(skills: seq<string>): Extraction {
    Extraction(skills, [], |skills|, skills)
  }

  /**
   * A resume holding all of a job's four distinct skills but one, d, and
   * nothing else: score 0.75, d missing, nothing additional.
   */
  lemma AllButOneOfFour(resume: seq<string>, job: seq<string>, d: string)
    requires Elements(resume) <= Elements(job) && Elements(job) - Elements(resume) == {d}
    requires |Elements(resume)| == 3 && |Elements(job)| == 4
    ensures var m := ComputeSkillMatchScore(Found(resume), Found(job));
      && m.score == 0.75 && m.missingSkills == [d] && m.additionalSkills == []
      && m.matchedCount == 3 && m.requiredCount == 4
  {
    AllButOneScore(resume, job);
    AllButOneLists(resume, job, d);
  }

  lemma AllButOneScore(resume: seq<string>, job: seq<string>)
    requires Elements(resume) <= Elements(job)
    requires |Elements(resume)| == 3 && |Elements(job)| == 4
    ensures var m := ComputeSkillMatchScore(Found(resume), Found(job));
      m.score == 0.75 && m.matchedCount == 3 && m.requiredCount == 4
  {
    var m := ComputeSkillMatchScore(Found(resume), Found(job));
    SkillMatchCounts(Found(resume), Found(job));
    assert Elements(resume) * Elements(job) == Elements(resume);
    ThreeQuarters(m.matchedCount, m.requiredCount);
  }

  lemma AllButOneLists(resume: seq<string>, job: seq<string>, d: string)
    requires Elements(resume) <= Elements(job) && Elements(job) - Elements(resume) == {d}
    ensures var m := ComputeSkillMatchScore(Found(resume), Found(job));
      m.missingSkills == [d] && m.additionalSkills == []
  {
    var m := ComputeSkillMatchScore(Found(resume), Found(job));
    assert StrictlySorted(m.missingSkills) && Elements(m.missingSkills) == {d}
        && Elements(m.additionalSkills) == {} by {
      SkillMatchSets(Found(resume), Found(job));
      assert Elements(resume) - Elements(job) == {};
    }
    SortedSingleton(m.missingSkills, d);
    NoElements(m.additionalSkills);
  }

  /** A sorted list whose only entry is d is [d]. */
  lemma SortedSingleton(s: seq<string>, d: string)
    requires StrictlySorted(s) && Elements(s) == {d}
    ensures s == [d]
  {
    SortedCard(s);
    assert s[0] in Elements(s);
  }

  lemma NoElements(s: seq<string>)
    requires Elements(s) == {}
    ensures s == []
  {
    HeadElement(s);
  }

  lemma HeadElement(s: seq<string>)
    ensures s != [] ==> s[0] in Elements(s)
  {
  }

  lemma ThreeQuarters(a: nat, b: nat)
    requires a == 3 && b == 4
    ensures a as real / b as real == 0.75
  {
  }

  /** Resume {python, react, postgresql} against job {python, react, postgresql, docker}. */
  lemma ThreeOfFourExample()
    ensures var m := ComputeSkillMatchScore(Found(["postgresql", "python", "react"]),
                                            Found(["docker", "postgresql", "python", "react"]));
      && m.score == 0.75 && m.missingSkills == ["docker"] && m.additionalSkills == []
  {
    var d, p, q, r := "docker", "postgresql", "python", "react";
    assert d != p && d != q && d != r && p != q && p != r && q != r by {
      assert d[0] != p[0] && d[0] != q[0] && d[0] != r[0];
      assert p[1] != q[1] && p[0] != r[0] && q[0] != r[0];
    }
    OneMissingOfFour(d, p, q, r);
    AllButOneOfFour([p, q, r], [d, p, q, r], d);
  }

  /** Four distinct skills, the last three of them on the resume. */
  lemma OneMissingOfFour(d: string, p: string, q: string, r: string)
    requires d != p && d != q && d != r && p != q && p != r && q != r
    ensures Elements([p, q, r]) <= Elements([d, p, q, r])
    ensures Elements([d, p, q, r]) - Elements([p, q, r]) == {d}
    ensures |Elements([p, q, r])| == 3 && |Elements([d, p, q, r])| == 4
  {
    assert Elements([p, q, r]) == {p, q, r};
    assert Elements([d, p, q, r]) == {d, p, q, r};
  }

  /** compute_final_score: SEMANTIC_WEIGHT · semantic + SKILL_WEIGHT · skill. */
  function ComputeFinalScore(semanticSimilarity: real, skillMatchScore: real): real {
    SemanticWeight * semanticSimilarity + SkillWeight * skillMatchScore
  }

  /**
   * The weights sum to 1, so the final score lies between its two inputs,
   * hence in [0, 1] when both are, and it grows with each of them.
   */
  lemma FinalScoreBounds(semanticSimilarity: real, skillMatchScore: real)
    ensures SemanticWeight + SkillWeight == 1.0
    ensures var f := ComputeFinalScore(semanticSimilarity, skillMatchScore);
      && (semanticSimilarity <= skillMatchScore ==> semanticSimilarity <= f <= skillMatchScore)
      && (skillMatchScore <= semanticSimilarity ==> skillMatchScore <= f <= semanticSimilarity)
      && (0.0 <= semanticSimilarity <= 1.0 && 0.0 <= skillMatchScore <= 1.0 ==> 0.0 <= f <= 1.0)
  {
  }

  lemma FinalScoreMonotone(s1: real, k1: real, s2: real, k2: real)
    requires s1 <= s2 && k1 <= k2
    ensures ComputeFinalScore(s1, k1) <= ComputeFinalScore(s2, k2)
  {
  }

  /** Semantic 0.88 with skill 0.75 gives 0.841. */
  lemma FinalScoreExample()
    ensures ComputeFinalScore(0.88, 0.75) == 0.841
  {
  }

  /** An embedding: a vector the similarity function compares. */
  type Embedding = seq<real>

  /** The processed resume or job: its extracted skills and its embedding. */
  datatype Processed = Processed(skills: Extraction, embedding: Embedding)

  /** The fields of score_candidate's report other than the rank. */
  datatype CandidateScore = CandidateScore(
    candidateName: string,
    semanticSimilarity: real,
    skillMatch: SkillMatch,
    finalScore: real,
    finalScorePercentage: real,
    resumeSkills: Extraction,
    jobRequiredSkills: Extraction)

  /** What score_candidate reports for one resume against one job, given the similarity function. */
  function CandidateScoreOf(resume: Processed, job: Processed, name: string,
                            similarity: (Embedding, Embedding) -> real): (r: CandidateScore)
  {
    var semantic := similarity(resume.embedding, job.embedding);
    var skillMatch := ComputeSkillMatchScore(resume.skills, job.skills);
    var final := ComputeFinalScore(semantic, skillMatch.score);
    CandidateScore(name, semantic, skillMatch, final, final * 100.0, resume.skills, job.skills)
  }

  /** A report is consistent: its final score blends its two parts, and its skill match comes from its skills. */
  predicate Consistent(c: CandidateScore) {
    c.finalScore == ComputeFinalScore(c.semanticSimilarity, c.skillMatch.score)
    && c.skillMatch == ComputeSkillMatchScore(c.resumeSkills, c.jobRequiredSkills)
    && c.finalScorePercentage == c.finalScore * 100.0
  }

  /** Every report score_candidate makes is consistent, and its final score is in [0, 1] when the similarity is. */
  lemma CandidateScoreConsistent(resume: Processed, job: Processed, name: string,
                                 similarity: (Embedding, Embedding) -> real)
    ensures var c := CandidateScoreOf(resume, job, name, similarity);
      && Consistent(c) && c.candidateName == name
      && (0.0 <= c.semanticSimilarity <= 1.0 ==> 0.0 <= c.finalScore <= 1.0)
  {
    var c := CandidateScoreOf(resume, job, name, similarity);
    SkillMatchScoreBounds(resume.skills, job.skills);
    FinalScoreBounds(c.semanticSimilarity, c.skillMatch.score);
  }

  /** A scored candidate: a report dict whose `rank` key is rewritten in place by rank_candidates. */
  class ScoreRecord {
    const score: CandidateScore
    var rank: Option<nat>

    constructor (score: CandidateScore)
      ensures this.score == score && rank == None
    {
      this.score := score;
      rank := None;
    }
  }

  /** score_candidate: a fresh report, not yet ranked. */
  method ScoreCandidate(resume: Processed, job: Processed, name: string,
                        similarity: (Embedding, Embedding) -> real) returns (r: ScoreRecord)
    ensures fresh(r) && r.rank == None
    ensures r.score == CandidateScoreOf(resume, job, name, similarity)
  {
    r := new ScoreRecord(CandidateScoreOf(resume, job, name, similarity));
  }

  /** The sort key of rank_candidates: final_score, negated for an ascending sort. */
  function RankKey(reverse: bool): ScoreRecord -> real {
    if reverse then (c: ScoreRecord) => c.score.finalScore else (c: ScoreRecord) => -c.score.finalScore
  }

  /** The same key on the report values. */
  function ScoreKey(reverse: bool): CandidateScore -> real {
    if reverse then (c: CandidateScore) => c.finalScore else (c: CandidateScore) => -c.finalScore
  }

  /** The position of the last occurrence of x in s. */
  function LastIndexOf<T(==)>(s: seq<T>, x: T): (r: nat)
    requires x in s
    ensures r < |s| && s[r] == x && forall j :: r < j < |s| ==> s[j] != x
  {
    if s[|s| - 1] == x then |s| - 1 else LastIndexOf(s[..|s| - 1], x)
  }

  /** Growing the prefix by position i moves the last occurrence of s[i] there and no other. */
  lemma LastIndexOfExtend<T>(s: seq<T>, i: int, k: int)
    requires 0 <= k <= i < |s|
    ensures s[k] in s[..i + 1]
    ensures s[k] != s[i] ==> s[k] in s[..i]
    ensures LastIndexOf(s[..i + 1], s[k]) == if s[k] == s[i] then i else LastIndexOf(s[..i], s[k])
  {
    assert s[..i + 1][k] == s[k];
    assert s[..i + 1][..i] == s[..i];
    if s[k] != s[i] {
      assert s[..i][k] == s[k];
    }
  }

  predicate Distinct<T(==)>(s: seq<T>) {
    forall i, j :: 0 <= i < j < |s| ==> s[i] != s[j]
  }

  /** In a list without repeats, each entry's last occurrence is its only one. */
  lemma LastIndexOfDistinct<T>(s: seq<T>, i: int)
    requires Distinct(s) && 0 <= i < |s|
    ensures LastIndexOf(s, s[i]) == i
  {
  }

  /** A list without repeats counts each entry once. */
  lemma DistinctCount<T>(s: seq<T>)
    requires Distinct(s)
    ensures forall x :: multiset(s)[x] <= 1
  {
    if s != [] {
      var init := s[..|s| - 1];
      assert Distinct(init);
      DistinctCount(init);
      assert s == init + [s[|s| - 1]];
      assert s[|s| - 1] !in init;
    }
  }

  /** A list that counts each entry at most once has no repeats. */
  lemma CountDistinct<T>(s: seq<T>)
    requires forall x :: multiset(s)[x] <= 1
    ensures Distinct(s)
  {
    forall i, j | 0 <= i < j < |s| ensures s[i] != s[j] {
      assert s == s[..j] + s[j..];
      assert s[i] in s[..j] && s[j] in s[j..];
      assert multiset(s)[s[j]] == multiset(s[..j])[s[j]] + multiset(s[j..])[s[j]];
    }
  }

  /**
   * The loop of rank_candidates: each record in turn gets its position
   * 1..N as its rank. A record listed twice keeps the rank of its later position.
   */
  method AssignRanks(sorted: seq<ScoreRecord>)
    modifies set c | c in sorted
    ensures forall i :: 0 <= i < |sorted| ==> sorted[i].rank == Some(LastIndexOf(sorted, sorted[i]) + 1)
  {
    var i := 0;
    while i < |sorted|
      invariant 0 <= i <= |sorted|
      invariant RankedUpTo(sorted, i)
    {
      SetRank(sorted, i);
      i := i + 1;
    }
    assert sorted[..i] == sorted;
  }

  /** The first n records carry their ranks: each the last position among them at which it appears, plus one. */
  predicate RankedUpTo(sorted: seq<ScoreRecord>, n: nat)
    requires n <= |sorted|
    reads set c | c in sorted
  {
    forall k :: 0 <= k < n ==> sorted[k].rank == Some(LastIndexOf(sorted[..n], sorted[k]) + 1)
  }

  /** One step of that loop: the record at position i takes rank i + 1. */
  method SetRank(sorted: seq<ScoreRecord>, i: nat)
    requires i < |sorted|
    requires RankedUpTo(sorted, i)
    modifies sorted[i]
    ensures RankedUpTo(sorted, i + 1)
  {
    label before:
    sorted[i].rank := Some(i + 1);
    forall k | 0 <= k < i + 1
      ensures sorted[k].rank == Some(LastIndexOf(sorted[..i + 1], sorted[k]) + 1)
    {
      LastIndexOfExtend(sorted, i, k);
      if sorted[k] != sorted[i] {
        assert sorted[k].rank == old@before(sorted[k].rank);
      }
    }
  }

  /**
   * rank_candidates: a stable sort by final_score (descending when reverse),
   * then the ranks 1..N written into the sorted records; when the records are
   * distinct, each one's rank is its position.
   */
  method RankCandidates(candidates: seq<ScoreRecord>, reverse: bool) returns (sorted: seq<ScoreRecord>)
    modifies set c | c in candidates
    ensures sorted == SortDesc(candidates, RankKey(reverse))
    ensures forall i :: 0 <= i < |sorted| ==> sorted[i].rank == Some(LastIndexOf(sorted, sorted[i]) + 1)
    ensures Distinct(candidates) ==> forall i :: 0 <= i < |sorted| ==> sorted[i].rank == Some(i + 1)
  {
    sorted := SortDesc(candidates, RankKey(reverse));
    SortDescMembers(candidates, RankKey(reverse));
    AssignRanks(sorted);
    if Distinct(candidates) {
      SortDistinct(candidates, RankKey(reverse));
    }
  }

  /** Sorting a list without repeats gives a list without repeats, where each entry's last position is its position. */
  lemma SortDistinct<T>(s: seq<T>, key: T -> real)
    requires Distinct(s)
    ensures Distinct(SortDesc(s, key))
    ensures forall k :: 0 <= k < |SortDesc(s, key)| ==> LastIndexOf(SortDesc(s, key), SortDesc(s, key)[k]) == k
  {
    var sorted := SortDesc(s, key);
    DistinctCount(s);
    SortDescSpec(s, key);
    CountDistinct(sorted);
    forall k | 0 <= k < |sorted| ensures LastIndexOf(sorted, sorted[k]) == k {
      LastIndexOfDistinct(sorted, k);
    }
  }

  /** The report values of a list of records, in order. */
  function Scores(rs: seq<ScoreRecord>): seq<CandidateScore> {
    MapSeq(rs, (c: ScoreRecord) => c.score)
  }

  /** Ranking orders the reports by their final scores alone, stably. */
  lemma RankedScores(candidates: seq<ScoreRecord>, reverse: bool)
    ensures Scores(SortDesc(candidates, RankKey(reverse))) == SortDesc(Scores(candidates), ScoreKey(reverse))
  {
    SortDescMap(candidates, (c: ScoreRecord) => c.score, RankKey(reverse), ScoreKey(reverse));
  }

  /** score_batch's default names: Candidate_1 .. Candidate_n. */
  function DefaultNames(n: nat): (r: seq<string>)
    ensures |r| == n && forall i :: 0 <= i < n ==> r[i] == "Candidate_" + NatToString(i + 1)
  {
    seq(n, i requires 0 <= i < n => "Candidate_" + NatToString(i + 1))
  }

  /** Default names are pairwise different. */
  lemma DefaultNamesDistinct(n: nat)
    ensures Distinct(DefaultNames(n))
  {
    var names := DefaultNames(n);
    forall i, j | 0 <= i < j < n ensures names[i] != names[j] {
      NatToStringValue(i + 1);
      NatToStringValue(j + 1);
      assert names[i][10..] == NatToString(i + 1);
      assert names[j][10..] == NatToString(j + 1);
    }
  }

  function Min(a: nat, b: nat): nat { if a <= b then a else b }

  /** The reports score_batch makes, in input order: zip stops at the shorter list. */
  function BatchScores(resumes: seq<Processed>, job: Processed, names: seq<string>,
                       similarity: (Embedding, Embedding) -> real): (r: seq<CandidateScore>)
    ensures |r| == Min(|resumes|, |names|)
  {
    seq(Min(|resumes|, |names|), i requires 0 <= i < Min(|resumes|, |names|) =>
      CandidateScoreOf(resumes[i], job, names[i], similarity))
  }

  /** The names score_batch uses: the given ones, or Candidate_1 .. Candidate_N. */
  function BatchNames(resumeCount: nat, candidateNames: Option<seq<string>>): seq<string> {
    match candidateNames
    case Some(names) => names
    case None => DefaultNames(resumeCount)
  }

  /** The loop of score_batch: score_candidate on each resume and name zip yields, appended in turn. */
  method ScoreAll(resumes: seq<Processed>, job: Processed, names: seq<string>,
                  similarity: (Embedding, Embedding) -> real) returns (scores: seq<ScoreRecord>)
    ensures Scores(scores) == BatchScores(resumes, job, names, similarity)
    ensures Distinct(scores)
    ensures forall c :: c in scores ==> fresh(c) && c.rank == None
  {
    ghost var all := BatchScores(resumes, job, names, similarity);
    scores := [];
    var i := 0;
    while i < |resumes| && i < |names|
      invariant 0 <= i <= |all| && |scores| == i
      invariant Reports(scores, all)
      invariant Distinct(scores)
      invariant forall c :: c in scores ==> fresh(c)
      invariant forall c :: c in scores ==> c.rank == None
    {
      var score := ScoreCandidateAt(resumes, job, names, similarity, all, i);
      DistinctSnoc(scores, score);
      ScoresSnoc(scores, score, all);
      scores := scores + [score];
      i := i + 1;
    }
    ScoresAll(scores, all);
  }

  /** Records whose reports are, one by one, the entries of a list of reports. */
  lemma ScoresAll(rs: seq<ScoreRecord>, all: seq<CandidateScore>)
    requires Reports(rs, all) && |rs| == |all|
    ensures Scores(rs) == all
  {
  }

  /** One turn of that loop: a fresh, unranked report for the pair at position i. */
  method ScoreCandidateAt(resumes: seq<Processed>, job: Processed, names: seq<string>,
                          similarity: (Embedding, Embedding) -> real, ghost all: seq<CandidateScore>, i: nat)
      returns (r: ScoreRecord)
    requires all == BatchScores(resumes, job, names, similarity) && i < |all|
    ensures fresh(r) && r.rank == None && r.score == all[i]
  {
    r := ScoreCandidate(resumes[i], job, names[i], similarity);
  }

  /** The records carry, one by one, the first reports of a list. */
  predicate Reports(rs: seq<ScoreRecord>, all: seq<CandidateScore>) {
    |rs| <= |all| && forall k :: 0 <= k < |rs| ==> rs[k].score == all[k]
  }

  /** Appending the record of the next report keeps the records matching the reports one by one. */
  lemma ScoresSnoc(rs: seq<ScoreRecord>, r: ScoreRecord, all: seq<CandidateScore>)
    requires Reports(rs, all) && |rs| < |all| && r.score == all[|rs|]
    ensures Reports(rs + [r], all)
  {
  }

  lemma DistinctSnoc<T>(s: seq<T>, x: T)
    requires Distinct(s) && x !in s
    ensures Distinct(s + [x])
  {
  }

  /**
   * score_batch: scores the pairs of resumes and names in turn, then ranks
   * them, highest final score first.
   */
  method ScoreBatch(resumes: seq<Processed>, job: Processed, candidateNames: Option<seq<string>>,
                    similarity: (Embedding, Embedding) -> real) returns (ranked: seq<ScoreRecord>)
    ensures Scores(ranked) == SortDesc(BatchScores(resumes, job, BatchNames(|resumes|, candidateNames), similarity), ScoreKey(true))
    ensures forall i :: 0 <= i < |ranked| ==> fresh(ranked[i]) && ranked[i].rank == Some(i + 1)
  {
    var names := if candidateNames.None? then DefaultNames(|resumes|) else candidateNames.value;
    var scores := ScoreAll(resumes, job, names, similarity);
    ranked := RankCandidates(scores, true);
    RankedScores(scores, true);
    SortDescMembers(scores, RankKey(true));
  }
}
