/**
 * The explore page's data helpers: how ready the signed-in candidate is for
 * a job, whether they have a skill, which jobs list a skill, which jobs pass
 * the search and experience filters, and the per-skill demand table built
 * from the jobs on display.
 */
module Explore {
  import opened Wrappers
  import opened Text
  import opened StableSort
  import opened StringOrder

  /** A job on display, with the fields these helpers read. */
  datatype ExploreJob = ExploreJob(
    title: string,
    company: string,
    description: string,
    experience: string,
    requiredSkills: seq<string>,
    optionalSkills: seq<string>)

  /** `s.filter(p)`: the elements satisfying p, in order. */
  function Filter<T>(s: seq<T>, p: T -> bool): (r: seq<T>)
    ensures |r| <= |s|
  {
    if s == [] then []
    else Filter(s[..|s| - 1], p) + (if p(s[|s| - 1]) then [s[|s| - 1]] else [])
  }

  /** The filter keeps exactly the elements satisfying p, and keeps them all when all do. */
  lemma FilterSpec<T>(s: seq<T>, p: T -> bool)
    ensures forall x :: x in Filter(s, p) <==> x in s && p(x)
    ensures (forall i :: 0 <= i < |s| ==> p(s[i])) ==> Filter(s, p) == s
    ensures |Filter(s, p)| == |s| <==> forall i :: 0 <= i < |s| ==> p(s[i])
    ensures |Filter(s, p)| == 0 <==> forall i :: 0 <= i < |s| ==> !p(s[i])
  {
    FilterMembers(s, p);
    if forall i :: 0 <= i < |s| ==> p(s[i]) {
      FilterAll(s, p);
    }
    FilterFull(s, p);
    FilterNone(s, p);
  }

  lemma {:induction false} FilterMembers<T>(s: seq<T>, p: T -> bool)
    ensures forall x :: x in Filter(s, p) <==> x in s && p(x)
  {
    if s != [] {
      var n := |s| - 1;
      FilterMembers(s[..n], p);
      assert s == s[..n] + [s[n]];
    }
  }

  lemma {:induction false} FilterAll<T>(s: seq<T>, p: T -> bool)
    requires forall i :: 0 <= i < |s| ==> p(s[i])
    ensures Filter(s, p) == s
  {
    if s != [] {
      var n := |s| - 1;
      FilterAll(s[..n], p);
      assert s == s[..n] + [s[n]];
    }
  }

  lemma {:induction false} FilterFull<T>(s: seq<T>, p: T -> bool)
    ensures |Filter(s, p)| == |s| <==> forall i :: 0 <= i < |s| ==> p(s[i])
  {
    if s != [] {
      var n := |s| - 1;
      FilterFull(s[..n], p);
      assert forall i :: 0 <= i < n ==> s[..n][i] == s[i];
    }
  }

  lemma {:induction false} FilterNone<T>(s: seq<T>, p: T -> bool)
    ensures |Filter(s, p)| == 0 <==> forall i :: 0 <= i < |s| ==> !p(s[i])
  {
    if s != [] {
      var n := |s| - 1;
      FilterNone(s[..n], p);
      assert forall i :: 0 <= i < n ==> s[..n][i] == s[i];
    }
  }

  // Readiness and skills of the signed-in candidate

  /**
   * The helpers answer only for a signed-in candidate with skills; `role` is
   * the session's role, None when no one is signed in.
   */
  predicate Eligible(role: Option<string>, candidateSkills: seq<string>) {
    role == Some("candidate") && |candidateSkills| > 0
  }

  /** Some skill of the candidate equals the given one, ignoring case. */
  predicate Known(candidateSkills: seq<string>, skill: string) {
    exists c :: c in candidateSkills && Lower(c) == Lower(skill)
  }

  /** A JavaScript number: a real, or NaN. */
  datatype Number = Num(value: real) | NaN

  /** The required skills the candidate has, in order, duplicates kept. */
  function MatchedRequired(job: ExploreJob, candidateSkills: seq<string>): seq<string> {
    Filter(job.requiredSkills, (s: string) => Known(candidateSkills, s))
  }

  /** calculateReadiness: the percentage of the job's required skills the candidate has. */
  function CalculateReadiness(role: Option<string>, candidateSkills: seq<string>, job: ExploreJob): Number {
    if !Eligible(role, candidateSkills) then Num(0.0)
    else
      var matched := |MatchedRequired(job, candidateSkills)|;
      var required := |job.requiredSkills|;
      if required == 0 then NaN
      else Num((matched as real / required as real) * 100.0)
  }

  /**
   * Readiness is 0 for anyone but a candidate with skills, NaN for a job
   * without required skills, and otherwise a percentage that is 100 exactly
   * when every required skill is known and 0 exactly when none is.
   */
  lemma ReadinessSpec(role: Option<string>, candidateSkills: seq<string>, job: ExploreJob)
    ensures var r := CalculateReadiness(role, candidateSkills, job);
            var req := job.requiredSkills;
      && (!Eligible(role, candidateSkills) ==> r == Num(0.0))
      && (Eligible(role, candidateSkills) && req == [] ==> r == NaN)
      && (Eligible(role, candidateSkills) && req != [] ==>
            && r.Num? && 0.0 <= r.value <= 100.0
            && (r.value == 100.0 <==> forall i :: 0 <= i < |req| ==> Known(candidateSkills, req[i]))
            && (r.value == 0.0 <==> forall i :: 0 <= i < |req| ==> !Known(candidateSkills, req[i])))
  {
    FilterSpec(job.requiredSkills, (s: string) => Known(candidateSkills, s));
    if job.requiredSkills != [] {
      Percent(|MatchedRequired(job, candidateSkills)|, |job.requiredSkills|);
    }
  }

  /** A share of a positive whole, as a percentage: between 0 and 100, reaching each bound only there. */
  lemma Percent(part: nat, whole: nat)
    requires 0 < whole && part <= whole
    ensures var p := (part as real / whole as real) * 100.0;
      && 0.0 <= p <= 100.0 && (p == 100.0 <==> part == whole) && (p == 0.0 <==> part == 0)
  {
  }

  /** hasSkill: a case-insensitive lookup among the candidate's skills, false for anyone else. */
  function HasSkill(role: Option<string>, candidateSkills: seq<string>, skillName: string): bool {
    if !Eligible(role, candidateSkills) then false
    else Known(candidateSkills, skillName)
  }

  /**
   * For a candidate with skills, readiness counts exactly the required
   * skills hasSkill reports; hasSkill ignores the case of the name asked.
   */
  lemma HasSkillSpec(role: Option<string>, candidateSkills: seq<string>, job: ExploreJob, skillName: string)
    ensures HasSkill(role, candidateSkills, skillName) == HasSkill(role, candidateSkills, Lower(skillName))
    ensures Eligible(role, candidateSkills) ==>
      forall s :: s in MatchedRequired(job, candidateSkills) <==>
        s in job.requiredSkills && HasSkill(role, candidateSkills, s)
  {
    LowerIdempotent(skillName);
    FilterSpec(job.requiredSkills, (s: string) => Known(candidateSkills, s));
  }

  // Jobs for a skill, and the search filters

  /** getJobsForSkill: the jobs listing the name, case-sensitively, as required or optional. */
  function JobsForSkill(jobs: seq<ExploreJob>, skillName: string): seq<ExploreJob> {
    Filter(jobs, (j: ExploreJob) => skillName in j.requiredSkills || skillName in j.optionalSkills)
  }

  lemma JobsForSkillSpec(jobs: seq<ExploreJob>, skillName: string)
    ensures forall j :: j in JobsForSkill(jobs, skillName) <==>
      j in jobs && (skillName in j.requiredSkills || skillName in j.optionalSkills)
  {
    FilterSpec(jobs, (j: ExploreJob) => skillName in j.requiredSkills || skillName in j.optionalSkills);
  }

  /** The filteredJobs predicate: the search term in title, company or description, and the experience level. */
  predicate MatchesFilter(job: ExploreJob, searchTerm: string, filterExperience: string) {
    var term := Lower(searchTerm);
    && (Contains(Lower(job.title), term) || Contains(Lower(job.company), term)
        || Contains(Lower(job.description), term))
    && (filterExperience == "all" || Lower(job.experience) == Lower(filterExperience))
  }

  function FilteredJobs(jobs: seq<ExploreJob>, searchTerm: string, filterExperience: string): seq<ExploreJob> {
    Filter(jobs, (j: ExploreJob) => MatchesFilter(j, searchTerm, filterExperience))
  }

  /**
   * The filtered list holds exactly the jobs passing the filter; with an
   * empty search and 'all' levels it is the whole list.
   */
  lemma FilteredJobsSpec(jobs: seq<ExploreJob>, searchTerm: string, filterExperience: string)
    ensures forall j :: j in FilteredJobs(jobs, searchTerm, filterExperience) <==>
      j in jobs && MatchesFilter(j, searchTerm, filterExperience)
    ensures FilteredJobs(jobs, "", "all") == jobs
  {
    FilterSpec(jobs, (j: ExploreJob) => MatchesFilter(j, searchTerm, filterExperience));
    forall i | 0 <= i < |jobs| ensures MatchesFilter(jobs[i], "", "all") {
      EmptyContained(Lower(jobs[i].title));
    }
    FilterSpec(jobs, (j: ExploreJob) => MatchesFilter(j, "", "all"));
  }

  // The skill demand table

  datatype Importance = Core | Optional

  /** One row of the skills view. */
  datatype SkillStat = SkillStat(
    name: string,
    requiredIn: nat,
    optionalIn: nat,
    totalJobs: nat,
    importance: Importance)

  /** `set.add(x)` for each x in order, on a set kept as its insertion-ordered list. */
  function AddEach(added: seq<string>, xs: seq<string>): seq<string> {
    if xs == [] then added
    else
      var s := AddEach(added, xs[..|xs| - 1]);
      if xs[|xs| - 1] in s then s else s + [xs[|xs| - 1]]
  }

  /**
   * Adding keeps a duplicate-free list duplicate-free, keeps what was there
   * in front, and holds exactly the old and the added elements.
   */
  lemma {:induction false} AddEachSpec(added: seq<string>, xs: seq<string>)
    requires NoDuplicates(added)
    ensures NoDuplicates(AddEach(added, xs))
    ensures |added| <= |AddEach(added, xs)| && AddEach(added, xs)[..|added|] == added
    ensures forall x :: x in AddEach(added, xs) <==> x in added || x in xs
  {
    if xs != [] {
      var n := |xs| - 1;
      AddEachSpec(added, xs[..n]);
      assert xs == xs[..n] + [xs[n]];
      var s := AddEach(added, xs[..n]);
      if xs[n] !in s {
        assert (s + [xs[n]])[..|added|] == s[..|added|];
      }
    }
  }

  /** The skills of all jobs, each once, in the order the loops first add them. */
  function Collected(jobs: seq<ExploreJob>): seq<string> {
    if jobs == [] then []
    else
      var job := jobs[|jobs| - 1];
      AddEach(AddEach(Collected(jobs[..|jobs| - 1]), job.requiredSkills), job.optionalSkills)
  }

  /** Some job lists the skill, as required or optional. */
  predicate Listed(jobs: seq<ExploreJob>, skill: string) {
    exists i :: 0 <= i < |jobs| && (skill in jobs[i].requiredSkills || skill in jobs[i].optionalSkills)
  }

  /** Every listed skill is collected once, and nothing else is. */
  lemma {:induction false} CollectedSpec(jobs: seq<ExploreJob>)
    ensures NoDuplicates(Collected(jobs))
    ensures forall s :: s in Collected(jobs) <==> Listed(jobs, s)
  {
    if jobs != [] {
      var n := |jobs| - 1;
      var job := jobs[n];
      CollectedSpec(jobs[..n]);
      var before := Collected(jobs[..n]);
      AddEachSpec(before, job.requiredSkills);
      AddEachSpec(AddEach(before, job.requiredSkills), job.optionalSkills);
      forall s ensures Listed(jobs, s) <==> Listed(jobs[..n], s) || s in job.requiredSkills || s in job.optionalSkills {
        if Listed(jobs, s) {
          var i :| 0 <= i < |jobs| && (s in jobs[i].requiredSkills || s in jobs[i].optionalSkills);
          if i < n {
            assert jobs[..n][i] == jobs[i];
          }
        }
        if Listed(jobs[..n], s) {
          var i :| 0 <= i < n && (s in jobs[..n][i].requiredSkills || s in jobs[..n][i].optionalSkills);
          assert jobs[..n][i] == jobs[i];
        }
      }
    }
  }

  /** The loops of the skill aggregation that fill the set. */
  method CollectSkills(jobs: seq<ExploreJob>) returns (allSkills: seq<string>)
    ensures allSkills == Collected(jobs)
  {
    allSkills := [];
    var j := 0;
    while j < |jobs|
      invariant 0 <= j <= |jobs|
      invariant allSkills == Collected(jobs[..j])
    {
      var job := jobs[j];
      allSkills := AddAll(allSkills, job.requiredSkills);
      allSkills := AddAll(allSkills, job.optionalSkills);
      assert jobs[..j + 1][..j] == jobs[..j];
      j := j + 1;
    }
    assert jobs[..j] == jobs;
  }

  /** Each skill of a list added to the set, in order. */
  method AddAll(added: seq<string>, skills: seq<string>) returns (r: seq<string>)
    ensures r == AddEach(added, skills)
  {
    r := added;
    var k := 0;
    while k < |skills|
      invariant 0 <= k <= |skills|
      invariant r == AddEach(added, skills[..k])
    {
      if skills[k] !in r {
        r := r + [skills[k]];
      }
      assert skills[..k + 1][..k] == skills[..k];
      k := k + 1;
    }
    assert skills[..k] == skills;
  }

  /** A skill's row: in how many jobs it is required, optional, and in all. */
  function StatOf(jobs: seq<ExploreJob>, skill: string): (r: SkillStat)
    ensures r.name == skill && r.totalJobs == r.requiredIn + r.optionalIn
    ensures r.importance == Core <==> r.requiredIn > r.optionalIn
  {
    var requiredCount := |Filter(jobs, (j: ExploreJob) => skill in j.requiredSkills)|;
    var optionalCount := |Filter(jobs, (j: ExploreJob) => skill in j.optionalSkills)|;
    var totalCount := requiredCount + optionalCount;
    SkillStat(skill, requiredCount, optionalCount, totalCount,
              if requiredCount as real > totalCount as real * 0.5 then Core else Optional)
  }

  /** A listed skill occurs in at least one job. */
  lemma ListedCounted(jobs: seq<ExploreJob>, skill: string)
    requires Listed(jobs, skill)
    ensures StatOf(jobs, skill).totalJobs >= 1
  {
    var i :| 0 <= i < |jobs| && (skill in jobs[i].requiredSkills || skill in jobs[i].optionalSkills);
    FilterSpec(jobs, (j: ExploreJob) => skill in j.requiredSkills);
    FilterSpec(jobs, (j: ExploreJob) => skill in j.optionalSkills);
    if skill in jobs[i].requiredSkills {
      assert jobs[i] in Filter(jobs, (j: ExploreJob) => skill in j.requiredSkills);
    } else {
      assert jobs[i] in Filter(jobs, (j: ExploreJob) => skill in j.optionalSkills);
    }
  }

  function TotalKey(s: SkillStat): real { s.totalJobs as real }

  /** The skills view: every collected skill's row, most demanded first. */
  function SkillTable(jobs: seq<ExploreJob>): seq<SkillStat> {
    SortDesc(MapSeq(Collected(jobs), (s: string) => StatOf(jobs, s)), TotalKey)
  }

  /** The skill aggregation: collect the skills, then map them to rows and sort by demand. */
  method AggregateSkills(jobs: seq<ExploreJob>) returns (skills: seq<SkillStat>)
    ensures skills == SkillTable(jobs)
  {
    var allSkills := CollectSkills(jobs);
    skills := SortDesc(MapSeq(allSkills, (s: string) => StatOf(jobs, s)), TotalKey);
  }

  /**
   * The table has one row per skill some job lists and no other, each row
   * with that skill's counts, and the rows go from most to least demanded.
   */
  lemma SkillTableSpec(jobs: seq<ExploreJob>)
    ensures var t := SkillTable(jobs);
      && SortedDesc(t, TotalKey)
      && |t| == |Collected(jobs)|
      && (forall i :: 0 <= i < |t| ==> t[i] == StatOf(jobs, t[i].name) && Listed(jobs, t[i].name))
      && (forall s :: Listed(jobs, s) ==> StatOf(jobs, s) in t)
  {
    var m := MapSeq(Collected(jobs), (s: string) => StatOf(jobs, s));
    SortDescSpec(m, TotalKey);
    SortDescLength(m, TotalKey);
    SkillTableRows(jobs);
    SkillTableCovers(jobs);
  }

  lemma SkillTableRows(jobs: seq<ExploreJob>)
    ensures var t := SkillTable(jobs);
      forall i :: 0 <= i < |t| ==> t[i] == StatOf(jobs, t[i].name) && Listed(jobs, t[i].name)
  {
    var m := MapSeq(Collected(jobs), (s: string) => StatOf(jobs, s));
    CollectedSpec(jobs);
    SortDescMembers(m, TotalKey);
    var t := SkillTable(jobs);
    forall i | 0 <= i < |t| ensures t[i] == StatOf(jobs, t[i].name) && Listed(jobs, t[i].name) {
      assert t[i] in m;
      var k :| 0 <= k < |m| && m[k] == t[i];
      assert Collected(jobs)[k] in Collected(jobs);
    }
  }

  lemma SkillTableCovers(jobs: seq<ExploreJob>)
    ensures forall s :: Listed(jobs, s) ==> StatOf(jobs, s) in SkillTable(jobs)
  {
    var m := MapSeq(Collected(jobs), (s: string) => StatOf(jobs, s));
    CollectedSpec(jobs);
    SortDescMembers(m, TotalKey);
    forall s | Listed(jobs, s) ensures StatOf(jobs, s) in SkillTable(jobs) {
      var k :| 0 <= k < |Collected(jobs)| && Collected(jobs)[k] == s;
      assert m[k] == StatOf(jobs, s);
    }
  }

  /** filteredSkills: the rows whose name holds the search term, ignoring case. */
  function FilteredSkills(skills: seq<SkillStat>, searchTerm: string): seq<SkillStat> {
    Filter(skills, (s: SkillStat) => Contains(Lower(s.name), Lower(searchTerm)))
  }

  lemma FilteredSkillsSpec(skills: seq<SkillStat>, searchTerm: string)
    ensures forall s :: s in FilteredSkills(skills, searchTerm) <==>
      s in skills && Contains(Lower(s.name), Lower(searchTerm))
  {
    FilterSpec(skills, (s: SkillStat) => Contains(Lower(s.name), Lower(searchTerm)));
  }
}
