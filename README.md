# Resume screening and skill matching, modelled in Dafny

This project models the scoring core of a resume-screening service and the small
data helpers around it:

- **The skill-matching engine** (`backend_py/skill_matcher.py`) compares a resume's skills with a job's.
  It gives the matched, missing and additional skills and a match ratio.
  It blends the ratio with a semantic similarity, weighted 0.7 semantic and 0.3 skill.
  It stable-sorts candidates by final score and writes ranks 1..N into the score records in place.
  `ScoreRecord` is a class whose `rank` field the ranking loop updates.
- **The skill catalogue** (`backend_py/skills_database.py`) is modelled as the literal tables.
  A Python dict literal is an ordered association list (`AliasTable`).
  In it, a repeated key keeps its first position and takes its last value.
  The lower-cased copy is built by a loop.
- **The alias scanner** (`NLPProcessor.extract_skills`) searches lower-cased text for each alias with a word boundary on both sides.
  For each skill it records the first alias that hits.
- **The scoring loops of the API** (`backend_py/app.py`): `match_candidates` and `match_jobs`.
  Each has a transformer path and a skill-only fallback.
  The model follows the effective control flow of the code as written (see Findings):
  - requesting candidates with required skills always ends in the fallback, because the first scored candidate raises;
  - the extraction of job skills from the description always fails, because `nlp` is read before it is assigned later in the same function. The caught error leaves the job with no skills, so the transformer path scores every candidate with the 0.5 default skill score.

  Both defects have a corrected counterpart with its property proved: `CandidateRow` is the row as meant, and `MatchCandidatesIntended` is the candidate loop with both corrections.
  Each handler first refuses a request it cannot serve with a 400 reply: an empty or all-white-space job description, or an empty skill list.
- **The helpers**:
  - the report and envelope builders and the file-name checks of `backend_py/utils.py`;
  - resume text cleaning and the PDF/DOCX dispatch and accumulation loops of `backend_py/resume_parser.py`;
  - the application score and the keyword shortlist of the Node routes;
  - the browser account store of `frontend/src/utils/auth.js`, a class over the users slot and the session slot;
  - the readiness, filter and skill-aggregation helpers of the Explore page;
  - the skill-field cleaner of the Profile page.

Python's `sorted`/`str.split`/`str.strip`/`str.join` and JavaScript's `filter`/`includes`/`indexOf` are spelled out in `Text`, `StringOrder` and `StableSort`.
Both languages sort stably, and `StableSort.SortDesc` is a stable descending insertion sort with that property proved.

Embedding similarity is a parameter `semantic` (a function of the text).
Skill extraction inside the API loops is a parameter `extract`.
The iteration order of a Python set is a parameter `order`.
`semantic` is None where the embedding library fails.

## Model

| member | source | states |
|---|---|---|
| SkillMatcher.Keep | backend_py/skill_matcher.py:38-40 | the kept entries are exactly the entries of the list whose membership in the other set is the one asked for |
| SkillMatcher.SortedSet | backend_py/skill_matcher.py:51-53 | `sorted(list(...))` of a set is strictly ascending and holds exactly that set |
| SkillMatcher.KeepElements | backend_py/skill_matcher.py:38-40 | keeping members gives the intersection and keeping non-members the difference, as sets |
| SkillMatcher.SkillMatchSets | backend_py/skill_matcher.py:34-53 | matched = resume ∩ job, missing = job − resume, additional = resume − job, each returned sorted ascending without duplicates |
| SkillMatcher.SkillMatchPartition | backend_py/skill_matcher.py:38-39 | matched and missing together are the job's skills, share none, and their lengths add up to required_count |
| SkillMatcher.SkillMatchCounts | backend_py/skill_matcher.py:54-55 | matched_count is the length of matched_skills, required_count the number of distinct job skills, and matched_count ≤ required_count |
| SkillMatcher.SkillMatchScoreBounds | backend_py/skill_matcher.py:43-47 | the score is exactly 1.0 when the job has no skills and matched/required otherwise; it lies in [0, 1]; an empty resume against a job with skills scores 0; match_percentage is score·100 |
| SkillMatcher.AllButOneOfFour | backend_py/skill_matcher.py:34-56 | a resume with three of a job's four skills and nothing else scores 0.75, misses exactly the fourth and has no additional skills |
| SkillMatcher.ThreeOfFourExample | backend_py/skill_matcher.py:34-56 | resume {python, react, postgresql} against job {python, react, postgresql, docker}: score 0.75, missing [docker], nothing additional |
| SkillMatcher.FinalScoreBounds | backend_py/skill_matcher.py:99-104 | the weights 0.7 and 0.3 sum to 1, so the final score lies between its two inputs and in [0, 1] when both are |
| SkillMatcher.FinalScoreMonotone | backend_py/skill_matcher.py:99-104 | the final score does not decrease when either input grows |
| SkillMatcher.FinalScoreExample | backend_py/skill_matcher.py:99-104 | semantic 0.88 with skill 0.75 gives 0.841 |
| SkillMatcher.CandidateScoreConsistent | backend_py/skill_matcher.py:154-181 | every report score_candidate builds carries the given name, a final score that blends its own semantic and skill scores, the skill match of its own skill lists, a percentage of 100·final, and a final score in [0, 1] when the similarity is |
| SkillMatcher.ScoreRecord.constructor | backend_py/skill_matcher.py:172-181 | a new report holds the given fields and rank None |
| SkillMatcher.ScoreCandidate | backend_py/skill_matcher.py:138-181 | score_candidate returns a fresh report with rank None whose fields are those of the consistent report above |
| SkillMatcher.LastIndexOf | backend_py/skill_matcher.py:128-129 | the position returned holds the value and no later position does |
| SkillMatcher.AssignRanks | backend_py/skill_matcher.py:128-129 | after the loop each record's rank is its last position in the list plus one (a record listed twice keeps the later rank) |
| SkillMatcher.SetRank | backend_py/skill_matcher.py:129 | one assignment extends the ranked prefix by one record, without disturbing the ranks already written |
| SkillMatcher.RankCandidates | backend_py/skill_matcher.py:121-131 | the result is the stable descending sort by final_score (ascending when reverse is false) and, when the records are distinct, each record's rank is its position 1..N |
| SkillMatcher.SortDistinct | backend_py/skill_matcher.py:121-129 | sorting distinct records keeps them distinct, so each record's last position is its only one |
| SkillMatcher.RankedScores | backend_py/skill_matcher.py:121-125 | the reports of the ranked records are the stable sort of the reports by final score, so ranking depends on the final scores alone |
| SkillMatcher.DefaultNames | backend_py/skill_matcher.py:200-201 | the default names are Candidate_1 .. Candidate_N, one per resume |
| SkillMatcher.DefaultNamesDistinct | backend_py/skill_matcher.py:200-201 | the default names are pairwise different |
| SkillMatcher.BatchScores | backend_py/skill_matcher.py:204 | zip scores min(len(resumes), len(names)) pairs |
| SkillMatcher.ScoreAll | backend_py/skill_matcher.py:203-210 | the loop returns one fresh unranked record per zipped pair, in input order, with the reports of BatchScores, and no record twice |
| SkillMatcher.ScoreCandidateAt | backend_py/skill_matcher.py:205-209 | one turn of that loop makes a fresh unranked record holding the report of the pair at that position |
| SkillMatcher.ScoreBatch | backend_py/skill_matcher.py:184-215 | score_batch returns the reports of the zipped pairs (default names when none are given) sorted stably by final score, highest first, with ranks 1..N by position |
| SkillsDatabase.LanguagesUnique | backend_py/skills_database.py:4-15 | helper of SkillsDatabase.FirstSectionsUnique: the programming-language section repeats no key |
| SkillsDatabase.WebUnique | backend_py/skills_database.py:17-28 | helper of SkillsDatabase.FirstSectionsUnique: the web section repeats no key |
| SkillsDatabase.DatabasesUnique | backend_py/skills_database.py:30-38 | helper of SkillsDatabase.FirstSectionsUnique: the database section repeats no key |
| SkillsDatabase.CloudUnique | backend_py/skills_database.py:40-51 | helper of SkillsDatabase.FirstSectionsUnique: the cloud and DevOps section repeats no key |
| SkillsDatabase.DataScienceUnique | backend_py/skills_database.py:53-65 | helper of SkillsDatabase.FirstSectionsUnique: the data-science section repeats no key |
| SkillsDatabase.OtherUnique | backend_py/skills_database.py:67-81 | helper of SkillsDatabase.TechnicalSkillsSize: the last technical section repeats no key |
| SkillsDatabase.SoftUnique | backend_py/skills_database.py:84-93 | helper of SkillsDatabase.SoftSkillsIsDisplay: SOFT_SKILLS repeats no key |
| SkillsDatabase.WebAfterLanguages | backend_py/skills_database.py:4-28 | helper of SkillsDatabase.FirstSectionsUnique: no web key is a language key |
| SkillsDatabase.DatabasesAfterLanguages | backend_py/skills_database.py:4-38 | helper of SkillsDatabase.FirstSectionsUnique: no database key is a language key |
| SkillsDatabase.DatabasesAfterWeb | backend_py/skills_database.py:17-38 | helper of SkillsDatabase.FirstSectionsUnique: no database key is a web key |
| SkillsDatabase.CloudAfterLanguages | backend_py/skills_database.py:4-51 | helper of SkillsDatabase.FirstSectionsUnique: no cloud key is a language key |
| SkillsDatabase.CloudAfterWeb | backend_py/skills_database.py:17-51 | helper of SkillsDatabase.FirstSectionsUnique: no cloud key is a web key |
| SkillsDatabase.CloudAfterDatabases | backend_py/skills_database.py:30-51 | helper of SkillsDatabase.FirstSectionsUnique: no cloud key is a database key |
| SkillsDatabase.DataScienceAfterLanguages | backend_py/skills_database.py:4-65 | helper of SkillsDatabase.FirstSectionsUnique: no data-science key is a language key |
| SkillsDatabase.DataScienceAfterWeb | backend_py/skills_database.py:17-65 | helper of SkillsDatabase.FirstSectionsUnique: no data-science key is a web key |
| SkillsDatabase.DataScienceAfterDatabases | backend_py/skills_database.py:30-65 | helper of SkillsDatabase.FirstSectionsUnique: no data-science key is a database key |
| SkillsDatabase.DataScienceAfterCloud | backend_py/skills_database.py:40-65 | helper of SkillsDatabase.FirstSectionsUnique: no data-science key is a cloud key |
| SkillsDatabase.OtherHeadAfterLanguages | backend_py/skills_database.py:67-74 | helper of SkillsDatabase.OtherSharesOnlyAws: the first keys of the last section are no language key |
| SkillsDatabase.OtherTailAfterLanguages | backend_py/skills_database.py:75-81 | helper of SkillsDatabase.OtherSharesOnlyAws: the later keys of the last section, "aws" aside, are no language key |
| SkillsDatabase.OtherHeadAfterWeb | backend_py/skills_database.py:67-74 | helper of SkillsDatabase.OtherSharesOnlyAws: the first keys of the last section are no web key |
| SkillsDatabase.OtherTailAfterWeb | backend_py/skills_database.py:75-81 | helper of SkillsDatabase.OtherSharesOnlyAws: the later keys of the last section, "aws" aside, are no web key |
| SkillsDatabase.OtherHeadAfterDatabases | backend_py/skills_database.py:67-74 | helper of SkillsDatabase.OtherSharesOnlyAws: the first keys of the last section are no database key |
| SkillsDatabase.OtherTailAfterDatabases | backend_py/skills_database.py:75-81 | helper of SkillsDatabase.OtherSharesOnlyAws: the later keys of the last section, "aws" aside, are no database key |
| SkillsDatabase.OtherHeadAfterCloud | backend_py/skills_database.py:67-74 | helper of SkillsDatabase.OtherSharesOnlyAws: the first keys of the last section are no cloud key |
| SkillsDatabase.OtherTailAfterCloud | backend_py/skills_database.py:75-81 | helper of SkillsDatabase.OtherSharesOnlyAws: the later keys of the last section, "aws" aside, are no cloud key |
| SkillsDatabase.OtherHeadAfterDataScience | backend_py/skills_database.py:67-74 | helper of SkillsDatabase.OtherSharesOnlyAws: the first keys of the last section are no data-science key |
| SkillsDatabase.OtherTailAfterDataScience | backend_py/skills_database.py:75-81 | helper of SkillsDatabase.OtherSharesOnlyAws: the later keys of the last section, "aws" aside, are no data-science key |
| SkillsDatabase.SoftAfterLanguages | backend_py/skills_database.py:84-93 | helper of SkillsDatabase.SoftNotTechnical: no soft-skill key is a language key |
| SkillsDatabase.SoftAfterWeb | backend_py/skills_database.py:84-93 | helper of SkillsDatabase.SoftNotTechnical: no soft-skill key is a web key |
| SkillsDatabase.SoftAfterDatabases | backend_py/skills_database.py:84-93 | helper of SkillsDatabase.SoftNotTechnical: no soft-skill key is a database key |
| SkillsDatabase.SoftAfterCloud | backend_py/skills_database.py:84-93 | helper of SkillsDatabase.SoftNotTechnical: no soft-skill key is a cloud key |
| SkillsDatabase.SoftAfterDataScience | backend_py/skills_database.py:84-93 | helper of SkillsDatabase.SoftNotTechnical: no soft-skill key is a data-science key |
| SkillsDatabase.SoftAfterOther | backend_py/skills_database.py:84-93 | helper of SkillsDatabase.SoftNotTechnical: no soft-skill key is a key of the last technical section |
| SkillsDatabase.LanguagesAliases | backend_py/skills_database.py:4-15 | every language alias list contains its own key, and "amazon web services" is listed only under "aws" |
| SkillsDatabase.WebAliases | backend_py/skills_database.py:17-28 | every web alias list contains its own key, and "amazon web services" is listed only under "aws" |
| SkillsDatabase.DatabasesAliases | backend_py/skills_database.py:30-38 | every database alias list contains its own key, and "amazon web services" is listed only under "aws" |
| SkillsDatabase.CloudAliases | backend_py/skills_database.py:40-51 | every cloud alias list contains its own key, and "amazon web services" is listed only under "aws" |
| SkillsDatabase.DataScienceAliases | backend_py/skills_database.py:53-65 | every data-science alias list contains its own key, and "amazon web services" is listed only under "aws" |
| SkillsDatabase.OtherAliases | backend_py/skills_database.py:67-81 | every alias list of the last section contains its own key, its "aws" pair lists only "aws", and "aws" is also the first cloud key |
| SkillsDatabase.SoftAliases | backend_py/skills_database.py:84-93 | every soft-skill alias list contains its own key and none lists "amazon web services" |
| SkillsDatabase.FirstSectionsUnique | backend_py/skills_database.py:3-65 | the sections before the last one repeat no key among them |
| SkillsDatabase.OtherSharesOnlyAws | backend_py/skills_database.py:41-75 | the last technical section shares only its "aws" pair with the earlier sections |
| SkillsDatabase.SoftNotTechnical | backend_py/skills_database.py:3-93 | no soft-skill key is a technical key |
| SkillsDatabase.TechnicalSkillsSize | backend_py/skills_database.py:3-82 | TECHNICAL_SKILLS holds 66 keys: its 67 written pairs with the repeated "aws" collapsed |
| SkillsDatabase.SoftSkillsIsDisplay | backend_py/skills_database.py:84-93 | SOFT_SKILLS is its written pairs, eight keys |
| SkillsDatabase.AllSkillsMerge | backend_py/skills_database.py:96 | the merge is TECHNICAL_SKILLS followed by SOFT_SKILLS, every entry of both surviving, with distinct keys |
| SkillsDatabase.CatalogueSize | backend_py/skills_database.py:3-96 | ALL_SKILLS holds 74 canonical skills |
| SkillsDatabase.AllSkillsEntry | backend_py/skills_database.py:96 | every entry of ALL_SKILLS is a pair written in one of the two literals |
| SkillsDatabase.TechnicalAliases | backend_py/skills_database.py:3-82 | every technical alias list contains its own key, and "amazon web services" is listed only under "aws" |
| SkillsDatabase.AliasListsNameTheirKey | backend_py/skills_database.py:3-96 | every alias list of ALL_SKILLS is non-empty and contains its own key |
| SkillsDatabase.AwsLaterBindingWins | backend_py/skills_database.py:41-96 | the later "aws" pair wins: "aws" maps to ["aws"] only, and "amazon web services" is an alias of no skill |
| SkillsDatabase.TechnicalKeyWrittenOnce | backend_py/skills_database.py:3-96 | a technical key other than "aws" keeps the alias list written for it |
| SkillsDatabase.NodeAliasesShared | backend_py/skills_database.py:6-24 | "nodejs" and "node.js" are aliases of both "javascript" and "nodejs" |
| SkillsDatabase.LowercasedLookup | backend_py/skills_database.py:99-101 | lower-casing the alias lists keeps the keys and maps each list element by element |
| SkillsDatabase.SkillsLowercaseSpec | backend_py/skills_database.py:99-101 | SKILLS_LOWERCASE has the 74 keys of ALL_SKILLS in the same order, distinct, each mapped to its alias list lower-cased element by element |
| SkillsDatabase.BuildSkillsLowercase | backend_py/skills_database.py:99-101 | the loop over the dict's entries builds exactly the lower-cased table |
| AliasTable.LookupSomeIffHasName | backend_py/skills_database.py:3-93 | a dict read finds a value exactly when the key is present |
| AliasTable.LookupFinds | backend_py/skills_database.py:3-93 | in a dict with distinct keys every stored pair is read back under its key |
| AliasTable.PutShape | backend_py/skills_database.py:3-93 | storing under a key already present overwrites its value in place, keeping the key's position; a new key goes at the end; all other entries are unchanged |
| AliasTable.PutLookup | backend_py/skills_database.py:3-93 | after storing v under k, k reads v and every other key its old value |
| AliasTable.PutKeys | backend_py/skills_database.py:3-93 | storing adds the key to the key set and nothing else, and keeps keys distinct |
| AliasTable.PutAllLookup | backend_py/skills_database.py:3-96 | after storing a list of pairs, a key reads the value of its last pair, or its old value when no pair names it |
| AliasTable.PutAllShape | backend_py/skills_database.py:3-96 | storing a list of pairs keeps the old keys in place and adds exactly the keys of the pairs, keeping keys distinct |
| AliasTable.PutAllCopy | backend_py/skills_database.py:96 | storing the entries of a dict into an empty one copies it |
| AliasTable.MergeDisjoint | backend_py/skills_database.py:96 | merging two dicts with no common key gives the first followed by the second |
| AliasTable.PutAllFreshLength | backend_py/skills_database.py:3-93 | storing pairs with distinct keys, none already present, adds one entry per pair |
| AliasTable.PutAllOneSharedLength | backend_py/skills_database.py:3-93 | storing pairs with distinct keys of which exactly one is already present adds one entry fewer than the pairs |
| AliasTable.LastValueOnce | backend_py/skills_database.py:3-93 | a key written once in a literal keeps the value written for it |
| AliasTable.BuiltEntry | backend_py/skills_database.py:3-93 | every entry of a built literal is a written pair and is the last pair written under its key |
| NlpProcessor.SearchFrom | backend_py/nlp_processor.py:61-62 | the search from position i succeeds exactly when the alias occurs with a word boundary on each side at some position from i on |
| NlpProcessor.SearchWord | backend_py/nlp_processor.py:61-62 | the search succeeds exactly when the alias occurs somewhere with a word boundary on each side |
| NlpProcessor.FirstMatch | backend_py/nlp_processor.py:59-69 | the alias the `break` stops at is one of the skill's aliases and matches; when there is none, no alias matches |
| NlpProcessor.FirstMatchAt | backend_py/nlp_processor.py:59-69 | the alias recorded is the first one in list order that matches |
| NlpProcessor.FirstMatchNone | backend_py/nlp_processor.py:59-69 | when no alias matches, nothing is recorded for the skill |
| NlpProcessor.Names | backend_py/nlp_processor.py:72-75 | the keys of skills_detail in order |
| NlpProcessor.DetailKeys | backend_py/nlp_processor.py:58-68 | a skill is a key of skills_detail exactly when the table has it and one of its aliases matches |
| NlpProcessor.DetailEntries | backend_py/nlp_processor.py:64-69 | each skills_detail entry records exactly one alias: the first of its skill's aliases that matched |
| NlpProcessor.DetailUnique | backend_py/nlp_processor.py:64-68 | skills_detail keeps the table's keys distinct |
| NlpProcessor.ExtractFound | backend_py/nlp_processor.py:58-63 | a skill is found exactly when the table has it and one of its aliases occurs in the text as a whole word, so found skills are keys of the table |
| NlpProcessor.ExtractShape | backend_py/nlp_processor.py:63-76 | found_skills is strictly sorted (so duplicate-free), skills_list equals it, skill_count is its length, its skills are exactly the keys of skills_detail, and each detail entry records one alias |
| NlpProcessor.NameSetNames | backend_py/nlp_processor.py:63-68 | the found_skills set the loop keeps holds exactly the keys of skills_detail |
| NlpProcessor.DetailFresh | backend_py/nlp_processor.py:64 | when a skill is reached its name is not yet a key of skills_detail |
| NlpProcessor.DetailStep | backend_py/nlp_processor.py:58-69 | one turn of the outer loop adds the skill with its first matching alias, or nothing |
| NlpProcessor.AppendAlias | backend_py/nlp_processor.py:64-68 | recording an alias appends it to the name's list (an empty list for a new name), leaves every other key's value alone, and puts a new name at the end |
| NlpProcessor.FirstMatchingAlias | backend_py/nlp_processor.py:59-69 | the inner loop with its `break` returns the first matching alias |
| NlpProcessor.ExtractSkills | backend_py/nlp_processor.py:40-76 | extract_skills returns the extraction of the lower-cased text, so matching ignores case |
| NlpProcessor.CppBeforeSpaceIsNoMatch | backend_py/nlp_processor.py:61 | "c++" is not found in "c++ developer" (no word boundary after '+' before a space) but is found in "c++developer" |
| NlpProcessor.WholeWordsOnly | backend_py/nlp_processor.py:61 | "python" is found in "senior python developer" but not in "pythonic" |
| AppScoring.LoweredUnionSpec | backend_py/app.py:210-215 | the combined skill set holds the lower-cased form of every skill of either list and nothing else, and all its members are lower-case |
| AppScoring.SelectedPartition | backend_py/app.py:226-236 | the matched and missing lists together are a permutation of the job's skills, so their lengths add up to the number of job skills |
| AppScoring.SelectedMembers | backend_py/app.py:229-236 | a job skill is in the matched list exactly when its lower-cased form is among the candidate's skills, and in the missing list exactly when it is not |
| AppScoring.SelectedOfAll | backend_py/app.py:229-236 | when the candidate has every job skill, all of them are matched, in their order, and none is missing |
| AppScoring.PartitionSkills | backend_py/app.py:226-236 | the loop builds exactly the matched and the missing selections of the job's skills |
| AppScoring.SelectedOfSet | backend_py/app.py:314-315 | the comprehensions over a set list exactly the set's members that the candidate has and exactly those it lacks, and their sizes add up to the set's size |
| AppScoring.SelectedNoDuplicates | backend_py/app.py:314-315 | selecting from a list without repeats gives a list without repeats |
| AppScoring.ClampSpec | backend_py/app.py:200 | the clamped score lies between the bounds, equals the input when it already does, equals the nearer bound otherwise, and clamping twice changes nothing |
| AppScoring.SkillScoreBounds | backend_py/app.py:238-245 | the skill score lies in [0, 1]; it is 0.5 without job skills, 1 when all are matched and 0 when none is |
| AppScoring.FallbackPercentageSpec | backend_py/app.py:317-322 | the fallback percentage lies in [0, 100]; it is 50 without job skills, the matched share times 100 otherwise, and positive exactly when there are no job skills or at least one is matched |
| AppScoring.CandidateRowSpec | backend_py/app.py:184-249 | a candidate's row partitions the job skills by the candidate's combined skills, keeps every score in [0, 1], takes the skill score as the matched share (0.5 without job skills), blends 0.7 semantic and 0.3 skill into the final score and reports it times 100 |
| AppScoring.NoRequirementsRow | backend_py/app.py:244-249 | without job skills no skill is matched or missing, the skill score is 0.5 and the percentage lies between 15 and 85, so it is always positive |
| AppScoring.ScoredMembers | backend_py/app.py:251-265 | a row is kept exactly when it is some candidate's row and its percentage is positive |
| AppScoring.NoRequirementsKeepsAll | backend_py/app.py:244-265 | without job skills every candidate keeps a row, in candidate order |
| AppScoring.MatchCandidatesPrimary | backend_py/app.py:184-268 | the scoring loop fails on the first candidate whenever there are job skills, and otherwise returns the kept rows sorted by percentage, highest first |
| AppScoring.FallbackRowSpec | backend_py/app.py:302-337 | a fallback row lists exactly the job skills the candidate has and those it lacks, its percentage is the matched share of the job skills times 100 (50 without any), lies in [0, 100], is positive exactly when there are no job skills or one is matched, and all three scores are the percentage over 100 |
| AppScoring.FallbackScoredMembers | backend_py/app.py:324-337 | a fallback row is kept exactly when it is some candidate's row and its percentage is positive |
| AppScoring.MatchCandidatesFallback | backend_py/app.py:301-339 | the fallback loop returns the kept fallback rows sorted by percentage, highest first |
| AppScoring.UnboundNlpDropsJobSkills | backend_py/app.py:93-105 | as written, a request without required skills whose description yields skills is scored against none: no matched or missing skill and the 0.5 default skill score, while the intended row splits the extracted skills between matched and missing |
| AppScoring.MatchCandidatesIntended | backend_py/app.py:93-268 | the corrected candidate loop scores every candidate against the request's skills or else the extracted ones and returns the kept rows sorted by percentage, highest first |
| AppScoring.MatchCandidates | backend_py/app.py:84-362 | an empty or all-white-space description is refused with "Job description cannot be empty"; otherwise no candidates gives the empty reply; otherwise the counts, the N/A defaults and the method are reported, the skill fallback is used exactly when the embeddings fail or the request lists skills, the transformer path scores against no job skills, and the fallback scores against the request's and the extracted skills |
| AppScoring.JobRowSpec | backend_py/app.py:487-544 | a job's row lists exactly the job skills the seeker has and those they lack, takes the skill score as the matched share (0.5 without job skills), keeps both scores in [0, 1] and reports 0.7 semantic plus 0.3 skill times 100, which lies in [0, 100] |
| AppScoring.JobRows | backend_py/app.py:531-544 | every job gets a row |
| AppScoring.CountAtLeastPermutation | backend_py/app.py:547-552 | the number of rows at or above a threshold does not depend on their order |
| AppScoring.CountAtLeastBound | backend_py/app.py:552 | the number of rows at or above a threshold is at most the number of rows |
| AppScoring.SortKeepsCount | backend_py/app.py:547-552 | sorting the rows keeps the number at or above a threshold |
| AppScoring.CountedPrefix | backend_py/app.py:547-552 | in rows sorted highest first, the rows at or above the threshold are exactly the first totalMatches ones |
| AppScoring.MatchJobsPrimary | backend_py/app.py:485-552 | the job loop returns every job's row sorted by percentage, highest first, and counts the rows at 40 or more |
| AppScoring.JobFallbackRowSpec | backend_py/app.py:577-611 | a fallback job row reports the job's combined skills, lists exactly those the seeker has and those they lack, takes the matched share times 100 (50 without any) within [0, 100], and both scores are the percentage over 100 |
| AppScoring.JobFallbackRows | backend_py/app.py:576-611 | every job gets a fallback row |
| AppScoring.MatchJobsFallback | backend_py/app.py:576-618 | the fallback job loop returns every job's row sorted by percentage, highest first, and counts the rows at 40 or more |
| AppScoring.MatchJobs | backend_py/app.py:398-621 | an empty skill list is refused with "Candidate skills cannot be empty"; otherwise no jobs gives the empty reply; otherwise every job has a row, totalMatches counts those at 40 or more and is at most the number of jobs, the transformer path is used exactly when embeddings work and echoes the seeker's skills, and the fallback reports the combined seeker skills |
| Utils.JoinSnoc | backend_py/utils.py:98 | joining a list of two or more parts is the join of all but the last, the separator and the last part |
| Utils.StemExtension | backend_py/utils.py:98-113 | for a name with a '.', `rsplit('.', 1)` gives a stem and an extension that put back together with '.' give the name, and the extension holds no '.' |
| Utils.StemExtensionUnique | backend_py/utils.py:98-113 | any split of a name into stem, '.' and a '.'-free extension is the one `rsplit('.', 1)` gives |
| Utils.SplitAppend | backend_py/utils.py:98 | splitting a text extended by a separator and a separator-free piece gives the old split followed by that piece |
| Utils.ValidateFileExtensionSpec | backend_py/utils.py:84-99 | a file name is accepted exactly when it is some stem, '.', and a '.'-free extension whose lower-cased form is allowed |
| Utils.ValidateAcceptsUpperCase | backend_py/utils.py:98-99 | the extension is compared lower-cased, so "CV.PDF" is accepted for pdf |
| Utils.ValidateRejectsExamples | backend_py/utils.py:95-99 | a name without a '.' and a name with an empty extension are refused |
| Utils.ReplaceChar | backend_py/utils.py:116 | `replace` keeps the length and puts the replacement exactly where the old character was |
| Utils.TitleSpec | backend_py/utils.py:119 | `title` keeps which characters are letters, leaves every other character unchanged and is idempotent |
| Utils.TitleAppend | backend_py/utils.py:119 | `title` of a concatenation is `title` of each part, the second starting after the first part's last character |
| Utils.TitleKeepsAbsent | backend_py/utils.py:119 | `title` introduces no character that is not a letter |
| Utils.ReplaceKeepsAbsent | backend_py/utils.py:116 | replacing one character by another introduces no third character |
| Utils.CleanNameSpec | backend_py/utils.py:116-121 | the cleaned name holds no underscore and no hyphen and neither starts nor ends with white space |
| Utils.SanitizeFilenameSpec | backend_py/utils.py:102-121 | the name taken from a file name holds no underscore and no hyphen and neither starts nor ends with white space |
| Utils.FormatScoreReportCopies | backend_py/utils.py:18-33 | the report copies the candidate's name, rank, final score and the matched, missing and additional skill lists |
| Utils.FormatScoreReportFound | backend_py/utils.py:35 | the matched explanation reads "Found n out of k required skills." with n and k the decimal matched and required counts |
| Utils.FormatScoreReportMissing | backend_py/utils.py:36 | the missing explanation gives the number of missing skills and lists them joined by ", ", or "None" when there are none |
| Utils.SumFinalBounds | backend_py/utils.py:60 | the sum of final scores each within [lo, hi] lies within n·lo and n·hi |
| Utils.SummarySpec | backend_py/utils.py:42-81 | the summary counts the candidates; no candidates give zero average, no top candidate and no entries; otherwise the top candidate is the first, the average lies within the scores' bounds and its percentage is 100 times it, and each entry carries its candidate's rank, name and final score in order |
| Utils.AverageBetween | backend_py/utils.py:60 | an average of values within [lo, hi] lies within [lo, hi] |
| Utils.ErrorResponseSpec | backend_py/utils.py:124-146 | the error envelope has status "error", the given code and message, and details exactly when non-empty details were given |
| Utils.SuccessResponseSpec | backend_py/utils.py:149-165 | the success envelope has status "success" and carries the given data and message |
| ResumeParser.Pieces | backend_py/resume_parser.py:118 | splitting at every white-space character gives at least one piece and no piece holds white space |
| ResumeParser.Words | backend_py/resume_parser.py:118 | `split()` gives non-empty pieces without white space |
| ResumeParser.PiecesSpace | backend_py/resume_parser.py:118 | cutting at a white-space character splits the pieces of the two sides apart |
| ResumeParser.WordsSpace | backend_py/resume_parser.py:118 | the words of two texts joined by a white-space character are the words of each |
| ResumeParser.WordsAllSpace | backend_py/resume_parser.py:118 | a text of white space only has no words |
| ResumeParser.WordsNotAllSpace | backend_py/resume_parser.py:118 | a text with a non-white-space character has a word |
| ResumeParser.WordsEmptyIffAllSpace | backend_py/resume_parser.py:118 | a text has no words exactly when it is all white space |
| ResumeParser.PiecesNoSpace | backend_py/resume_parser.py:118 | a non-empty text without white space is its own single piece |
| ResumeParser.WordsOfWord | backend_py/resume_parser.py:118 | a non-empty text without white space is its own single word |
| ResumeParser.WordsLeading | backend_py/resume_parser.py:118 | leading white space does not change the words |
| ResumeParser.WordsTrailing | backend_py/resume_parser.py:118 | trailing white space does not change the words |
| ResumeParser.WordsStrip | backend_py/resume_parser.py:114 | stripping a line does not change its words |
| ResumeParser.WordsTrimStart | backend_py/resume_parser.py:114 | removing leading white space does not change the words |
| ResumeParser.WordsTrimEnd | backend_py/resume_parser.py:114 | removing trailing white space does not change the words |
| ResumeParser.WordsJoin | backend_py/resume_parser.py:115-118 | the words of lines joined by a white-space character are the lines' words in order |
| ResumeParser.WordsOfJoinedWords | backend_py/resume_parser.py:118 | joining words by single spaces and splitting again gives the same words |
| ResumeParser.WordsOfLinesOfWords | backend_py/resume_parser.py:115-118 | lines that are single words contribute exactly those words |
| ResumeParser.StrippedLines | backend_py/resume_parser.py:114 | the kept stripped lines are no more than the lines |
| ResumeParser.StrippedLinesWords | backend_py/resume_parser.py:114 | stripping the lines and dropping the blank ones keeps every word, in order |
| ResumeParser.WordsOfLinesCons | backend_py/resume_parser.py:115-118 | the words of a line followed by more lines are that line's words followed by theirs |
| ResumeParser.CleanResumeTextWords | backend_py/resume_parser.py:102-120 | the cleaned text is the text's words joined by single spaces |
| ResumeParser.JoinedWordsSingleSpaced | backend_py/resume_parser.py:118 | words joined by single spaces contain no run of white space and no leading or trailing space, and are non-empty when there is a word |
| ResumeParser.CleanResumeTextSpec | backend_py/resume_parser.py:102-120 | cleaning keeps the words, leaves single spaces only, and gives the empty text exactly when the text is all white space |
| ResumeParser.CleanResumeTextIdempotent | backend_py/resume_parser.py:102-120 | cleaning a cleaned text changes nothing |
| ResumeParser.CleanResumeTextSeparator | backend_py/resume_parser.py:102-120 | a unit separator (U+001F) between two words is white space to `split`, so the words come out joined by one space |
| ResumeParser.AppendedSnoc | backend_py/resume_parser.py:28-31 | appending one more kept piece adds it and a newline at the end |
| ResumeParser.AppendedConcat | backend_py/resume_parser.py:58-67 | appending the paragraphs and then the cells gives the two texts one after the other |
| ResumeParser.AppendedBlank | backend_py/resume_parser.py:28-34 | the appended text is all white space exactly when every kept piece is |
| ResumeParser.AppendedEmpty | backend_py/resume_parser.py:28-31 | the appended text is empty exactly when no piece is kept |
| ResumeParser.NotBlankStrip | backend_py/resume_parser.py:59 | a piece counts as non-blank exactly when stripping leaves something |
| ResumeParser.PdfExtractionSpec | backend_py/resume_parser.py:22-38 | a PDF with pages gives text exactly when some page has a non-white-space character; the text is the non-empty pages each followed by a newline; otherwise the error says no text could be extracted |
| ResumeParser.ExtractTextFromPdf | backend_py/resume_parser.py:9-38 | the page loop returns the extraction's text or its error: unreadable, no pages, or no text |
| ResumeParser.DocxExtractionSpec | backend_py/resume_parser.py:54-74 | a DOCX gives text exactly when some paragraph or cell has a non-white-space character; the text is the non-blank paragraphs then the non-blank cells, each followed by a newline; otherwise the error says no text could be extracted |
| ResumeParser.DocxBlank | backend_py/resume_parser.py:58-69 | the collected DOCX text strips to nothing exactly when every paragraph and cell is white space |
| ResumeParser.ExtractTextFromDocx | backend_py/resume_parser.py:41-74 | the paragraph and table loops return the extraction's text or its error |
| ResumeParser.AppendRows | backend_py/resume_parser.py:64-67 | the row loop appends every non-blank cell of every row, in order, each followed by a newline |
| ResumeParser.AppendNonBlank | backend_py/resume_parser.py:58-60 | the loop appends every non-blank piece, in order, each followed by a newline |
| ResumeParser.ExtractTextFromResume | backend_py/resume_parser.py:77-100 | a lower-cased name ending in .pdf is read as PDF, one ending in .docx or .doc as DOCX, and any other is refused with the file name in the error |
| ResumeParser.ResumeFormatCaseInsensitive | backend_py/resume_parser.py:91-96 | the chosen parser does not depend on the case of the file name |
| ResumeParser.ResumeFormatUpperCaseExample | backend_py/resume_parser.py:91-95 | "CV.PDF" is read as PDF |
| ResumeParser.ResumeFormatLastSuffixExample | backend_py/resume_parser.py:93-98 | "cv.pdf.docx" is read as DOCX: only the last suffix counts |
| ResumeParser.ResumeFormatUnknownExample | backend_py/resume_parser.py:96-100 | "cv.txt" is refused |
| ApplicationsRoute.MatchCountBounds | backend/routes/applications.js:9-12 | the number of required skills the candidate has is at most the number required; it equals it exactly when the candidate has every one, and is 0 exactly when they have none |
| ApplicationsRoute.MatchCountConcat | backend/routes/applications.js:12 | the count over two lists of required skills is the sum of the counts |
| ApplicationsRoute.ScoreBounds | backend/routes/applications.js:8-15 | the score is at most the number of required skills plus one, and reaches it exactly when the candidate has every required skill and at least the minimum experience |
| ApplicationsRoute.DuplicatesCounted | backend/routes/applications.js:9-12 | a required skill listed twice counts twice for a candidate who has it once |
| ApplicationsRoute.ComputeScore | backend/routes/applications.js:8-15 | the loop's count plus the experience bonus is the score |
| ApplicationsRoute.Apply | backend/routes/applications.js:18-41 | a missing id is refused with 400, an unknown job or candidate with 404 in that order, and otherwise the application carries the ids, the cover letter, the body's resume text or else the candidate's, and the score, which is at most the required skills plus one |
| CandidatesRoute.ParseSkillsText | backend/routes/candidates.js:19 | a non-empty skills string gives one skill per comma-separated piece, each trimmed and free of commas |
| CandidatesRoute.ParseSkillsRoundTrip | backend/routes/candidates.js:19 | trimmed comma-free skills joined by commas are read back as the same list |
| CandidatesRoute.TrimAllTrimmed | backend/routes/candidates.js:19 | trimming already trimmed skills changes nothing |
| CandidatesRoute.ParseSkillsKeepsEmpty | backend/routes/candidates.js:19 | two commas in a row give an empty skill, which is kept |
| CandidatesRoute.ExperienceYears | backend/routes/candidates.js:21 | an absent or empty experience field gives 0, any other is converted to a number |
| CandidatesRoute.NewCandidate | backend/routes/candidates.js:11-22 | the saved candidate's skills are the parsed skills field and its resume text is the uploaded file's text, else the body's, else empty |
| CandidatesRoute.KeysSpec | backend/routes/candidates.js:46 | the keys are exactly the non-empty trimmed, lower-cased comma-separated pieces of the query, none with an upper-case letter or a comma |
| CandidatesRoute.HitsBounds | backend/routes/candidates.js:50-52 | a candidate's hits are at most the number of keys and positive exactly when some key occurs in their text |
| CandidatesRoute.KeywordScore | backend/routes/candidates.js:51-52 | the loop counts the keys found in the candidate's text |
| CandidatesRoute.ScoredAll | backend/routes/candidates.js:49-53 | every candidate gets one entry, in order, carrying its hit count |
| CandidatesRoute.ScoredAllSnoc | backend/routes/candidates.js:49-53 | scoring one more candidate appends its entry |
| CandidatesRoute.Positive | backend/routes/candidates.js:54 | the filter keeps exactly the entries with a positive score |
| CandidatesRoute.ShortlistSpec | backend/routes/candidates.js:46-55 | the shortlist is sorted by score, highest first; it holds exactly the stored candidates with at least one hit, each with its hit count between 1 and the number of keys; and candidates with equal scores keep their stored order |
| CandidatesRoute.ShortlistRoute | backend/routes/candidates.js:41-57 | an absent or empty keywords parameter is refused with its message; otherwise the reply is the shortlist for the parsed keys |
| CandidatesRoute.ScoreCandidates | backend/routes/candidates.js:49-53 | the loop scores every candidate in order |
| Auth.Find | frontend/src/utils/auth.js:7 | `find` returns the first user that matches, or none when no user matches |
| Auth.AppendKeepsDistinct | frontend/src/utils/auth.js:7-9 | adding a user whose email is not yet stored keeps the emails distinct |
| Auth.LoginSelectsEmailOwner | frontend/src/utils/auth.js:15-17 | with distinct emails, login finds the owner of the email exactly when the password is theirs |
| Auth.Store.constructor | frontend/src/utils/auth.js:6 | empty storage holds no users and no session |
| Auth.Store.Register | frontend/src/utils/auth.js:5-13 | a stored email is refused and nothing changes; otherwise the new user is appended, becomes the session and is returned, and emails stay distinct |
| Auth.Store.Login | frontend/src/utils/auth.js:15-21 | the first user with the email and password becomes the session and is returned; without one the login is refused and the session is unchanged; the users never change |
| Auth.Store.Logout | frontend/src/utils/auth.js:23 | the session is cleared and the users are kept |
| Auth.Store.CurrentUser | frontend/src/utils/auth.js:25 | the current user is what the session slot holds |
| Auth.RegisterTwice | frontend/src/utils/auth.js:5-13 | a second registration with the same email is refused and the first user stays signed in |
| Explore.Filter | frontend/src/pages/Explore.jsx:166 | `filter` never lengthens the list |
| Explore.FilterSpec | frontend/src/pages/Explore.jsx:166-172 | `filter` keeps exactly the elements the predicate accepts, keeps the whole list exactly when it accepts every element, and nothing exactly when it accepts none |
| Explore.FilterMembers | frontend/src/pages/Explore.jsx:166-172 | the filtered list holds exactly the accepted elements |
| Explore.FilterAll | frontend/src/pages/Explore.jsx:166-172 | a predicate that accepts everything leaves the list unchanged |
| Explore.FilterFull | frontend/src/pages/Explore.jsx:166-172 | the filtered list is as long as the list exactly when every element is accepted |
| Explore.FilterNone | frontend/src/pages/Explore.jsx:166-172 | the filtered list is empty exactly when no element is accepted |
| Explore.ReadinessSpec | frontend/src/pages/Explore.jsx:180-190 | readiness is 0 for anyone but a signed-in candidate with skills, NaN for a job without required skills, and otherwise a percentage in [0, 100] that is 100 exactly when every required skill is known, ignoring case, and 0 exactly when none is |
| Explore.Percent | frontend/src/pages/Explore.jsx:189 | a share of a positive whole times 100 lies in [0, 100], is 100 exactly for the whole and 0 exactly for none |
| Explore.HasSkillSpec | frontend/src/pages/Explore.jsx:200-207 | the skill check ignores the case of the skill asked about, and for an eligible candidate the required skills counted by readiness are exactly those the check accepts |
| Explore.JobsForSkillSpec | frontend/src/pages/Explore.jsx:193-197 | the jobs for a skill are exactly the jobs that list it as required or optional |
| Explore.FilteredJobsSpec | frontend/src/pages/Explore.jsx:166-172 | the shown jobs are exactly those whose title, company or description contains the search term ignoring case and whose experience matches the filter; an empty search with "all" shows every job |
| Explore.AddEachSpec | frontend/src/pages/Explore.jsx:133-137 | adding skills to a duplicate-free collection keeps it duplicate-free, keeps what was there in front and holds exactly the old and the added skills |
| Explore.CollectedSpec | frontend/src/pages/Explore.jsx:133-137 | the collected skills are without repeats and are exactly the skills some job lists as required or optional |
| Explore.CollectSkills | frontend/src/pages/Explore.jsx:133-137 | the loop over jobs collects the skills in first-insertion order |
| Explore.AddAll | frontend/src/pages/Explore.jsx:135-136 | the loop adds each skill not yet present, in order |
| Explore.StatOf | frontend/src/pages/Explore.jsx:140-150 | a skill's row counts the jobs in which it is required and optional, its total is their sum, and it is core exactly when required in more jobs than optional |
| Explore.ListedCounted | frontend/src/pages/Explore.jsx:140-142 | a skill some job lists has a total of at least one |
| Explore.AggregateSkills | frontend/src/pages/Explore.jsx:133-151 | the aggregation produces the skill table |
| Explore.SkillTableSpec | frontend/src/pages/Explore.jsx:139-151 | the table is sorted by total, most demanded first, has one row per collected skill, each with that skill's counts, and covers every listed skill |
| Explore.SkillTableRows | frontend/src/pages/Explore.jsx:139-150 | each row carries its skill's counts and the skill is listed by some job |
| Explore.SkillTableCovers | frontend/src/pages/Explore.jsx:139-151 | every skill some job lists has its row in the table |
| Explore.FilteredSkillsSpec | frontend/src/pages/Explore.jsx:175-177 | the shown skills are exactly those whose name contains the search term, ignoring case |
| Profile.IndexOf | frontend/src/pages/Profile.jsx:84 | `indexOf` gives the first position of the value, or -1 exactly when it is absent |
| Profile.IndexOfAtMost | frontend/src/pages/Profile.jsx:84 | the first position of an element is at most any position where it occurs |
| Profile.KeepFirstSpec | frontend/src/pages/Profile.jsx:84 | keeping the first occurrences among the first k entries keeps exactly their values, in first-occurrence order, and keeps all k when there are no repeats |
| Profile.KeepFirstMembers | frontend/src/pages/Profile.jsx:84 | the kept values are exactly the values among the first k entries |
| Profile.KeepFirstBefore | frontend/src/pages/Profile.jsx:84 | each kept value first occurs before position k |
| Profile.KeepFirstOrder | frontend/src/pages/Profile.jsx:84 | the kept values follow the order of their first occurrences |
| Profile.KeepFirstAll | frontend/src/pages/Profile.jsx:84 | without repeats every one of the first k entries is kept |
| Profile.DedupeSpec | frontend/src/pages/Profile.jsx:84 | the deduplicated list has no repeats, the same values, their first-occurrence order, and equals the list when it had no repeats |
| Profile.DedupeDistinct | frontend/src/pages/Profile.jsx:84 | a list without repeats passes the first-occurrence filter whole |
| Profile.PiecesClean | frontend/src/pages/Profile.jsx:80-83 | the trimmed non-empty pieces are clean entries: non-empty, trimmed and comma-free |
| Profile.DedupeKeepsClean | frontend/src/pages/Profile.jsx:84 | deduplicating clean entries leaves clean entries |
| Profile.CleanedSkillsSpec | frontend/src/pages/Profile.jsx:80-84 | the cleaned skills are clean entries without repeats, exactly the non-empty trimmed pieces, in first-occurrence order |
| Profile.CleanedSkillsClean | frontend/src/pages/Profile.jsx:80-84 | every cleaned skill is a clean entry |
| Profile.CleanedSkillsMembers | frontend/src/pages/Profile.jsx:80-84 | the cleaned skills are without repeats, exactly the non-empty trimmed pieces, in first-occurrence order |
| Profile.SplitCommaSpace | frontend/src/pages/Profile.jsx:91 | splitting comma-free skills joined by ", " at ',' gives the first skill and each other skill behind a space |
| Profile.TrimSpaced | frontend/src/pages/Profile.jsx:80-82 | trimming those pieces gives the trimmed skills back |
| Profile.CleanedSkillsEmpty | frontend/src/pages/Profile.jsx:80-84 | an empty skills field gives no skills |
| Profile.CleanedSkillsRoundTrip | frontend/src/pages/Profile.jsx:80-91 | clean skills without repeats, joined by ", " as the form sends them, are cleaned back to the same list |
| Profile.CleanedSkillsStable | frontend/src/pages/Profile.jsx:80-91 | cleaning the sent skills string again gives the same skills |
| StableSort.InsertPos | backend_py/skill_matcher.py:121-125 | the insertion point follows every element whose key is at least the new one's and precedes a smaller key |
| StableSort.InsertDescSpec | backend_py/skill_matcher.py:121-125 | inserting into a list sorted highest first keeps it sorted, adds exactly the element, and places it after the elements with its key |
| StableSort.SortDescSpec | backend_py/skill_matcher.py:121-125 | the stable descending sort is sorted highest first, is a permutation of its input, and keeps the input order among equal keys |
| StableSort.SortDescMembers | backend_py/skill_matcher.py:121-125 | the sort holds exactly the input's elements |
| StableSort.SortDescLength | backend_py/skill_matcher.py:121-125 | the sort keeps the length |
| StableSort.SameGroupsUnique | backend_py/skill_matcher.py:121-125 | two lists sorted highest first with the same elements in the same order per key are equal, so the stable sort's result is unique |
| StableSort.SortDescMap | backend_py/app.py:268 | sorting rows and then mapping them gives the same as mapping and then sorting, when the keys agree |
| StringOrder.StrLtTransitive | backend_py/skill_matcher.py:51-53 | the string order is transitive |
| StringOrder.StrLtTotal | backend_py/skill_matcher.py:51-53 | any two distinct strings are ordered one way or the other |
| StringOrder.SortUnique | backend_py/skill_matcher.py:51-53 | `sorted` of a set's elements is strictly increasing and holds exactly those elements |
| StringOrder.SortedFromSet | backend_py/nlp_processor.py:72-75 | the loop lists a set's elements in strictly increasing order |
| StringOrder.StrictlySortedUnique | backend_py/nlp_processor.py:72-75 | two strictly increasing lists with the same elements are equal, so `sorted` of a set is determined by the set |
| Text.Lower | backend_py/app.py:211-212 | lower-casing keeps the length and lower-cases each letter |
| Text.LowerIdempotent | backend_py/app.py:211-212 | lower-casing twice is lower-casing once |
| Text.StripSpec | backend_py/resume_parser.py:114 | Python's `strip` gives the middle of the text between runs of white space, the U+001C..U+001F separators included, neither starting nor ending with white space |
| Text.StripIdempotent | backend_py/resume_parser.py:114 | stripping twice is stripping once |
| Text.TrimIdempotent | backend/routes/candidates.js:19 | JavaScript's `trim` twice is `trim` once |
| Text.TrimKeepsAbsent | backend/routes/candidates.js:19 | `trim` brings in no character that the text did not hold |
| Text.SeparatorTrimmedOnlyByPython | backend_py/resume_parser.py:114 | the unit separator U+001F is cut by Python's `strip` and kept by JavaScript's `trim` |
| Text.JoinSplit | backend/routes/candidates.js:19 | joining the pieces of a split with the separator gives the text back |
| Text.SplitJoin | backend/routes/candidates.js:19 | splitting pieces without the separator joined by it gives the pieces back |
| Text.Contains | backend/routes/candidates.js:52 | `includes` holds exactly when the needle occurs at some position |
| Text.NatToStringValue | backend_py/utils.py:35 | a count's decimal text reads back as the count |

## Left out

- Floating-point rounding: `round(x, n)` in the reports and responses is not modelled. Percentages and scores carry the exact real value, and the `> 0` filter of `match_candidates` is applied to the exact percentage, so a row whose percentage rounds to 0.0 is dropped by the source and kept by the model.
- SkillMatcher.RankCandidates: sorts on the exact final score, while the source sorts on the score already rounded to 4 places. Two reports whose scores round to the same value keep their input order in the source but are ordered by exact value in the model.
- AppScoring.MatchCandidatesPrimary, AppScoring.MatchCandidatesFallback, AppScoring.MatchJobsPrimary, AppScoring.MatchJobsFallback: sort on the exact percentage, while the source sorts on the percentage rounded to one decimal. Near-ties keep their input order in the source and are ordered by exact value in the model.
- AppScoring.MatchJobs: totalMatches counts exact percentages of at least 40, while the source counts the rounded ones. A job at 39.96 percent rounds to 40.0 and is counted by the source but not by the model.
- Case folding and white space are ASCII only: `lower`, `title`, `strip`, `split` and `trim` treat no non-ASCII character as a letter or as space. On ASCII, Python's `strip` and `split` take the four separators U+001C..U+001F as white space and JavaScript's `trim` does not; each language has its own trim.
- Embeddings, cosine similarity and the sklearn and numpy calls are the abstract `semantic` function. Its clamp to [0, 1] is modelled where the API applies it.
- spaCy, `extract_key_phrases`, the `process_*` wrappers and the NLP singleton are not part of this model. Inside the API loops, skill extraction is the parameter `extract`.
- Regular expressions: the `\b` word boundary is modelled directly on ASCII word characters, not as a general regex engine.
- FastAPI request handling, MongoDB reads, the sample-data fallback, the call to the Node backend and logging are not modelled. The fetched candidates or jobs are a parameter of the API models.
- The exception messages of the API's 500 replies are not modelled.
- pdfplumber and python-docx are not modelled. A file is the list of page texts or of paragraphs and table rows the library would give, or the message of the error it would raise. A `.doc` file goes to the DOCX reader, as in the source; whether that library reads it is part of the given outcome.
- Timestamps (`datetime.utcnow`) are a parameter. The semantic explanation string of the score report is not modelled.
- Mongoose models, `save()`, Mongo cast errors and the 500 replies of the Node routes are not modelled. The `findById` lookups are maps from id to record.
- `Number()` on the experience field is the parameter `toNumber`. Its NaN is not modelled.
- The uploaded file's UTF-8 decoding is the given text.
- localStorage and JSON (de)serialisation are not modelled. The two slots are the fields of `Auth.Store`, and `Date.now()` ids are a parameter.
- Explore's hard-coded job list, its React state and rendering, and the Profile form submission and fetch are not modelled.
- Auth.Store.CurrentUser: only returns the session field. Parsing the stored JSON is not modelled.
- CandidatesRoute.ExperienceYears: states only the truthiness rule. The number conversion itself is the parameter.

## Findings

| source | as written | input that shows it | evidently intended | confidence | as-written member | corrected member |
|---|---|---|---|---|---|---|
| backend_py/app.py:243 | the log line for a candidate with required skills reads `final_score`, which is assigned only at line 248, so the first such candidate raises and the request falls back to skill matching | any request with a non-empty `requiredSkills` and at least one candidate | compute the final score before it is logged, and score each candidate with 0.7 · semantic + 0.3 · skill | not executed | AppScoring.MatchCandidatesPrimary | AppScoring.CandidateRowSpec |
| backend_py/app.py:100 | the extraction of job skills from the description reads `nlp`, which the assignments at lines 176 and 291 make a local of `match_candidates`; the read raises, the handler at line 103 catches it, and the job keeps no skills | any request with an empty `requiredSkills` whose description names a catalogue skill, such as "python developer" | score the candidates against the skills extracted from the description | not executed | AppScoring.UnboundNlpDropsJobSkills | AppScoring.MatchCandidatesIntended |
