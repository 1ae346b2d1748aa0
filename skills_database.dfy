/**
 * The skills catalogue: the alias tables TECHNICAL_SKILLS and SOFT_SKILLS,
 * their merge ALL_SKILLS, and SKILLS_LOWERCASE, which a module-level loop
 * fills from ALL_SKILLS. The TECHNICAL_SKILLS display is written in six
 * commented sections; here each section is a constant and the display is
 * their concatenation, in the same order. The key "aws" is written twice,
 * once under cloud and DevOps and once under other technical skills.
 */
module SkillsDatabase {
  import opened Wrappers
  import opened Text
  import opened AliasTable

  /** Programming languages. */
  const ProgrammingLanguages: seq<Entry> := [
    Entry("python", ["python", "py"]),
    Entry("javascript", ["javascript", "js", "nodejs", "node.js"]),
    Entry("java", ["java"]),
    Entry("c++", ["c++", "cpp", "c plus plus"]),
    Entry("csharp", ["c#", "csharp", ".net"]),
    Entry("go", ["golang", "go"]),
    Entry("rust", ["rust"]),
    Entry("ruby", ["ruby", "rails"]),
    Entry("php", ["php"]),
    Entry("swift", ["swift"]),
    Entry("kotlin", ["kotlin"])
  ]

  /** Web technologies. */
  const WebTechnologies: seq<Entry> := [
    Entry("react", ["react", "reactjs"]),
    Entry("angular", ["angular", "angularjs"]),
    Entry("vue", ["vue", "vuejs"]),
    Entry("html", ["html", "html5"]),
    Entry("css", ["css", "css3", "scss", "sass"]),
    Entry("typescript", ["typescript", "ts"]),
    Entry("nodejs", ["nodejs", "node.js", "node"]),
    Entry("express", ["express", "expressjs"]),
    Entry("flask", ["flask"]),
    Entry("django", ["django"]),
    Entry("fastapi", ["fastapi"])
  ]

  /** Databases. */
  const Databases: seq<Entry> := [
    Entry("sql", ["sql", "sqlserver"]),
    Entry("mysql", ["mysql"]),
    Entry("postgresql", ["postgresql", "postgres"]),
    Entry("mongodb", ["mongodb", "mongo"]),
    Entry("redis", ["redis"]),
    Entry("elasticsearch", ["elasticsearch"]),
    Entry("cassandra", ["cassandra"]),
    Entry("dynamodb", ["dynamodb"])
  ]

  /** Cloud and DevOps. */
  const CloudAndDevOps: seq<Entry> := [
    Entry("aws", ["aws", "amazon web services"]),
    Entry("azure", ["azure", "microsoft azure"]),
    Entry("gcp", ["gcp", "google cloud"]),
    Entry("docker", ["docker"]),
    Entry("kubernetes", ["kubernetes", "k8s"]),
    Entry("ci/cd", ["ci/cd", "cicd", "continuous integration", "continuous deployment"]),
    Entry("jenkins", ["jenkins"]),
    Entry("gitlab", ["gitlab"]),
    Entry("github", ["github"]),
    Entry("terraform", ["terraform"]),
    Entry("ansible", ["ansible"])
  ]

  /** Data science and machine learning. */
  const DataScienceAndMl: seq<Entry> := [
    Entry("machine learning", ["machine learning", "ml"]),
    Entry("deep learning", ["deep learning"]),
    Entry("nlp", ["nlp", "natural language processing"]),
    Entry("tensorflow", ["tensorflow"]),
    Entry("pytorch", ["pytorch"]),
    Entry("scikit-learn", ["scikit-learn", "sklearn"]),
    Entry("pandas", ["pandas"]),
    Entry("numpy", ["numpy"]),
    Entry("data analysis", ["data analysis"]),
    Entry("data visualization", ["data visualization", "visualization"]),
    Entry("tableau", ["tableau"]),
    Entry("power bi", ["power bi", "powerbi"])
  ]

  /** Other technical skills. */
  const OtherTechnical: seq<Entry> := [
    Entry("git", ["git", "version control"]),
    Entry("rest api", ["rest api", "restful", "api"]),
    Entry("graphql", ["graphql"]),
    Entry("microservices", ["microservices"]),
    Entry("agile", ["agile"]),
    Entry("scrum", ["scrum"]),
    Entry("linux", ["linux"]),
    Entry("aws", ["aws"]),
    Entry("testing", ["testing", "unit testing", "integration testing"]),
    Entry("junit", ["junit"]),
    Entry("pytest", ["pytest"]),
    Entry("soap", ["soap"]),
    Entry("xml", ["xml"]),
    Entry("json", ["json"])
  ]

  /** The entries of the SOFT_SKILLS display. */
  const SoftSkillsDisplay: seq<Entry> := [
    Entry("communication", ["communication", "communication skills"]),
    Entry("leadership", ["leadership", "leader"]),
    Entry("teamwork", ["teamwork", "team collaboration", "collaboration"]),
    Entry("problem solving", ["problem solving", "analytical"]),
    Entry("project management", ["project management", "pm"]),
    Entry("critical thinking", ["critical thinking"]),
    Entry("time management", ["time management"]),
    Entry("adaptability", ["adaptability", "flexible"])
  ]

  /** The sections before the last one. */
  function FirstSections(): seq<Entry> {
    ProgrammingLanguages + WebTechnologies + Databases + CloudAndDevOps + DataScienceAndMl
  }

  /** The pairs of the TECHNICAL_SKILLS display, in written order: 67 pairs, "aws" twice. */
  function TechnicalSkillsDisplay(): seq<Entry> { FirstSections() + OtherTechnical }

  /** TECHNICAL_SKILLS. */
  function TechnicalSkills(): seq<Entry> { PutAll([], TechnicalSkillsDisplay()) }

  /** SOFT_SKILLS. */
  function SoftSkills(): seq<Entry> { PutAll([], SoftSkillsDisplay) }

  /** ALL_SKILLS = {**TECHNICAL_SKILLS, **SOFT_SKILLS}. */
  function AllSkills(): seq<Entry> { PutAll(PutAll([], TechnicalSkills()), SoftSkills()) }

  // Facts read off the literal, a few at a time: the verifier checks each by
  // evaluating the sections, so each lemma is kept small enough to evaluate.

  /** Names at positions [lo1, hi1) and [lo2, hi2) of p differ, for the pairs in increasing order. */
  predicate UniqueAcross(p: seq<Entry>, lo1: int, hi1: int, lo2: int, hi2: int) {
    forall i, j :: lo1 <= i < hi1 && lo2 <= j < hi2 && 0 <= i < j < |p| ==> p[i].name != p[j].name
  }

  lemma LanguagesUniqueHead() ensures UniqueAcross(ProgrammingLanguages, 0, 6, 0, 6) {}
  lemma LanguagesUniqueTail() ensures UniqueAcross(ProgrammingLanguages, 6, 11, 6, 11) {}
  lemma LanguagesUniqueCross() ensures UniqueAcross(ProgrammingLanguages, 0, 6, 6, 11) {}

  lemma LanguagesUnique()
    ensures UniqueNames(ProgrammingLanguages)
  {
    LanguagesUniqueHead();
    LanguagesUniqueTail();
    LanguagesUniqueCross();
  }

  lemma WebUniqueHead() ensures UniqueAcross(WebTechnologies, 0, 6, 0, 6) {}
  lemma WebUniqueTail() ensures UniqueAcross(WebTechnologies, 6, 11, 6, 11) {}
  lemma WebUniqueCross() ensures UniqueAcross(WebTechnologies, 0, 6, 6, 11) {}

  lemma WebUnique()
    ensures UniqueNames(WebTechnologies)
  {
    WebUniqueHead();
    WebUniqueTail();
    WebUniqueCross();
  }

  lemma CloudUniqueHead() ensures UniqueAcross(CloudAndDevOps, 0, 6, 0, 6) {}
  lemma CloudUniqueTail() ensures UniqueAcross(CloudAndDevOps, 6, 11, 6, 11) {}
  lemma CloudUniqueCross() ensures UniqueAcross(CloudAndDevOps, 0, 6, 6, 11) {}

  lemma CloudUnique()
    ensures UniqueNames(CloudAndDevOps)
  {
    CloudUniqueHead();
    CloudUniqueTail();
    CloudUniqueCross();
  }

  lemma DataScienceUniqueHead() ensures UniqueAcross(DataScienceAndMl, 0, 6, 0, 6) {}
  lemma DataScienceUniqueTail() ensures UniqueAcross(DataScienceAndMl, 6, 12, 6, 12) {}
  lemma DataScienceUniqueCross() ensures UniqueAcross(DataScienceAndMl, 0, 6, 6, 12) {}

  lemma DataScienceUnique()
    ensures UniqueNames(DataScienceAndMl)
  {
    DataScienceUniqueHead();
    DataScienceUniqueTail();
    DataScienceUniqueCross();
  }

  lemma OtherUniqueHead() ensures UniqueAcross(OtherTechnical, 0, 7, 0, 7) {}
  lemma OtherUniqueTail() ensures UniqueAcross(OtherTechnical, 7, 14, 7, 14) {}
  lemma OtherUniqueCross() ensures UniqueAcross(OtherTechnical, 0, 7, 7, 14) {}

  lemma OtherUnique()
    ensures UniqueNames(OtherTechnical)
  {
    OtherUniqueHead();
    OtherUniqueTail();
    OtherUniqueCross();
  }

  lemma DatabasesUnique() ensures UniqueNames(Databases) {}
  lemma SoftUnique() ensures UniqueNames(SoftSkillsDisplay) {}

  lemma WebAfterLanguages() ensures DisjointNames(WebTechnologies, ProgrammingLanguages) {}
  lemma DatabasesAfterLanguages() ensures DisjointNames(Databases, ProgrammingLanguages) {}
  lemma DatabasesAfterWeb() ensures DisjointNames(Databases, WebTechnologies) {}
  lemma CloudAfterLanguages() ensures DisjointNames(CloudAndDevOps, ProgrammingLanguages) {}
  lemma CloudAfterWeb() ensures DisjointNames(CloudAndDevOps, WebTechnologies) {}
  lemma CloudAfterDatabases() ensures DisjointNames(CloudAndDevOps, Databases) {}
  lemma DataScienceAfterLanguages() ensures DisjointNames(DataScienceAndMl, ProgrammingLanguages) {}
  lemma DataScienceAfterWeb() ensures DisjointNames(DataScienceAndMl, WebTechnologies) {}
  lemma DataScienceAfterDatabases() ensures DisjointNames(DataScienceAndMl, Databases) {}
  lemma DataScienceAfterCloud() ensures DisjointNames(DataScienceAndMl, CloudAndDevOps) {}

  /** Names at positions [lo, hi) of p, other than position i0, are no name of t. */
  predicate SharesOnlyAtIn(p: seq<Entry>, lo: int, hi: int, t: seq<Entry>, i0: int) {
    forall i, j :: lo <= i < hi && 0 <= i < |p| && 0 <= j < |t| && p[i].name == t[j].name ==> i == i0
  }

  lemma OtherHeadAfterLanguages() ensures SharesOnlyAtIn(OtherTechnical, 0, 7, ProgrammingLanguages, 7) {}
  lemma OtherTailAfterLanguages() ensures SharesOnlyAtIn(OtherTechnical, 7, 14, ProgrammingLanguages, 7) {}
  lemma OtherHeadAfterWeb() ensures SharesOnlyAtIn(OtherTechnical, 0, 7, WebTechnologies, 7) {}
  lemma OtherTailAfterWeb() ensures SharesOnlyAtIn(OtherTechnical, 7, 14, WebTechnologies, 7) {}
  lemma OtherHeadAfterDatabases() ensures SharesOnlyAtIn(OtherTechnical, 0, 7, Databases, 7) {}
  lemma OtherTailAfterDatabases() ensures SharesOnlyAtIn(OtherTechnical, 7, 14, Databases, 7) {}
  lemma OtherHeadAfterCloud() ensures SharesOnlyAtIn(OtherTechnical, 0, 7, CloudAndDevOps, 7) {}
  lemma OtherTailAfterCloud() ensures SharesOnlyAtIn(OtherTechnical, 7, 14, CloudAndDevOps, 7) {}
  lemma OtherHeadAfterDataScience() ensures SharesOnlyAtIn(OtherTechnical, 0, 7, DataScienceAndMl, 7) {}
  lemma OtherTailAfterDataScience() ensures SharesOnlyAtIn(OtherTechnical, 7, 14, DataScienceAndMl, 7) {}

  lemma SoftAfterLanguages() ensures DisjointNames(SoftSkillsDisplay, ProgrammingLanguages) {}
  lemma SoftAfterWeb() ensures DisjointNames(SoftSkillsDisplay, WebTechnologies) {}
  lemma SoftAfterDatabases() ensures DisjointNames(SoftSkillsDisplay, Databases) {}
  lemma SoftAfterCloud() ensures DisjointNames(SoftSkillsDisplay, CloudAndDevOps) {}
  lemma SoftAfterDataScience() ensures DisjointNames(SoftSkillsDisplay, DataScienceAndMl) {}
  lemma SoftAfterOther() ensures DisjointNames(SoftSkillsDisplay, OtherTechnical) {}

  lemma LanguagesAliases()
    ensures NamesInAliases(ProgrammingLanguages) && OnlyUnder(ProgrammingLanguages, "amazon web services", "aws")
  {
  }

  lemma WebAliases()
    ensures NamesInAliases(WebTechnologies) && OnlyUnder(WebTechnologies, "amazon web services", "aws")
  {
  }

  lemma DatabasesAliases()
    ensures NamesInAliases(Databases) && OnlyUnder(Databases, "amazon web services", "aws")
  {
  }

  lemma CloudAliases()
    ensures NamesInAliases(CloudAndDevOps) && OnlyUnder(CloudAndDevOps, "amazon web services", "aws")
  {
  }

  lemma DataScienceAliases()
    ensures NamesInAliases(DataScienceAndMl) && OnlyUnder(DataScienceAndMl, "amazon web services", "aws")
  {
  }

  lemma OtherAliases()
    ensures NamesInAliases(OtherTechnical) && OnlyUnder(OtherTechnical, "amazon web services", "aws")
    ensures OtherTechnical[7] == Entry("aws", ["aws"]) && CloudAndDevOps[0].name == "aws"
  {
  }

  lemma SoftAliases()
    ensures NamesInAliases(SoftSkillsDisplay) && OnlyUnder(SoftSkillsDisplay, "amazon web services", "aws")
  {
  }

  // What the literal makes of TECHNICAL_SKILLS, SOFT_SKILLS and ALL_SKILLS.

  /** The sections before the last repeat no key. */
  lemma FirstSectionsUnique()
    ensures UniqueNames(FirstSections())
  {
    LanguagesUnique();
    WebUnique();
    DatabasesUnique();
    CloudUnique();
    DataScienceUnique();
    var pl, web, db, cloud, ds := ProgrammingLanguages, WebTechnologies, Databases, CloudAndDevOps, DataScienceAndMl;
    WebAfterLanguages();
    UniqueConcat(pl, web);
    DatabasesAfterLanguages();
    DatabasesAfterWeb();
    DisjointFromConcat(db, pl, web);
    UniqueConcat(pl + web, db);
    CloudAfterLanguages();
    CloudAfterWeb();
    CloudAfterDatabases();
    DisjointFromConcat(cloud, pl, web);
    DisjointFromConcat(cloud, pl + web, db);
    UniqueConcat(pl + web + db, cloud);
    DataScienceAfterLanguages();
    DataScienceAfterWeb();
    DataScienceAfterDatabases();
    DataScienceAfterCloud();
    DisjointFromConcat(ds, pl, web);
    DisjointFromConcat(ds, pl + web, db);
    DisjointFromConcat(ds, pl + web + db, cloud);
    UniqueConcat(pl + web + db + cloud, ds);
  }

  /** The last section repeats only its "aws" pair from the earlier ones. */
  lemma OtherSharesOnlyAws()
    ensures SharesOnlyAt(OtherTechnical, FirstSections(), 7)
    ensures HasName(FirstSections(), "aws")
  {
    var pl, web, db, cloud, ds := ProgrammingLanguages, WebTechnologies, Databases, CloudAndDevOps, DataScienceAndMl;
    OtherHeadAfterLanguages();
    OtherTailAfterLanguages();
    OtherHeadAfterWeb();
    OtherTailAfterWeb();
    OtherHeadAfterDatabases();
    OtherTailAfterDatabases();
    OtherHeadAfterCloud();
    OtherTailAfterCloud();
    OtherHeadAfterDataScience();
    OtherTailAfterDataScience();
    SharesOnlyAtConcat(OtherTechnical, pl, web, 7);
    SharesOnlyAtConcat(OtherTechnical, pl + web, db, 7);
    SharesOnlyAtConcat(OtherTechnical, pl + web + db, cloud, 7);
    SharesOnlyAtConcat(OtherTechnical, pl + web + db + cloud, ds, 7);
    OtherAliases();
    assert FirstSections()[30] == cloud[0];
    HasNameIndex(FirstSections(), "aws");
  }

  /** No soft-skill key is a technical key. */
  lemma SoftNotTechnical()
    ensures DisjointNames(SoftSkillsDisplay, TechnicalSkillsDisplay())
  {
    var soft, pl, web, db, cloud, ds := SoftSkillsDisplay, ProgrammingLanguages, WebTechnologies, Databases, CloudAndDevOps, DataScienceAndMl;
    SoftAfterLanguages();
    SoftAfterWeb();
    SoftAfterDatabases();
    SoftAfterCloud();
    SoftAfterDataScience();
    SoftAfterOther();
    DisjointFromConcat(soft, pl, web);
    DisjointFromConcat(soft, pl + web, db);
    DisjointFromConcat(soft, pl + web + db, cloud);
    DisjointFromConcat(soft, pl + web + db + cloud, ds);
    DisjointFromConcat(soft, FirstSections(), OtherTechnical);
  }

  /** TECHNICAL_SKILLS holds 66 keys: the 67 pairs of its display with "aws" collapsed. */
  lemma TechnicalSkillsSize()
    ensures |TechnicalSkills()| == 66
  {
    FirstSectionsUnique();
    OtherUnique();
    OtherSharesOnlyAws();
    PutAllConcat([], FirstSections(), OtherTechnical);
    PutAllCopy(FirstSections());
    PutAllOneSharedLength(FirstSections(), OtherTechnical, 7);
  }

  /** SOFT_SKILLS is its display: eight distinct keys. */
  lemma SoftSkillsIsDisplay()
    ensures SoftSkills() == SoftSkillsDisplay
    ensures |SoftSkills()| == 8
  {
    SoftUnique();
    PutAllCopy(SoftSkillsDisplay);
  }

  /** ALL_SKILLS is TECHNICAL_SKILLS followed by SOFT_SKILLS: no key is shared, so every entry of both survives. */
  lemma AllSkillsMerge()
    ensures AllSkills() == TechnicalSkills() + SoftSkills()
    ensures UniqueNames(AllSkills())
  {
    SoftSkillsIsDisplay();
    SoftUnique();
    PutAllShape([], TechnicalSkillsDisplay());
    SoftNotTechnical();
    forall k | HasName(SoftSkills(), k) ensures !HasName(TechnicalSkills(), k) {
      DisjointNoName(SoftSkillsDisplay, TechnicalSkillsDisplay(), k);
    }
    MergeDisjoint(TechnicalSkills(), SoftSkills());
    PutAllShape(PutAll([], TechnicalSkills()), SoftSkills());
    PutAllShape([], TechnicalSkills());
  }

  /** The catalogue holds 74 canonical skills, at least the 50 the catalogue promises. */
  lemma CatalogueSize()
    ensures |AllSkills()| == 74
  {
    AllSkillsMerge();
    TechnicalSkillsSize();
    SoftSkillsIsDisplay();
  }

  /** Every entry of ALL_SKILLS is a pair written in one of the two displays. */
  lemma AllSkillsEntry(e: Entry)
    requires e in AllSkills()
    ensures e in TechnicalSkillsDisplay() || e in SoftSkillsDisplay
  {
    AllSkillsMerge();
    SoftSkillsIsDisplay();
    if e in TechnicalSkills() {
      BuiltEntry(TechnicalSkillsDisplay(), e);
    }
  }

  lemma TechnicalAliases()
    ensures NamesInAliases(TechnicalSkillsDisplay())
    ensures OnlyUnder(TechnicalSkillsDisplay(), "amazon web services", "aws")
  {
    LanguagesAliases();
    WebAliases();
    DatabasesAliases();
    CloudAliases();
    DataScienceAliases();
    OtherAliases();
  }

  /** Every alias list is non-empty and lists its own canonical key. */
  lemma AliasListsNameTheirKey()
    ensures forall e :: e in AllSkills() ==> e.name in e.aliases && e.aliases != []
  {
    TechnicalAliases();
    SoftAliases();
    forall e | e in AllSkills() ensures e.name in e.aliases {
      AllSkillsEntry(e);
    }
  }

  /**
   * The later "aws" pair wins: the key maps to ["aws"] only, and the alias
   * "amazon web services" of the earlier pair belongs to no skill.
   */
  lemma AwsLaterBindingWins()
    ensures Lookup(AllSkills(), "aws") == Some(["aws"])
    ensures forall e :: e in AllSkills() ==> "amazon web services" !in e.aliases
  {
    AllSkillsMerge();
    OtherUnique();
    OtherAliases();
    OtherSharesOnlyAws();
    LastValueOnce(OtherTechnical, 7);
    LastValueConcat(FirstSections(), OtherTechnical, "aws");
    PutAllLookup([], TechnicalSkillsDisplay(), "aws");
    LookupSomeIffHasName(TechnicalSkills(), "aws");
    LookupConcat(TechnicalSkills(), SoftSkills(), "aws");
    TechnicalAliases();
    SoftAliases();
    forall e | e in AllSkills() ensures "amazon web services" !in e.aliases {
      AllSkillsEntry(e);
      LookupFinds(AllSkills(), e);
    }
  }

  /** A technical key written once in the display keeps the alias list written for it. */
  lemma TechnicalKeyWrittenOnce(i: int)
    requires 0 <= i < |TechnicalSkillsDisplay()| && TechnicalSkillsDisplay()[i].name != "aws"
    ensures Lookup(AllSkills(), TechnicalSkillsDisplay()[i].name) == Some(TechnicalSkillsDisplay()[i].aliases)
  {
    var td, f := TechnicalSkillsDisplay(), FirstSections();
    var k := td[i].name;
    FirstSectionsUnique();
    OtherUnique();
    OtherSharesOnlyAws();
    OtherAliases();
    forall j | 0 <= j < |td| && j != i ensures td[j].name != k {
      if i < |f| && j >= |f| {
        assert td[j] == OtherTechnical[j - |f|] && td[i] == f[i];
      } else if i >= |f| && j < |f| {
        assert td[i] == OtherTechnical[i - |f|] && td[j] == f[j];
      } else if i >= |f| {
        assert td[i] == OtherTechnical[i - |f|] && td[j] == OtherTechnical[j - |f|];
      }
    }
    LastValueOnce(td, i);
    PutAllLookup([], td, k);
    AllSkillsMerge();
    LookupSomeIffHasName(TechnicalSkills(), k);
    LookupConcat(TechnicalSkills(), SoftSkills(), k);
  }

  /** "nodejs" and "node.js" are aliases of both "javascript" and "nodejs". */
  lemma NodeAliasesShared()
    ensures Lookup(AllSkills(), "javascript") == Some(["javascript", "js", "nodejs", "node.js"])
    ensures Lookup(AllSkills(), "nodejs") == Some(["nodejs", "node.js", "node"])
  {
    assert TechnicalSkillsDisplay()[1] == Entry("javascript", ["javascript", "js", "nodejs", "node.js"]);
    assert TechnicalSkillsDisplay()[17] == Entry("nodejs", ["nodejs", "node.js", "node"]);
    TechnicalKeyWrittenOnce(1);
    TechnicalKeyWrittenOnce(17);
  }

  // SKILLS_LOWERCASE.

  /** Each key with its alias list lower-cased. */
  function Lowercased(t: seq<Entry>): seq<Entry> {
    seq(|t|, i requires 0 <= i < |t| => Entry(t[i].name, LowerAll(t[i].aliases)))
  }

  /** SKILLS_LOWERCASE, the table the loop below fills. */
  function SkillsLowercase(): seq<Entry> { Lowercased(AllSkills()) }

  /** Lower-casing the alias lists keeps the keys and maps each list elementwise. */
  lemma {:induction false} LowercasedLookup(t: seq<Entry>, k: string)
    ensures Lookup(Lowercased(t), k) == if Lookup(t, k).Some? then Some(LowerAll(Lookup(t, k).value)) else None
    ensures HasName(Lowercased(t), k) <==> HasName(t, k)
  {
    if t != [] {
      assert Lowercased(t)[1..] == Lowercased(t[1..]);
      LowercasedLookup(t[1..], k);
    }
  }

  /**
   * SKILLS_LOWERCASE has exactly the 74 keys of ALL_SKILLS, in the same order,
   * and maps each to its alias list lower-cased element by element.
   */
  lemma SkillsLowercaseSpec()
    ensures |SkillsLowercase()| == |AllSkills()| == 74
    ensures forall i :: 0 <= i < 74 ==> SkillsLowercase()[i].name == AllSkills()[i].name
    ensures forall k :: (Lookup(SkillsLowercase(), k) ==
                           if Lookup(AllSkills(), k).Some? then Some(LowerAll(Lookup(AllSkills(), k).value)) else None)
    ensures UniqueNames(SkillsLowercase())
  {
    CatalogueSize();
    AllSkillsMerge();
    forall k ensures Lookup(SkillsLowercase(), k) ==
      if Lookup(AllSkills(), k).Some? then Some(LowerAll(Lookup(AllSkills(), k).value)) else None
    {
      LowercasedLookup(AllSkills(), k);
    }
  }

  /**
   * The module-level loop that fills SKILLS_LOWERCASE: for each entry of a
   * dict (distinct keys) in order, the key with its aliases lower-cased one
   * by one; the module runs it over AllSkills().
   */
  method BuildSkillsLowercase(all: seq<Entry>) returns (lower: seq<Entry>)
    requires UniqueNames(all)
    ensures lower == Lowercased(all)
  {
    lower := [];
    var i := 0;
    while i < |all|
      invariant 0 <= i <= |all|
      invariant lower == Lowercased(all[..i])
    {
      var e := all[i];
      forall j | 0 <= j < i ensures lower[j].name != e.name {
        assert lower[j].name == all[j].name;
      }
      HasNameIndex(lower, e.name);
      PutAppends(lower, e.name, LowerAll(e.aliases));
      lower := Put(lower, e.name, LowerAll(e.aliases));
      assert all[..i + 1] == all[..i] + [e];
      i := i + 1;
    }
    assert all[..i] == all;
  }
}
