/**
 * The response and report helpers of the scoring service: file-name
 * checks, the per-candidate score report, the summary of a ranked list and
 * the two response envelopes. Timestamps are a parameter; the rounding of
 * reported percentages is not modelled.
 */
module Utils {
  import opened Wrappers
  import opened Text
  import opened SkillMatcher

  // File names

  /**
   * `filename.rsplit('.', 1)` for a name containing '.': the text before the
   * last '.' and the text after it.
   */
  function Stem(filename: string): string {
    var parts := Split(filename, '.');
    Join(parts[..|parts| - 1], ".")
  }

  function Extension(filename: string): string {
    var parts := Split(filename, '.');
    parts[|parts| - 1]
  }

  lemma {:induction false} JoinSnoc(parts: seq<string>, sep: string)
    requires |parts| >= 2
    ensures Join(parts, sep) == Join(parts[..|parts| - 1], sep) + sep + parts[|parts| - 1]
  {
    if |parts| > 2 {
      var t, init := parts[1..], parts[..|parts| - 1];
      JoinSnoc(t, sep);
      assert t[..|t| - 1] == init[1..];
      assert Join(init, sep) == parts[0] + sep + Join(init[1..], sep);
      assert Join(parts, sep) == parts[0] + sep + (Join(init[1..], sep) + sep + parts[|parts| - 1]);
    } else {
      assert parts[..1] == [parts[0]];
    }
  }

  /** A name with a '.' is its stem, the last '.', and an extension that holds no '.'. */
  lemma StemExtension(filename: string)
    requires '.' in filename
    ensures Stem(filename) + "." + Extension(filename) == filename
    ensures '.' !in Extension(filename)
  {
    var parts := Split(filename, '.');
    JoinSplit(filename, '.');
    if |parts| == 1 {
      assert false;
    }
    JoinSnoc(parts, ".");
  }

  /** validate_file_extension: the text after the last '.', lower-cased, is one of the allowed extensions. */
  function ValidateFileExtension(filename: string, allowedExtensions: seq<string>): bool {
    if '.' !in filename then false
    else Lower(Extension(filename)) in allowedExtensions
  }

  /**
   * A name passes exactly when it splits as stem, '.', and an extension with
   * no '.' whose lower-cased form is allowed.
   */
  lemma ValidateFileExtensionSpec(filename: string, allowedExtensions: seq<string>)
    ensures ValidateFileExtension(filename, allowedExtensions) <==>
      exists stem, ext :: filename == stem + "." + ext && '.' !in ext && Lower(ext) in allowedExtensions
  {
    if '.' in filename {
      StemExtension(filename);
      if ValidateFileExtension(filename, allowedExtensions) {
        assert filename == Stem(filename) + "." + Extension(filename);
      }
      forall stem, ext | filename == stem + "." + ext && '.' !in ext
        ensures ext == Extension(filename)
      {
        StemExtensionUnique(filename, stem, ext);
      }
    }
  }

  /** The extension after the last '.' is the only dot-free suffix after a '.'. */
  lemma StemExtensionUnique(filename: string, stem: string, ext: string)
    requires filename == stem + "." + ext && '.' !in ext
    ensures ext == Extension(filename) && stem == Stem(filename)
  {
    var parts := Split(stem, '.');
    SplitNoSep(ext, '.');
    assert filename == stem + (['.'] + ext);
    SplitAppend(stem, ext, '.');
    assert Split(filename, '.') == parts + [ext];
    assert (parts + [ext])[..|parts|] == parts;
    JoinSplit(stem, '.');
  }

  /** Splitting `a + sep + b`, where b has no separator, gives a's pieces and then b. */
  lemma {:induction false} SplitAppend(a: string, b: string, sep: char)
    requires sep !in b
    ensures Split(a + ([sep] + b), sep) == Split(a, sep) + [b]
  {
    if |a| == 0 {
      assert a + ([sep] + b) == [sep] + b;
      SplitNoSep(b, sep);
    } else {
      var whole := a + ([sep] + b);
      var rest := Split(a[1..], sep);
      assert Split(whole[1..], sep) == rest + [b] by {
        assert whole[1..] == a[1..] + ([sep] + b);
        SplitAppend(a[1..], b, sep);
      }
      assert whole[0] == a[0];
      if a[0] != sep {
        assert (rest + [b])[0] == rest[0];
        assert (rest + [b])[1..] == rest[1..] + [b];
      }
    }
  }

  /** An upper-case extension is accepted: the comparison is on the lower-cased extension. */
  lemma ValidateAcceptsUpperCase()
    ensures ValidateFileExtension("CV.PDF", ["pdf", "docx"])
  {
    assert "CV.PDF" == "CV" + "." + "PDF";
    StemExtensionUnique("CV.PDF", "CV", "PDF");
    assert Lower("PDF") == "pdf";
  }

  /** A trailing '.' gives an empty extension, and a name without '.' has none. */
  lemma ValidateRejectsExamples()
    ensures !ValidateFileExtension("x.", ["pdf", "docx"])
    ensures !ValidateFileExtension("resume", ["pdf", "docx"])
  {
    assert "x." == "x" + "." + "";
    StemExtensionUnique("x.", "x", "");
  }

  /** Every occurrence of a replaced by b: `str.replace` for single characters. */
  function ReplaceChar(s: string, a: char, b: char): (r: string)
    ensures |r| == |s|
    ensures forall i :: 0 <= i < |s| ==> r[i] == if s[i] == a then b else s[i]
  {
    seq(|s|, i requires 0 <= i < |s| => if s[i] == a then b else s[i])
  }

  /** Whether a character has case: a letter, on ASCII. */
  predicate IsCased(c: char) { IsLetter(c) }

  /**
   * Python's str.title() on ASCII: a letter is upper-cased when the
   * character before it is not a letter, lower-cased otherwise; other
   * characters are kept.
   */
  function TitleFrom(s: string, afterCased: bool): (r: string)
    ensures |r| == |s|
  {
    if s == [] then []
    else
      var c := s[0];
      var d := if !IsCased(c) then c else if afterCased then LowerChar(c) else UpperChar(c);
      [d] + TitleFrom(s[1..], IsCased(c))
  }

  function Title(s: string): string { TitleFrom(s, false) }

  /** Title-casing changes only letters, keeps letters letters, and is idempotent. */
  lemma {:induction false} TitleSpec(s: string, afterCased: bool)
    ensures var r := TitleFrom(s, afterCased);
      && (forall i :: 0 <= i < |s| ==> (IsCased(r[i]) <==> IsCased(s[i])))
      && (forall i :: 0 <= i < |s| && !IsCased(s[i]) ==> r[i] == s[i])
      && TitleFrom(r, afterCased) == r
  {
    if s != [] {
      TitleSpec(s[1..], IsCased(s[0]));
      var r := TitleFrom(s, afterCased);
      assert r[1..] == TitleFrom(s[1..], IsCased(s[0]));
      assert IsCased(r[0]) == IsCased(s[0]);
      assert TitleFrom(r, afterCased) == [r[0]] + TitleFrom(r[1..], IsCased(r[0]));
    }
  }

  /** sanitize_filename: drop the last extension, '_' and '-' to spaces, title-case, strip. */
  function SanitizeFilename(filename: string): string {
    CleanName(if '.' in filename then Stem(filename) else filename)
  }

  /**
   * The sanitised name has no '_', no '-' and no whitespace at either end.
   */
  lemma SanitizeFilenameSpec(filename: string)
    ensures var r := SanitizeFilename(filename);
      && '_' !in r && '-' !in r
      && (r == [] || (!IsSpace(r[0]) && !IsSpace(r[|r| - 1])))
  {
    var name := if '.' in filename then Stem(filename) else filename;
    CleanNameSpec(name);
    assert SanitizeFilename(filename) == CleanName(name);
  }

  /** The name part of sanitize_filename, after the extension is gone. */
  function CleanName(name: string): string {
    Strip(Title(ReplaceChar(ReplaceChar(name, '_', ' '), '-', ' ')))
  }

  lemma CleanNameSpec(name: string)
    ensures var r := CleanName(name);
      && '_' !in r && '-' !in r
      && (r == [] || (!IsSpace(r[0]) && !IsSpace(r[|r| - 1])))
  {
    var u1 := ReplaceChar(name, '_', ' ');
    var u := ReplaceChar(u1, '-', ' ');
    ReplaceKeepsAbsent(u1, '-', ' ', '_');
    var t := Title(u);
    TitleKeepsAbsent(u, false, '_');
    TitleKeepsAbsent(u, false, '-');
    StripKeepsAbsent(t, '_');
    StripKeepsAbsent(t, '-');
    StripSpec(t);
  }

  /** Replacing one character by another that is not c brings no c in. */
  lemma ReplaceKeepsAbsent(s: string, a: char, b: char, c: char)
    requires c !in s && b != c
    ensures c !in ReplaceChar(s, a, b)
  {
    var r := ReplaceChar(s, a, b);
    forall i | 0 <= i < |r| ensures r[i] != c {
      assert s[i] != c;
    }
  }

  /** Title-casing brings in no character that is not a letter. */
  lemma TitleKeepsAbsent(s: string, afterCased: bool, c: char)
    requires c !in s && !IsCased(c)
    ensures c !in TitleFrom(s, afterCased)
  {
    var r := TitleFrom(s, afterCased);
    TitleSpec(s, afterCased);
    forall i | 0 <= i < |r| ensures r[i] != c {
      assert s[i] != c;
    }
  }

  /** Title-casing a concatenation: the second part continues after the first's last character. */
  lemma {:induction false} TitleAppend(a: string, b: string, afterCased: bool)
    requires a != []
    ensures TitleFrom(a + b, afterCased) == TitleFrom(a, afterCased) + TitleFrom(b, IsCased(a[|a| - 1]))
  {
    assert (a + b)[1..] == a[1..] + b;
    if |a| > 1 {
      TitleAppend(a[1..], b, IsCased(a[0]));
    }
  }

  // Reports

  /** The `skill_match` part of format_score_report. */
  datatype SkillReport = SkillReport(
    score: real,
    percentage: real,
    matchedSkills: seq<string>,
    missingSkills: seq<string>,
    additionalSkills: seq<string>,
    matchedCount: nat,
    requiredCount: nat)

  /** format_score_report's dict; the semantic explanation's formatted percentage is left out. */
  datatype ScoreReport = ScoreReport(
    candidateName: string,
    rank: Option<nat>,
    finalScore: real,
    finalScorePercentage: real,
    semanticSimilarity: real,
    semanticSimilarityPercentage: real,
    skillMatch: SkillReport,
    matchedSkillsExplanation: string,
    missingSkillsExplanation: string)

  /** A ranked report: the fields of score_candidate with the rank rank_candidates wrote. */
  datatype Ranked = Ranked(score: CandidateScore, rank: Option<nat>)

  function MissingText(missing: seq<string>): string {
    if missing != [] then Join(missing, ", ") else "None"
  }

  /** format_score_report. */
  function FormatScoreReport(c: Ranked): ScoreReport {
    var s := c.score;
    var m := s.skillMatch;
    ScoreReport(
      s.candidateName, c.rank, s.finalScore, s.finalScorePercentage,
      s.semanticSimilarity, s.semanticSimilarity * 100.0,
      SkillReport(m.score, m.matchPercentage, m.matchedSkills, m.missingSkills, m.additionalSkills,
                  m.matchedCount, m.requiredCount),
      "Found " + NatToString(m.matchedCount) + " out of " + NatToString(m.requiredCount) + " required skills.",
      "Missing " + NatToString(|m.missingSkills|) + " required skills: " + MissingText(m.missingSkills))
  }

  /** The report copies the name, the rank, the final score and the three skill lists. */
  lemma FormatScoreReportCopies(c: Ranked)
    ensures var r := FormatScoreReport(c);
            var m := c.score.skillMatch;
      && r.rank == c.rank && r.candidateName == c.score.candidateName
      && r.finalScore == c.score.finalScore
      && r.skillMatch.matchedSkills == m.matchedSkills
      && r.skillMatch.missingSkills == m.missingSkills
      && r.skillMatch.additionalSkills == m.additionalSkills
  {
  }

  /** The matched explanation carries the two counts as decimal digit strings. */
  lemma FormatScoreReportFound(c: Ranked)
    ensures var r := FormatScoreReport(c);
            var m := c.score.skillMatch;
      exists n, k :: r.matchedSkillsExplanation == "Found " + n + " out of " + k + " required skills."
        && (forall i :: 0 <= i < |n| ==> IsDigit(n[i])) && (forall i :: 0 <= i < |k| ==> IsDigit(k[i]))
        && DigitsValue(n) == m.matchedCount && DigitsValue(k) == m.requiredCount
  {
    var m := c.score.skillMatch;
    NatToStringValue(m.matchedCount);
    NatToStringValue(m.requiredCount);
    var n, k := NatToString(m.matchedCount), NatToString(m.requiredCount);
    assert FormatScoreReport(c).matchedSkillsExplanation == "Found " + n + " out of " + k + " required skills.";
  }

  /**
   * The missing explanation carries the number of missing skills and their
   * list, or "None" when there are none.
   */
  lemma FormatScoreReportMissing(c: Ranked)
    ensures var r := FormatScoreReport(c);
            var m := c.score.skillMatch;
      && (m.missingSkills == [] ==> r.missingSkillsExplanation == "Missing 0 required skills: None")
      && (m.missingSkills != [] ==>
            r.missingSkillsExplanation ==
              "Missing " + NatToString(|m.missingSkills|) + " required skills: " + Join(m.missingSkills, ", "))
  {
    var m := c.score.skillMatch;
    if m.missingSkills == [] {
      assert NatToString(|m.missingSkills|) == "0";
    } else {
      assert MissingText(m.missingSkills) == Join(m.missingSkills, ", ");
    }
  }

  /** One entry of candidates_summary. */
  datatype SummaryEntry = SummaryEntry(
    rank: Option<nat>,
    candidateName: string,
    finalScore: real,
    finalScorePercentage: real,
    matchedSkills: nat,
    requiredSkills: nat)

  /** generate_summary_report's dict: the four-key form for no candidates, the full form otherwise. */
  datatype SummaryReport =
    | EmptySummary
    | Summary(
        totalCandidates: nat,
        averageScore: real,
        averageScorePercentage: real,
        topCandidate: string,
        topCandidateScore: real,
        candidatesSummary: seq<SummaryEntry>)

  function SumFinal(cs: seq<Ranked>): real {
    if cs == [] then 0.0 else SumFinal(cs[..|cs| - 1]) + cs[|cs| - 1].score.finalScore
  }

  function SummaryEntryOf(c: Ranked): SummaryEntry {
    SummaryEntry(c.rank, c.score.candidateName, c.score.finalScore, c.score.finalScorePercentage,
                 c.score.skillMatch.matchedCount, c.score.skillMatch.requiredCount)
  }

  /** generate_summary_report. */
  function GenerateSummaryReport(ranked: seq<Ranked>): SummaryReport {
    if ranked == [] then EmptySummary
    else
      var average := SumFinal(ranked) / |ranked| as real;
      Summary(|ranked|, average, average * 100.0, ranked[0].score.candidateName, ranked[0].score.finalScore,
              seq(|ranked|, i requires 0 <= i < |ranked| => SummaryEntryOf(ranked[i])))
  }

  /** The summary's total, average-score, top-candidate and entry-list keys, uniformly over both forms. */
  function TotalCandidates(r: SummaryReport): nat { if r.EmptySummary? then 0 else r.totalCandidates }
  function AverageScore(r: SummaryReport): real { if r.EmptySummary? then 0.0 else r.averageScore }
  function TopCandidate(r: SummaryReport): Option<string> { if r.EmptySummary? then None else Some(r.topCandidate) }
  function CandidatesSummary(r: SummaryReport): seq<SummaryEntry> { if r.EmptySummary? then [] else r.candidatesSummary }

  lemma {:induction false} SumFinalBounds(cs: seq<Ranked>, lo: real, hi: real)
    requires forall i :: 0 <= i < |cs| ==> lo <= cs[i].score.finalScore <= hi
    ensures |cs| as real * lo <= SumFinal(cs) <= |cs| as real * hi
  {
    if cs != [] {
      SumFinalBounds(cs[..|cs| - 1], lo, hi);
    }
  }

  /**
   * The summary counts the candidates, names the first as top, lists one
   * entry per candidate in input order, and its average lies within the
   * bounds of the final scores; no candidates give total 0, average 0 and
   * no top candidate.
   */
  lemma SummarySpec(ranked: seq<Ranked>, lo: real, hi: real)
    requires forall i :: 0 <= i < |ranked| ==> lo <= ranked[i].score.finalScore <= hi
    ensures var r := GenerateSummaryReport(ranked);
      && TotalCandidates(r) == |ranked|
      && (ranked == [] ==> AverageScore(r) == 0.0 && TopCandidate(r) == None && CandidatesSummary(r) == [])
      && (ranked != [] ==>
            && TopCandidate(r) == Some(ranked[0].score.candidateName)
            && lo <= AverageScore(r) <= hi
            && r.averageScorePercentage == AverageScore(r) * 100.0)
      && |CandidatesSummary(r)| == |ranked|
      && (forall i :: 0 <= i < |ranked| ==>
            CandidatesSummary(r)[i].rank == ranked[i].rank
            && CandidatesSummary(r)[i].candidateName == ranked[i].score.candidateName
            && CandidatesSummary(r)[i].finalScore == ranked[i].score.finalScore)
  {
    if ranked != [] {
      SumFinalBounds(ranked, lo, hi);
      var n := |ranked| as real;
      AverageBetween(SumFinal(ranked), n, lo, hi);
    }
  }

  lemma AverageBetween(sum: real, n: real, lo: real, hi: real)
    requires n > 0.0 && n * lo <= sum <= n * hi
    ensures lo <= sum / n <= hi
  {
    assert sum / n * n == sum;
  }

  // Response envelopes

  /** The response dicts; `timestamp` is the caller's clock reading. */
  datatype Response<D> =
    | ErrorResponse(errorCode: string, message: string, timestamp: string, details: Option<string>)
    | SuccessResponse(message: string, data: D, timestamp: string)

  function Status<D>(r: Response<D>): string {
    if r.ErrorResponse? then "error" else "success"
  }

  /** create_error_response: `details` is included only when given and non-empty. */
  function CreateErrorResponse<D>(errorCode: string, errorMessage: string, details: Option<string>,
                                  timestamp: string): Response<D>
  {
    ErrorResponse(errorCode, errorMessage, timestamp,
                  if details.Some? && details.value != "" then details else None)
  }

  /** create_success_response. */
  function CreateSuccessResponse<D>(data: D, message: string, timestamp: string): Response<D> {
    SuccessResponse(message, data, timestamp)
  }

  /** An error response has status "error" and carries details exactly when they were given and non-empty. */
  lemma ErrorResponseSpec<D>(errorCode: string, errorMessage: string, details: Option<string>, timestamp: string)
    ensures var r: Response<D> := CreateErrorResponse(errorCode, errorMessage, details, timestamp);
      && Status(r) == "error" && r.errorCode == errorCode && r.message == errorMessage
      && (r.details.Some? <==> details.Some? && details.value != "")
      && (r.details.Some? ==> r.details == details)
  {
  }

  /** A success response has status "success" and carries the data and message it was given. */
  lemma SuccessResponseSpec<D>(data: D, message: string, timestamp: string)
    ensures var r := CreateSuccessResponse(data, message, timestamp);
      && Status(r) == "success" && r.data == data && r.message == message
  {
  }
}
