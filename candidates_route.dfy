/**
 * The candidate route of the Node backend: how a POSTed candidate's skills,
 * experience and resume text are read from the request, and the keyword
 * shortlist, which scores each stored candidate by the keywords found in
 * their text and returns the matching ones, best first.
 */
module CandidatesRoute {
  import opened Wrappers
  import opened Text
  import opened StableSort

  // POST /api/candidates

  /** The `skills` field of the request body: an array, a comma-separated string, or absent. */
  datatype SkillsField = SkillsList(items: seq<string>) | SkillsText(text: string) | SkillsAbsent

  /** The skills of the POST body: an array as given, a string split on ',' with each piece trimmed, [] when absent. */
  function ParseSkills(field: SkillsField): seq<string> {
    match field
    case SkillsList(items) => items
    case SkillsText(text) => if text == "" then [] else TrimAll(Split(text, ','))
    case SkillsAbsent => []
  }

  /**
   * A non-empty string gives one skill per comma-separated piece, empty
   * pieces kept; each skill is trimmed and holds no comma.
   */
  lemma ParseSkillsText(text: string)
    requires text != ""
    ensures var r := ParseSkills(SkillsText(text));
      && |r| == |Split(text, ',')|
      && forall i :: 0 <= i < |r| ==> ',' !in r[i] && Trim(r[i]) == r[i]
  {
    var pieces := Split(text, ',');
    forall i | 0 <= i < |pieces| ensures ',' !in Trim(pieces[i]) && Trim(Trim(pieces[i])) == Trim(pieces[i]) {
      TrimKeepsAbsent(pieces[i], ',');
      TrimIdempotent(pieces[i]);
    }
  }

  /** Trimmed, comma-free skills joined with ',' are read back as they were. */
  lemma ParseSkillsRoundTrip(items: seq<string>)
    requires |items| >= 1 && Join(items, ",") != ""
    requires forall i :: 0 <= i < |items| ==> ',' !in items[i] && Trim(items[i]) == items[i]
    ensures ParseSkills(SkillsText(Join(items, ","))) == items
  {
    assert "," == [','];
    SplitJoin(items, ',');
    TrimAllTrimmed(items);
  }

  lemma TrimAllTrimmed(items: seq<string>)
    requires forall i :: 0 <= i < |items| ==> Trim(items[i]) == items[i]
    ensures TrimAll(items) == items
  {
  }

  /** An empty piece between two commas is kept as an empty skill. */
  lemma ParseSkillsKeepsEmpty(a: string, b: string)
    requires ',' !in a && ',' !in b
    ensures ParseSkills(SkillsText(a + ",," + b)) == [Trim(a), "", Trim(b)]
  {
    var pieces := [a, "", b];
    assert Split(a + ",," + b, ',') == pieces by {
      JoinThree(a, b);
      SplitJoin(pieces, ',');
    }
    var stripped := TrimAll(pieces);
    TrimNothing();
    assert stripped[0] == Trim(a) && stripped[1] == "" && stripped[2] == Trim(b);
    assert stripped == [Trim(a), "", Trim(b)];
  }

  lemma TrimNothing()
    ensures Trim("") == ""
  {
  }

  lemma JoinThree(a: string, b: string)
    ensures Join([a, "", b], [',']) == a + ",," + b
  {
    assert [a, "", b][1..] == ["", b];
    assert ["", b][1..] == [b];
    assert Join(["", b], [',']) == "" + [','] + b;
  }

  /**
   * The experience of the POST body: the field converted to a number when it
   * is present and non-empty, 0 otherwise. The string-to-number conversion is
   * the parameter `toNumber`.
   */
  function ExperienceYears(field: Option<string>, toNumber: string -> real): (r: real)
    ensures !Truthy(field) ==> r == 0.0
    ensures Truthy(field) ==> r == toNumber(field.value)
  {
    if Truthy(field) then toNumber(field.value) else 0.0
  }

  /** The request body, with absent fields None. */
  datatype CandidateBody = CandidateBody(
    name: Option<string>,
    email: Option<string>,
    skills: SkillsField,
    resumeText: Option<string>,
    experienceYears: Option<string>)

  /** A stored candidate, as the shortlist reads it back; absent fields are None. */
  datatype StoredCandidate = StoredCandidate(
    name: Option<string>,
    email: Option<string>,
    skills: Option<seq<string>>,
    resumeText: Option<string>,
    experienceYears: real)

  /**
   * The candidate the POST handler saves. `upload` is the text of an
   * uploaded resume file, which takes the place of the body's resume text.
   */
  function NewCandidate(body: CandidateBody, upload: Option<string>, toNumber: string -> real): (c: StoredCandidate)
    ensures c.skills == Some(ParseSkills(body.skills))
    ensures upload.Some? ==> c.resumeText == upload
    ensures upload.None? ==> c.resumeText == Some(body.resumeText.UnwrapOr(""))
  {
    var parsedText := if upload.Some? then upload.value else body.resumeText.UnwrapOr("");
    StoredCandidate(body.name, body.email, Some(ParseSkills(body.skills)), Some(parsedText),
                    ExperienceYears(body.experienceYears, toNumber))
  }

  // GET /api/candidates/shortlist

  /** The shortlist keys: the keywords split on ',', each trimmed and lower-cased, empty keys dropped. */
  function Keys(keywords: string): seq<string> {
    NonEmpty(LowerAll(TrimAll(Split(keywords, ','))))
  }

  /**
   * The keys are the non-empty trimmed, lower-cased comma-separated pieces
   * of the query: none is empty, none has an upper-case letter or a comma.
   */
  lemma KeysSpec(keywords: string)
    ensures var pieces := LowerAll(TrimAll(Split(keywords, ',')));
      && (forall k :: k in Keys(keywords) <==> k in pieces && k != "")
      && (forall i :: 0 <= i < |Keys(keywords)| ==> IsLowered(Keys(keywords)[i]) && ',' !in Keys(keywords)[i])
  {
    var split := Split(keywords, ',');
    var pieces := LowerAll(TrimAll(split));
    NonEmptyMembers(pieces);
    forall i | 0 <= i < |pieces| ensures IsLowered(pieces[i]) && ',' !in pieces[i] {
      LowerIsLowered(TrimAll(split)[i]);
      TrimKeepsAbsent(split[i], ',');
      LowerKeepsComma(TrimAll(split)[i]);
    }
    forall i | 0 <= i < |Keys(keywords)| ensures IsLowered(Keys(keywords)[i]) && ',' !in Keys(keywords)[i] {
      assert Keys(keywords)[i] in Keys(keywords);
    }
  }

  /** Lower-casing brings in no comma. */
  lemma LowerKeepsComma(s: string)
    requires ',' !in s
    ensures ',' !in Lower(s)
  {
    forall i | 0 <= i < |s| ensures Lower(s)[i] != ',' {
      assert s[i] != ',';
    }
  }

  /** The lower-cased resume text and skills a candidate is searched in. */
  function Haystack(c: StoredCandidate): string {
    Lower(c.resumeText.UnwrapOr("") + " " + Join(c.skills.UnwrapOr([]), " "))
  }

  /** The number of keys, duplicates counted, that occur in `hay`. */
  function Hits(keys: seq<string>, hay: string): nat {
    if keys == [] then 0
    else Hits(keys[..|keys| - 1], hay) + (if Contains(hay, keys[|keys| - 1]) then 1 else 0)
  }

  /** At most one hit per key, and a hit exactly when some key occurs. */
  lemma {:induction false} HitsBounds(keys: seq<string>, hay: string)
    ensures Hits(keys, hay) <= |keys|
    ensures Hits(keys, hay) > 0 <==> exists i :: 0 <= i < |keys| && Contains(hay, keys[i])
  {
    if keys != [] {
      var n := |keys| - 1;
      HitsBounds(keys[..n], hay);
      assert forall i :: 0 <= i < n ==> keys[..n][i] == keys[i];
      if Hits(keys[..n], hay) > 0 {
        var i :| 0 <= i < n && Contains(hay, keys[..n][i]);
        assert Contains(hay, keys[i]);
      }
    }
  }

  /** The scoring callback's counter: one point per key the haystack includes. */
  method KeywordScore(keys: seq<string>, hay: string) returns (score: nat)
    ensures score == Hits(keys, hay)
  {
    score := 0;
    var i := 0;
    while i < |keys|
      invariant 0 <= i <= |keys|
      invariant score == Hits(keys[..i], hay)
    {
      if Contains(hay, keys[i]) {
        score := score + 1;
      }
      assert keys[..i + 1][..i] == keys[..i];
      i := i + 1;
    }
    assert keys[..i] == keys;
  }

  datatype Scored = Scored(candidate: StoredCandidate, score: nat)

  function ScoreKey(s: Scored): real { s.score as real }

  /** Every candidate with its score, in fetched order. */
  function ScoredAll(keys: seq<string>, candidates: seq<StoredCandidate>): (r: seq<Scored>)
    ensures |r| == |candidates|
    ensures forall i :: 0 <= i < |r| ==> r[i] == Scored(candidates[i], Hits(keys, Haystack(candidates[i])))
  {
    if candidates == [] then []
    else
      var c := candidates[|candidates| - 1];
      ScoredAll(keys, candidates[..|candidates| - 1]) + [Scored(c, Hits(keys, Haystack(c)))]
  }

  lemma ScoredAllSnoc(keys: seq<string>, candidates: seq<StoredCandidate>, c: StoredCandidate)
    ensures ScoredAll(keys, candidates + [c]) == ScoredAll(keys, candidates) + [Scored(c, Hits(keys, Haystack(c)))]
  {
    assert (candidates + [c])[..|candidates|] == candidates;
  }

  /** The candidates whose score is positive, in order. */
  function Positive(s: seq<Scored>): (r: seq<Scored>)
    ensures forall x :: x in r <==> x in s && x.score > 0
  {
    if s == [] then []
    else Positive(s[..|s| - 1]) + (if s[|s| - 1].score > 0 then [s[|s| - 1]] else [])
  }

  /** The shortlist: candidates with a positive score, best first, ties in fetched order. */
  function Shortlist(keys: seq<string>, candidates: seq<StoredCandidate>): seq<Scored> {
    SortDesc(Positive(ScoredAll(keys, candidates)), ScoreKey)
  }

  /**
   * The shortlist holds exactly the fetched candidates some key occurs in,
   * each with its number of keys found (between 1 and the number of keys),
   * sorted by that number, highest first, and candidates with equal scores
   * in fetched order.
   */
  lemma ShortlistSpec(keys: seq<string>, candidates: seq<StoredCandidate>)
    ensures var r := Shortlist(keys, candidates);
      && SortedDesc(r, ScoreKey)
      && (forall x :: x in r <==>
            x.candidate in candidates && x.score == Hits(keys, Haystack(x.candidate)) && x.score > 0)
      && (forall i :: 0 <= i < |r| ==> 1 <= r[i].score <= |keys|)
      && SameGroups(r, Positive(ScoredAll(keys, candidates)), ScoreKey)
  {
    var all := ScoredAll(keys, candidates);
    var pos := Positive(all);
    var r := Shortlist(keys, candidates);
    SortDescSpec(pos, ScoreKey);
    SortDescMembers(pos, ScoreKey);
    forall x ensures x in all <==> x.candidate in candidates && x.score == Hits(keys, Haystack(x.candidate)) {
      if x.candidate in candidates {
        var i :| 0 <= i < |candidates| && candidates[i] == x.candidate;
        if x.score == Hits(keys, Haystack(x.candidate)) {
          assert all[i] == x;
        }
      }
    }
    forall i | 0 <= i < |r| ensures 1 <= r[i].score <= |keys| {
      assert r[i] in r;
      HitsBounds(keys, Haystack(r[i].candidate));
    }
  }

  /**
   * The shortlist handler: 400 without keywords, else the shortlist of the
   * fetched candidates.
   */
  method ShortlistRoute(keywords: Option<string>, candidates: seq<StoredCandidate>)
    returns (r: Result<seq<Scored>, string>)
    ensures !Truthy(keywords) ==> r == Err("Provide keywords query parameter")
    ensures Truthy(keywords) ==> r == Ok(Shortlist(Keys(keywords.value), candidates))
  {
    if !Truthy(keywords) {
      return Err("Provide keywords query parameter");
    }
    var keys := Keys(keywords.value);
    var scored := ScoreCandidates(keys, candidates);
    return Ok(SortDesc(Positive(scored), ScoreKey));
  }

  /** The `.map` of the shortlist handler: each candidate with its keyword score. */
  method ScoreCandidates(keys: seq<string>, candidates: seq<StoredCandidate>) returns (scored: seq<Scored>)
    ensures scored == ScoredAll(keys, candidates)
  {
    scored := [];
    var i := 0;
    while i < |candidates|
      invariant 0 <= i <= |candidates|
      invariant scored == ScoredAll(keys, candidates[..i])
    {
      var c := candidates[i];
      var score := KeywordScore(keys, Haystack(c));
      scored := scored + [Scored(c, score)];
      ScoredAllSnoc(keys, candidates[..i], c);
      assert candidates[..i + 1] == candidates[..i] + [c];
      i := i + 1;
    }
    assert candidates[..i] == candidates;
  }
}
