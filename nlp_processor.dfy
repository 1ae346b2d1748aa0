/**
 * NLPProcessor.extract_skills: scans the lower-cased text for every alias of
 * every skill in the lower-cased catalogue, with the regular expression
 * `\b<alias>\b`, and records for each skill the first of its aliases that
 * occurs as a whole word.
 */
module NlpProcessor {
  import opened Wrappers
  import opened Text
  import opened StringOrder
  import opened AliasTable
  import opened SkillsDatabase

  /** `\b` holds at position p: exactly one of the characters around p is a word character. */
  predicate WordBoundary(s: string, p: int)
    requires 0 <= p <= |s|
  {
    (p > 0 && IsWordChar(s[p - 1])) != (p < |s| && IsWordChar(s[p]))
  }

  /** `\b<alias>\b` matches at position i: the alias occurs there with a boundary on each side. */
  predicate WordMatchAt(s: string, alias: string, i: int) {
    OccursAt(s, alias, i) && WordBoundary(s, i) && WordBoundary(s, i + |alias|)
  }

  /** The alias occurs as a whole word, between two word boundaries, at position i or later. */
  function SearchFrom(s: string, alias: string, i: nat): (r: bool)
    ensures r <==> exists j :: i <= j && WordMatchAt(s, alias, j)
    decreases |s| - i
  {
    if i > |s| then false
    else if WordMatchAt(s, alias, i) then true
    else
      var r := SearchFrom(s, alias, i + 1);
      assert forall j :: i <= j && WordMatchAt(s, alias, j) ==> i + 1 <= j;
      r
  }

  /** The regular-expression search for the escaped alias between two word boundaries succeeds. */
  function SearchWord(s: string, alias: string): (r: bool)
    ensures r <==> exists i :: WordMatchAt(s, alias, i)
  {
    SearchFrom(s, alias, 0)
  }

  /** The first alias, in list order, that occurs in s as a whole word: the one the `break` stops at. */
  function FirstMatch(s: string, aliases: seq<string>): (r: Option<string>)
    ensures r.Some? ==> r.value in aliases && SearchWord(s, r.value)
    ensures r.None? ==> forall a :: a in aliases ==> !SearchWord(s, a)
  {
    if aliases == [] then None
    else if SearchWord(s, aliases[0]) then Some(aliases[0])
    else
      var r := FirstMatch(s, aliases[1..]);
      assert forall a :: a in aliases && a != aliases[0] ==> a in aliases[1..];
      r
  }

  /** No alias before the first match matches. */
  lemma {:induction false} FirstMatchAt(s: string, aliases: seq<string>, j: int)
    requires 0 <= j < |aliases| && SearchWord(s, aliases[j])
    requires forall j' :: 0 <= j' < j ==> !SearchWord(s, aliases[j'])
    ensures FirstMatch(s, aliases) == Some(aliases[j])
  {
    if j > 0 {
      assert forall j' :: 0 <= j' < j - 1 ==> aliases[1..][j'] == aliases[j' + 1];
      FirstMatchAt(s, aliases[1..], j - 1);
    }
  }

  /** When no alias matches, the inner loop runs to its end and records nothing. */
  lemma FirstMatchNone(s: string, aliases: seq<string>)
    requires forall j :: 0 <= j < |aliases| ==> !SearchWord(s, aliases[j])
    ensures FirstMatch(s, aliases) == None
  {
    forall a | a in aliases ensures !SearchWord(s, a) {
      var j :| 0 <= j < |aliases| && aliases[j] == a;
    }
  }

  /**
   * skills_detail: for each skill of the table, in table order, that has an
   * alias occurring as a word, the skill with the one-element list of that
   * first alias.
   */
  function Detail(table: seq<Entry>, s: string): seq<Entry> {
    if table == [] then []
    else
      var e := table[|table| - 1];
      Detail(table[..|table| - 1], s) +
        match FirstMatch(s, e.aliases)
        case Some(a) => [Entry(e.name, [a])]
        case None => []
  }

  /** The keys of a dict, in order. */
  function Names(d: seq<Entry>): (r: seq<string>)
    ensures |r| == |d| && forall i :: 0 <= i < |d| ==> r[i] == d[i].name
  {
    seq(|d|, i requires 0 <= i < |d| => d[i].name)
  }

  /** The dict extract_skills returns. */
  datatype Extraction = Extraction(
    foundSkills: seq<string>,
    skillsDetail: seq<Entry>,
    skillCount: nat,
    skillsList: seq<string>)

  /** What extract_skills returns for an already lower-cased text. */
  function ExtractionOf(table: seq<Entry>, s: string): Extraction {
    var d := Detail(table, s);
    var found := SortUnique(Names(d));
    Extraction(found, d, |found|, found)
  }

  /** A skill is in skills_detail exactly when the table has it and one of its aliases occurs as a word. */
  lemma {:induction false} DetailKeys(table: seq<Entry>, s: string, k: string)
    ensures HasName(Detail(table, s), k) <==>
            exists i :: 0 <= i < |table| && table[i].name == k && FirstMatch(s, table[i].aliases).Some?
  {
    if table != [] {
      var init, e := table[..|table| - 1], table[|table| - 1];
      DetailKeys(init, s, k);
      var tail := match FirstMatch(s, e.aliases) case Some(a) => [Entry(e.name, [a])] case None => [];
      assert Detail(table, s) == Detail(init, s) + tail;
      HasNameConcat(Detail(init, s), tail, k);
      assert forall i :: 0 <= i < |init| ==> init[i] == table[i];
      if exists i :: 0 <= i < |table| && table[i].name == k && FirstMatch(s, table[i].aliases).Some? {
        var i :| 0 <= i < |table| && table[i].name == k && FirstMatch(s, table[i].aliases).Some?;
        if i == |table| - 1 {
          assert tail[0].name == k;
        } else {
          assert init[i] == table[i];
        }
      }
    }
  }

  /** Each skills_detail entry records exactly one alias: the first of its skill's aliases that matched. */
  lemma {:induction false} DetailEntries(table: seq<Entry>, s: string)
    ensures forall e :: e in Detail(table, s) ==>
      exists i :: 0 <= i < |table| && table[i].name == e.name && FirstMatch(s, table[i].aliases).Some?
                  && e.aliases == [FirstMatch(s, table[i].aliases).value]
  {
    if table != [] {
      var n := |table| - 1;
      var init := table[..n];
      DetailEntries(init, s);
      DetailStep(table, n, s);
      assert table[..n + 1] == table;
      forall e | e in Detail(table, s)
        ensures exists i :: 0 <= i < |table| && table[i].name == e.name && FirstMatch(s, table[i].aliases).Some?
                            && e.aliases == [FirstMatch(s, table[i].aliases).value]
      {
        if e in Detail(init, s) {
          var i :| 0 <= i < |init| && init[i].name == e.name && FirstMatch(s, init[i].aliases).Some?
                   && e.aliases == [FirstMatch(s, init[i].aliases).value];
          assert init[i] == table[i];
        } else {
          assert e.name == table[n].name;
        }
      }
    }
  }

  /** skills_detail keeps the table's keys distinct. */
  lemma {:induction false} DetailUnique(table: seq<Entry>, s: string)
    requires UniqueNames(table)
    ensures UniqueNames(Detail(table, s))
  {
    if table != [] {
      var init, last := table[..|table| - 1], table[|table| - 1];
      assert UniqueNames(init) by {
        assert forall i :: 0 <= i < |init| ==> init[i] == table[i];
      }
      DetailUnique(init, s);
      var d := Detail(init, s);
      var tail := match FirstMatch(s, last.aliases) case Some(a) => [Entry(last.name, [a])] case None => [];
      assert Detail(table, s) == d + tail;
      if tail != [] {
        assert !HasName(d, last.name) by {
          DetailKeys(init, s, last.name);
          assert forall i :: 0 <= i < |init| ==> init[i].name != last.name;
        }
        UniqueSnoc(d, tail[0]);
      }
    }
  }

  /** A dict keeps distinct keys when an entry under a new key goes on the end. */
  lemma UniqueSnoc(d: seq<Entry>, e: Entry)
    requires UniqueNames(d) && !HasName(d, e.name)
    ensures UniqueNames(d + [e])
  {
    HasNameIndex(d, e.name);
  }

  /**
   * A skill is found exactly when the table has it and one of its aliases
   * occurs in the text as a whole word; found skills are keys of the table.
   */
  lemma ExtractFound(table: seq<Entry>, s: string, k: string)
    ensures k in ExtractionOf(table, s).foundSkills <==>
            exists i :: 0 <= i < |table| && table[i].name == k && exists a :: a in table[i].aliases && SearchWord(s, a)
  {
    var d := Detail(table, s);
    DetailKeys(table, s, k);
    HasNameIndex(d, k);
    if k in Names(d) {
      var i :| 0 <= i < |d| && Names(d)[i] == k;
    }
  }

  /**
   * found_skills is sorted and duplicate-free, skills_list equals it,
   * skill_count is its length, and its skills are exactly the keys of
   * skills_detail, each of which records one alias.
   */
  lemma ExtractShape(table: seq<Entry>, s: string)
    requires UniqueNames(table)
    ensures var r := ExtractionOf(table, s);
      && StrictlySorted(r.foundSkills)
      && r.skillsList == r.foundSkills
      && r.skillCount == |r.foundSkills|
      && (forall k :: k in r.foundSkills <==> HasName(r.skillsDetail, k))
      && UniqueNames(r.skillsDetail)
      && (forall e :: e in r.skillsDetail ==> |e.aliases| == 1)
  {
    var d := Detail(table, s);
    DetailUnique(table, s);
    DetailEntries(table, s);
    forall k ensures k in Names(d) <==> HasName(d, k) {
      HasNameIndex(d, k);
      if k in Names(d) {
        var i :| 0 <= i < |d| && Names(d)[i] == k;
      }
    }
  }

  /** The keys of skills_detail as a set: the found_skills set the loop keeps beside it. */
  function NameSet(d: seq<Entry>): set<string> {
    set e | e in d :: e.name
  }

  /** found_skills holds exactly the keys of skills_detail. */
  lemma NameSetNames(d: seq<Entry>)
    ensures forall k :: k in NameSet(d) <==> k in Names(d)
  {
    forall k | k in Names(d) ensures k in NameSet(d) {
      var n :| 0 <= n < |d| && Names(d)[n] == k;
      assert d[n] in d;
    }
    forall k | k in NameSet(d) ensures k in Names(d) {
      var e :| e in d && e.name == k;
      var n :| 0 <= n < |d| && d[n] == e;
      assert Names(d)[n] == k;
    }
  }

  /** Adding one entry to skills_detail adds its key to found_skills. */
  lemma NameSetAppend(d: seq<Entry>, e: Entry)
    ensures NameSet(d + [e]) == NameSet(d) + {e.name}
  {
    assert forall x :: x in d + [e] <==> x in d || x == e;
  }

  /** The skill at position i of the table is not yet a key of skills_detail when the loop reaches it. */
  lemma DetailFresh(table: seq<Entry>, i: int, s: string)
    requires UniqueNames(table) && 0 <= i < |table|
    ensures !HasName(Detail(table[..i], s), table[i].name)
  {
    DetailKeys(table[..i], s, table[i].name);
    forall i' | 0 <= i' < i ensures table[..i][i'].name != table[i].name {
      assert table[..i][i'] == table[i'];
    }
  }

  /** One more row of the table adds its skill's first matching alias, if any, to skills_detail. */
  lemma DetailStep(table: seq<Entry>, i: int, s: string)
    requires 0 <= i < |table|
    ensures Detail(table[..i + 1], s) == Detail(table[..i], s) +
              match FirstMatch(s, table[i].aliases)
              case Some(a) => [Entry(table[i].name, [a])]
              case None => []
  {
    assert table[..i + 1][..i] == table[..i];
  }

  /** A skill whose first matching alias is `alias` adds that entry to skills_detail. */
  lemma DetailHit(table: seq<Entry>, i: int, s: string, alias: string)
    requires 0 <= i < |table| && FirstMatch(s, table[i].aliases) == Some(alias)
    ensures Detail(table[..i + 1], s) == Detail(table[..i], s) + [Entry(table[i].name, [alias])]
  {
    DetailStep(table, i, s);
  }

  /** A skill none of whose aliases matches leaves skills_detail as it was. */
  lemma DetailMiss(table: seq<Entry>, i: int, s: string)
    requires 0 <= i < |table| && FirstMatch(s, table[i].aliases) == None
    ensures Detail(table[..i + 1], s) == Detail(table[..i], s)
  {
    DetailStep(table, i, s);
  }

  /**
   * Recording a matched alias in skills_detail: a name not yet present gets
   * an empty list first, then the alias goes on the end of the name's list;
   * every other key keeps its value, and a new name goes at the end.
   */
  method AppendAlias(d: seq<Entry>, name: string, alias: string) returns (r: seq<Entry>)
    ensures Lookup(r, name) == Some((if Lookup(d, name).Some? then Lookup(d, name).value else []) + [alias])
    ensures forall k :: k != name ==> Lookup(r, k) == Lookup(d, k)
    ensures !HasName(d, name) ==> r == d + [Entry(name, [alias])]
  {
    LookupSomeIffHasName(d, name);
    r := d;
    if !HasName(r, name) {
      r := Put(r, name, []);
    }
    ghost var mid := r;
    forall k ensures Lookup(mid, k) == (if k == name then Some(if Lookup(d, name).Some? then Lookup(d, name).value else []) else Lookup(d, k)) {
      PutLookup(d, name, [], k);
    }
    var aliases := Lookup(r, name).value + [alias];
    r := Put(r, name, aliases);
    forall k ensures Lookup(r, k) == (if k == name then Some(aliases) else Lookup(mid, k)) {
      PutLookup(mid, name, aliases, k);
    }
    if !HasName(d, name) {
      assert aliases == [alias];
      PutAppends(d, name, []);
      PutAfter(d, [Entry(name, [])], name, [alias]);
    }
  }

  /** The inner loop of extract_skills: try each alias in turn and stop at the first that occurs as a word. */
  method FirstMatchingAlias(s: string, aliases: seq<string>) returns (r: Option<string>)
    ensures r == FirstMatch(s, aliases)
  {
    var j := 0;
    while j < |aliases|
      invariant 0 <= j <= |aliases|
      invariant forall j' :: 0 <= j' < j ==> !SearchWord(s, aliases[j'])
    {
      if SearchWord(s, aliases[j]) {
        FirstMatchAt(s, aliases, j);
        return Some(aliases[j]);
      }
      j := j + 1;
    }
    FirstMatchNone(s, aliases);
    return None;
  }

  /** extract_skills, with the lower-cased catalogue passed in as `table` (SKILLS_LOWERCASE, a dict). */
  method ExtractSkills(table: seq<Entry>, text: string) returns (r: Extraction)
    requires UniqueNames(table)
    ensures r == ExtractionOf(table, Lower(text))
  {
    var textLower := Lower(text);
    var found: set<string> := {};
    var detail: seq<Entry> := [];
    assert table[..0] == [];
    var i := 0;
    while i < |table|
      invariant 0 <= i <= |table|
      invariant detail == Detail(table[..i], textLower)
      invariant found == NameSet(detail)
    {
      var name := table[i].name;
      var hit := FirstMatchingAlias(textLower, table[i].aliases);
      if hit.Some? {
        var alias := hit.value;
        DetailFresh(table, i, textLower);
        NameSetAppend(detail, Entry(name, [alias]));
        DetailHit(table, i, textLower, alias);
        found := found + {name};
        detail := AppendAlias(detail, name, alias);
      } else {
        DetailMiss(table, i, textLower);
      }
      i := i + 1;
    }
    assert table[..i] == table;
    var foundSkills := SortedFromSet(found);
    var skillsList := SortedFromSet(found);
    var names := SortUnique(Names(detail));
    NameSetNames(detail);
    assert forall y :: y in foundSkills <==> y in names;
    StrictlySortedUnique(foundSkills, names);
    StrictlySortedUnique(skillsList, names);
    StrictlySortedNoDuplicates(foundSkills);
    NoDuplicatesCard(foundSkills);
    assert Elements(foundSkills) == found;
    r := Extraction(foundSkills, detail, |found|, skillsList);
  }

  // The behaviour of `\b` around aliases that start or end with a non-word character.

  /** "c++" followed by a space is not a match: `\b` after '+' needs a word character next. */
  lemma CppBeforeSpaceIsNoMatch()
    ensures !SearchWord("c++ developer", "c++")
    ensures SearchWord("c++developer", "c++")
  {
    var s := "c++ developer";
    assert forall n :: 0 < n < |s| ==> s[n] != 'c';
    forall n ensures !WordMatchAt(s, "c++", n) {
      if 0 < n <= |s| - 3 {
        assert s[n..n + 3][0] == s[n];
      }
      assert !WordBoundary(s, 3);
    }
    assert WordMatchAt("c++developer", "c++", 0);
  }

  /** "python" matches as a word but not inside "pythonic". */
  lemma WholeWordsOnly()
    ensures SearchWord("senior python developer", "python")
    ensures !SearchWord("pythonic", "python")
  {
    assert WordMatchAt("senior python developer", "python", 7) by {
      assert "senior python developer"[7..13] == "python";
    }
    assert !WordBoundary("pythonic", 6);
  }
}
