/**
 * The profile form's skill cleaner: the comma-separated skills field is
 * split, each piece trimmed, empty pieces dropped and repeated skills
 * dropped after their first occurrence; the cleaned list is sent back
 * joined with ", ".
 */
module Profile {
  import opened Text
  import opened StringOrder

  /** `arr.indexOf(x)`: the first position holding x, or -1. */
  function IndexOf(arr: seq<string>, x: string): (r: int)
    ensures -1 <= r < |arr|
    ensures r == -1 <==> x !in arr
    ensures r >= 0 ==> arr[r] == x && x !in arr[..r]
  {
    if arr == [] then -1
    else if arr[0] == x then 0
    else
      var k := IndexOf(arr[1..], x);
      assert arr == [arr[0]] + arr[1..];
      if k == -1 then -1
      else
        assert arr[..k + 1] == [arr[0]] + arr[1..][..k];
        k + 1
  }

  /** A value at position m is first found at or before m. */
  lemma IndexOfAtMost(arr: seq<string>, m: nat)
    requires m < |arr|
    ensures 0 <= IndexOf(arr, arr[m]) <= m
  {
  }

  /** Of the first k entries, those standing at the first position of their value, in order. */
  function KeepFirst(arr: seq<string>, k: nat): seq<string>
    requires k <= |arr|
  {
    if k == 0 then []
    else KeepFirst(arr, k - 1) + (if IndexOf(arr, arr[k - 1]) == k - 1 then [arr[k - 1]] else [])
  }

  function Dedupe(arr: seq<string>): seq<string> {
    KeepFirst(arr, |arr|)
  }

  /** Entries whose first occurrence comes first stay first. */
  predicate InFirstOccurrenceOrder(d: seq<string>, arr: seq<string>) {
    forall i, j :: 0 <= i < j < |d| ==> IndexOf(arr, d[i]) < IndexOf(arr, d[j])
  }

  /**
   * The first k entries, each kept at its first occurrence: exactly the
   * values among them, in order of first occurrence, and all of them when
   * no value repeats.
   */
  lemma KeepFirstSpec(arr: seq<string>, k: nat)
    requires k <= |arr|
    ensures forall x :: x in KeepFirst(arr, k) <==> x in arr[..k]
    ensures InFirstOccurrenceOrder(KeepFirst(arr, k), arr)
    ensures NoDuplicates(arr) ==> KeepFirst(arr, k) == arr[..k]
  {
    KeepFirstMembers(arr, k);
    KeepFirstOrder(arr, k);
    if NoDuplicates(arr) {
      KeepFirstAll(arr, k);
    }
  }

  lemma {:induction false} KeepFirstMembers(arr: seq<string>, k: nat)
    requires k <= |arr|
    ensures forall x :: x in KeepFirst(arr, k) <==> x in arr[..k]
  {
    if k > 0 {
      KeepFirstMembers(arr, k - 1);
      var x := arr[k - 1];
      assert arr[..k] == arr[..k - 1] + [x];
      IndexOfAtMost(arr, k - 1);
      if IndexOf(arr, x) != k - 1 {
        assert arr[IndexOf(arr, x)] == x;
        assert x in arr[..k - 1];
      }
    }
  }

  /** Every value kept from the first k entries is first found before position k. */
  lemma KeepFirstBefore(arr: seq<string>, k: nat)
    requires k <= |arr|
    ensures forall i :: 0 <= i < |KeepFirst(arr, k)| ==> IndexOf(arr, KeepFirst(arr, k)[i]) < k
  {
    var d := KeepFirst(arr, k);
    KeepFirstMembers(arr, k);
    forall i | 0 <= i < |d| ensures IndexOf(arr, d[i]) < k {
      assert d[i] in arr[..k];
      var m :| 0 <= m < k && arr[m] == d[i];
      IndexOfAtMost(arr, m);
    }
  }

  lemma {:induction false} KeepFirstOrder(arr: seq<string>, k: nat)
    requires k <= |arr|
    ensures InFirstOccurrenceOrder(KeepFirst(arr, k), arr)
  {
    if k > 0 {
      KeepFirstOrder(arr, k - 1);
      KeepFirstBefore(arr, k - 1);
    }
  }

  lemma {:induction false} KeepFirstAll(arr: seq<string>, k: nat)
    requires k <= |arr| && NoDuplicates(arr)
    ensures KeepFirst(arr, k) == arr[..k]
  {
    if k > 0 {
      KeepFirstAll(arr, k - 1);
      var x := arr[k - 1];
      assert arr[..k] == arr[..k - 1] + [x];
      assert x !in arr[..k - 1];
    }
  }

  /** Dropping repeats keeps every value once, in order of first occurrence, and changes nothing without repeats. */
  lemma DedupeSpec(arr: seq<string>)
    ensures var d := Dedupe(arr);
      && NoDuplicates(d)
      && (forall x :: x in d <==> x in arr)
      && InFirstOccurrenceOrder(d, arr)
      && (NoDuplicates(arr) ==> d == arr)
  {
    KeepFirstSpec(arr, |arr|);
    assert arr[..|arr|] == arr;
  }

  /** The cleanedSkills chain: split on commas, trim, drop empty pieces, drop repeats. */
  function CleanedSkills(skills: string): seq<string> {
    Dedupe(NonEmpty(TrimAll(Split(skills, ','))))
  }

  /** A skill as the cleaner leaves it: non-empty, trimmed and without a comma. */
  predicate CleanEntry(x: string) {
    x != "" && Trim(x) == x && ',' !in x
  }

  /** The non-empty trimmed pieces of a split on commas are clean entries. */
  lemma PiecesClean(skills: string)
    ensures forall i :: 0 <= i < |NonEmpty(TrimAll(Split(skills, ',')))| ==>
      CleanEntry(NonEmpty(TrimAll(Split(skills, ',')))[i])
  {
    var split := Split(skills, ',');
    var pieces := TrimAll(split);
    var kept := NonEmpty(pieces);
    NonEmptyMembers(pieces);
    forall i | 0 <= i < |kept| ensures CleanEntry(kept[i]) {
      assert kept[i] in kept;
      var k :| 0 <= k < |pieces| && pieces[k] == kept[i];
      TrimIdempotent(split[k]);
      TrimKeepsAbsent(split[k], ',');
    }
  }

  /** Dropping repeats keeps a property every entry has. */
  lemma DedupeKeepsClean(arr: seq<string>)
    requires forall i :: 0 <= i < |arr| ==> CleanEntry(arr[i])
    ensures forall i :: 0 <= i < |Dedupe(arr)| ==> CleanEntry(Dedupe(arr)[i])
  {
    DedupeSpec(arr);
    forall i | 0 <= i < |Dedupe(arr)| ensures CleanEntry(Dedupe(arr)[i]) {
      assert Dedupe(arr)[i] in arr;
    }
  }

  /**
   * The cleaned skills are non-empty, trimmed, comma-free and distinct,
   * exactly the non-empty trimmed pieces of the field, in order of first
   * occurrence.
   */
  lemma CleanedSkillsSpec(skills: string)
    ensures var r := CleanedSkills(skills);
            var pieces := TrimAll(Split(skills, ','));
      && (forall i :: 0 <= i < |r| ==> CleanEntry(r[i]))
      && NoDuplicates(r)
      && (forall x :: x in r <==> x in pieces && x != "")
      && InFirstOccurrenceOrder(r, NonEmpty(pieces))
  {
    CleanedSkillsClean(skills);
    CleanedSkillsMembers(skills);
  }

  lemma CleanedSkillsClean(skills: string)
    ensures forall i :: 0 <= i < |CleanedSkills(skills)| ==> CleanEntry(CleanedSkills(skills)[i])
  {
    var kept := NonEmpty(TrimAll(Split(skills, ',')));
    PiecesClean(skills);
    DedupeKeepsClean(kept);
  }

  lemma CleanedSkillsMembers(skills: string)
    ensures var r := CleanedSkills(skills);
            var pieces := TrimAll(Split(skills, ','));
      && NoDuplicates(r)
      && (forall x :: x in r <==> x in pieces && x != "")
      && InFirstOccurrenceOrder(r, NonEmpty(pieces))
  {
    var pieces := TrimAll(Split(skills, ','));
    NonEmptyMembers(pieces);
    DedupeSpec(NonEmpty(pieces));
  }

  /** Every entry of a list but the first, with a space in front. */
  function Spaced(ss: seq<string>): (r: seq<string>)
    ensures |r| == |ss|
    ensures forall i :: 0 <= i < |ss| ==> r[i] == " " + ss[i]
  {
    seq(|ss|, i requires 0 <= i < |ss| => " " + ss[i])
  }

  /** Splitting a ", " join on commas leaves a space in front of every piece but the first. */
  lemma {:induction false} SplitCommaSpace(r: seq<string>)
    requires |r| >= 1
    requires forall i :: 0 <= i < |r| ==> ',' !in r[i]
    ensures Split(Join(r, ", "), ',') == [r[0]] + Spaced(r[1..])
  {
    if |r| == 1 {
      SplitNoSep(r[0], ',');
    } else {
      var tail := Join(r[1..], ", ");
      SplitCommaSpace(r[1..]);
      JoinCommaSpace(r);
      SplitPrefix(r[0], " " + tail, ',');
      SplitSpaceFront(tail);
      SpacedCons(r[1..]);
    }
  }

  lemma JoinCommaSpace(r: seq<string>)
    requires |r| >= 2
    ensures Join(r, ", ") == r[0] + ([','] + (" " + Join(r[1..], ", ")))
  {
  }

  /** A leading space joins the first piece of a split on commas. */
  lemma SplitSpaceFront(t: string)
    ensures Split(" " + t, ',') == [" " + Split(t, ',')[0]] + Split(t, ',')[1..]
  {
    assert (" " + t)[1..] == t;
  }

  lemma SpacedCons(ss: seq<string>)
    requires |ss| >= 1
    ensures Spaced(ss) == [" " + ss[0]] + Spaced(ss[1..])
  {
  }

  /** A leading space goes in the trim. */
  lemma TrimLeadingSpace(p: string, x: string)
    requires p == " " + x
    ensures Trim(p) == Trim(x)
  {
    assert p[1..] == x;
  }

  /** A list without empty strings passes the empty-string filter whole. */
  lemma {:induction false} NonEmptyKeepsAll(ss: seq<string>)
    requires forall i :: 0 <= i < |ss| ==> ss[i] != ""
    ensures NonEmpty(ss) == ss
  {
    if ss != [] {
      NonEmptyKeepsAll(ss[1..]);
      assert ss == [ss[0]] + ss[1..];
    }
  }

  /** Trimming the pieces of a ", " join of trimmed entries gives the entries back. */
  lemma TrimSpaced(r: seq<string>)
    requires |r| >= 1
    requires forall i :: 0 <= i < |r| ==> Trim(r[i]) == r[i]
    ensures TrimAll([r[0]] + Spaced(r[1..])) == r
  {
    var pieces := [r[0]] + Spaced(r[1..]);
    forall i | 0 <= i < |r| ensures TrimAll(pieces)[i] == r[i] {
      if i > 0 {
        TrimSpacedAt(r, i);
      }
    }
  }

  lemma TrimSpacedAt(r: seq<string>, i: nat)
    requires 1 <= i < |r| && Trim(r[i]) == r[i]
    ensures Trim(([r[0]] + Spaced(r[1..]))[i]) == r[i]
  {
    var p := ([r[0]] + Spaced(r[1..]))[i];
    assert p == " " + r[i];
    TrimLeadingSpace(p, r[i]);
  }

  /** The empty field cleans to no skills. */
  lemma CleanedSkillsEmpty()
    ensures CleanedSkills("") == []
  {
    assert Split("", ',') == [""];
    assert TrimAll([""]) == [""];
    assert NonEmpty([""]) == [];
  }

  /**
   * Distinct, non-empty, trimmed, comma-free skills joined with ", " are
   * cleaned back to the same list.
   */
  lemma CleanedSkillsRoundTrip(r: seq<string>)
    requires NoDuplicates(r)
    requires forall i :: 0 <= i < |r| ==> CleanEntry(r[i])
    ensures CleanedSkills(Join(r, ", ")) == r
  {
    if r == [] {
      CleanedSkillsEmpty();
    } else {
      SplitCommaSpace(r);
      TrimSpaced(r);
      NonEmptyKeepsAll(r);
      DedupeDistinct(r);
    }
  }

  /** A list without repeats is its own deduplication. */
  lemma DedupeDistinct(arr: seq<string>)
    requires NoDuplicates(arr)
    ensures Dedupe(arr) == arr
  {
    DedupeSpec(arr);
  }

  /** Cleaning what the form sends back changes nothing. */
  lemma CleanedSkillsStable(skills: string)
    ensures CleanedSkills(Join(CleanedSkills(skills), ", ")) == CleanedSkills(skills)
  {
    CleanedSkillsSpec(skills);
    CleanedSkillsRoundTrip(CleanedSkills(skills));
  }
}
