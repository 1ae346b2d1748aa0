/**
 * A Python dict from a canonical skill name to its alias list, kept as its
 * entries in insertion order. Storing `d[k] = v` overwrites the value of an
 * existing key in place and appends a new key at the end; a dict display
 * `{k1: v1, k2: v2, ...}` and a merge `{**a, **b}` store their pairs one after
 * another, so a repeated key keeps its first position and its last value.
 */
module AliasTable {
  import opened Wrappers

  /** One `name: [aliases]` pair. */
  datatype Entry = Entry(name: string, aliases: seq<string>)

  /** Some entry is named k (front recursion, so that it evaluates on literal tables). */
  predicate HasName(t: seq<Entry>, k: string) {
    t != [] && (t[0].name == k || HasName(t[1..], k))
  }

  /** The keys of a dict are pairwise distinct. */
  predicate UniqueNames(t: seq<Entry>) {
    forall i, j :: 0 <= i < j < |t| ==> t[i].name != t[j].name
  }

  /** `d.get(k)`: the value stored under k, or None. */
  function Lookup(t: seq<Entry>, k: string): Option<seq<string>> {
    if t == [] then None
    else if t[0].name == k then Some(t[0].aliases)
    else Lookup(t[1..], k)
  }

  /** The value of the last pair named k, if any: what a display with repeated keys keeps. */
  function LastValue(p: seq<Entry>, k: string): Option<seq<string>> {
    if p == [] then None
    else
      var rest := LastValue(p[1..], k);
      if rest.Some? then rest
      else if p[0].name == k then Some(p[0].aliases)
      else None
  }

  lemma {:induction false} HasNameIndex(t: seq<Entry>, k: string)
    ensures HasName(t, k) <==> exists i :: 0 <= i < |t| && t[i].name == k
  {
    if t != [] {
      HasNameIndex(t[1..], k);
      if HasName(t[1..], k) {
        var i :| 0 <= i < |t| - 1 && t[1..][i].name == k;
        assert t[i + 1].name == k;
      }
      if t[0].name != k && exists i :: 0 <= i < |t| && t[i].name == k {
        var i :| 0 <= i < |t| && t[i].name == k;
        assert t[1..][i - 1].name == k;
      }
    }
  }

  lemma {:induction false} HasNameConcat(a: seq<Entry>, b: seq<Entry>, k: string)
    ensures HasName(a + b, k) <==> HasName(a, k) || HasName(b, k)
  {
    if a != [] {
      HasNameConcat(a[1..], b, k);
      assert (a + b)[1..] == a[1..] + b;
    } else {
      assert a + b == b;
    }
  }

  /** Lookup finds exactly the keys that are present. */
  lemma {:induction false} LookupSomeIffHasName(t: seq<Entry>, k: string)
    ensures Lookup(t, k).Some? <==> HasName(t, k)
  {
    if t != [] {
      LookupSomeIffHasName(t[1..], k);
    }
  }

  /** Lookup returns the value of the first entry with the key. */
  lemma {:induction false} LookupFinds(t: seq<Entry>, e: Entry)
    requires UniqueNames(t) && e in t
    ensures Lookup(t, e.name) == Some(e.aliases)
  {
    if t[0] != e {
      var i :| 0 <= i < |t| && t[i] == e;
      assert t[1..][i - 1] == e;
      LookupFinds(t[1..], e);
    }
  }

  lemma {:induction false} LookupConcat(a: seq<Entry>, b: seq<Entry>, k: string)
    ensures Lookup(a + b, k) == if HasName(a, k) then Lookup(a, k) else Lookup(b, k)
  {
    if a != [] {
      LookupConcat(a[1..], b, k);
      assert (a + b)[1..] == a[1..] + b;
    } else {
      assert a + b == b;
    }
  }

  lemma {:induction false} LastValueHasName(p: seq<Entry>, k: string)
    ensures LastValue(p, k).Some? <==> HasName(p, k)
  {
    if p != [] {
      LastValueHasName(p[1..], k);
    }
  }

  /** The value a display keeps for k is one it wrote for k. */
  lemma {:induction false} LastValueIn(p: seq<Entry>, k: string)
    requires LastValue(p, k).Some?
    ensures Entry(k, LastValue(p, k).value) in p
  {
    if LastValue(p[1..], k).Some? {
      LastValueIn(p[1..], k);
    }
  }

  /** A later part of a display overrides an earlier one. */
  lemma {:induction false} LastValueConcat(a: seq<Entry>, b: seq<Entry>, k: string)
    ensures LastValue(a + b, k) == if LastValue(b, k).Some? then LastValue(b, k) else LastValue(a, k)
  {
    if a != [] {
      LastValueConcat(a[1..], b, k);
      assert (a + b)[1..] == a[1..] + b;
    } else {
      assert a + b == b;
    }
  }

  /** `d[k] = v`. */
  function Put(t: seq<Entry>, k: string, v: seq<string>): seq<Entry> {
    if t == [] then [Entry(k, v)]
    else if t[0].name == k then [Entry(k, v)] + t[1..]
    else [t[0]] + Put(t[1..], k, v)
  }

  /** An existing key keeps its position and only its value changes; a new key goes last. */
  lemma {:induction false} PutShape(t: seq<Entry>, k: string, v: seq<string>)
    ensures |Put(t, k, v)| == if HasName(t, k) then |t| else |t| + 1
    ensures forall i :: 0 <= i < |t| ==> Put(t, k, v)[i].name == t[i].name
    ensures forall i :: 0 <= i < |t| && t[i].name != k ==> Put(t, k, v)[i] == t[i]
    ensures !HasName(t, k) ==> Put(t, k, v)[|t|] == Entry(k, v)
  {
    if t != [] && t[0].name != k {
      PutShape(t[1..], k, v);
      var r := Put(t, k, v);
      assert r[1..] == Put(t[1..], k, v);
      assert forall i :: 1 <= i < |t| ==> t[1..][i - 1] == t[i] && r[1..][i - 1] == r[i];
    }
  }

  /** Reading back after `d[k] = v`: k holds v, every other key its old value. */
  lemma {:induction false} PutLookup(t: seq<Entry>, k: string, v: seq<string>, j: string)
    ensures Lookup(Put(t, k, v), j) == if j == k then Some(v) else Lookup(t, j)
  {
    if t != [] && t[0].name != k {
      PutLookup(t[1..], k, v, j);
    }
  }

  /** `d[k] = v` adds k to the keys and nothing else, and keeps them distinct. */
  lemma {:induction false} PutKeys(t: seq<Entry>, k: string, v: seq<string>)
    ensures forall j :: HasName(Put(t, k, v), j) <==> HasName(t, j) || j == k
    ensures UniqueNames(t) ==> UniqueNames(Put(t, k, v))
  {
    if t != [] && t[0].name != k {
      PutKeys(t[1..], k, v);
      var r := Put(t, k, v);
      assert r == [t[0]] + Put(t[1..], k, v);
      assert r[1..] == Put(t[1..], k, v);
      if UniqueNames(t) {
        assert !HasName(t[1..], t[0].name) by {
          HasNameIndex(t[1..], t[0].name);
        }
        assert !HasName(r[1..], t[0].name);
        HasNameIndex(r[1..], t[0].name);
        forall i, j | 0 <= i < j < |r| ensures r[i].name != r[j].name {
          if i == 0 {
            assert r[1..][j - 1].name == r[j].name;
          } else {
            assert r[1..][i - 1] == r[i] && r[1..][j - 1] == r[j];
          }
        }
      }
    } else if t != [] && UniqueNames(t) {
      PutShape(t, k, v);
      var r := Put(t, k, v);
      forall i, j | 0 <= i < j < |r| ensures r[i].name != r[j].name {
        assert r[i].name == t[i].name && r[j].name == t[j].name;
      }
    }
  }

  /** Stores the pairs of p into t in order: a display when t is empty, `{**t, **p}` otherwise. */
  function PutAll(t: seq<Entry>, p: seq<Entry>): seq<Entry>
    decreases p
  {
    if p == [] then t else PutAll(Put(t, p[0].name, p[0].aliases), p[1..])
  }

  /** After storing a display, each key holds its last value in the display, or its old value. */
  lemma {:induction false} PutAllLookup(t: seq<Entry>, p: seq<Entry>, k: string)
    ensures Lookup(PutAll(t, p), k) == if LastValue(p, k).Some? then LastValue(p, k) else Lookup(t, k)
    decreases p
  {
    if p != [] {
      PutAllLookup(Put(t, p[0].name, p[0].aliases), p[1..], k);
      PutLookup(t, p[0].name, p[0].aliases, k);
    }
  }

  /** Storing keeps the keys distinct, keeps every old key in its place, and adds exactly the keys of the display. */
  lemma {:induction false} PutAllShape(t: seq<Entry>, p: seq<Entry>)
    ensures |PutAll(t, p)| >= |t|
    ensures forall i :: 0 <= i < |t| ==> PutAll(t, p)[i].name == t[i].name
    ensures forall k :: HasName(PutAll(t, p), k) <==> HasName(t, k) || HasName(p, k)
    ensures UniqueNames(t) ==> UniqueNames(PutAll(t, p))
    decreases p
  {
    if p != [] {
      PutAllShape(Put(t, p[0].name, p[0].aliases), p[1..]);
      PutShape(t, p[0].name, p[0].aliases);
      PutKeys(t, p[0].name, p[0].aliases);
      forall k ensures HasName(p, k) <==> k == p[0].name || HasName(p[1..], k) {
      }
    }
  }

  /** Writing a key absent from a prefix leaves that prefix alone. */
  lemma {:induction false} PutAfter(t: seq<Entry>, u: seq<Entry>, k: string, v: seq<string>)
    requires !HasName(t, k)
    ensures Put(t + u, k, v) == t + Put(u, k, v)
  {
    if t != [] {
      var a, rest := t[0], t[1..];
      assert a.name != k && !HasName(rest, k);
      PutAfter(rest, u, k, v);
      var tu := t + u;
      assert tu == [a] + (rest + u);
      assert tu != [] && tu[0] == a && tu[1..] == rest + u;
      assert Put(tu, k, v) == [a] + Put(rest + u, k, v);
      assert t == [a] + rest;
    } else {
      assert t + u == u;
    }
  }

  lemma {:induction false} PutAllAfter(t: seq<Entry>, u: seq<Entry>, p: seq<Entry>)
    requires forall k :: HasName(p, k) ==> !HasName(t, k)
    ensures PutAll(t + u, p) == t + PutAll(u, p)
    decreases p
  {
    if p != [] {
      PutAfter(t, u, p[0].name, p[0].aliases);
      assert forall k :: HasName(p[1..], k) ==> HasName(p, k);
      PutAllAfter(t, Put(u, p[0].name, p[0].aliases), p[1..]);
    }
  }

  /** Storing a dict's own entries into an empty dict rebuilds it. */
  lemma {:induction false} PutAllCopy(p: seq<Entry>)
    requires UniqueNames(p)
    ensures PutAll([], p) == p
  {
    if p != [] {
      var e := p[0];
      forall k | HasName(p[1..], k) ensures !HasName([e], k) {
        HasNameIndex(p[1..], k);
        var i :| 0 <= i < |p| - 1 && p[1..][i].name == k;
        assert p[i + 1].name == k;
      }
      PutAllAfter([e], [], p[1..]);
      assert [e] + [] == [e];
      PutAllCopy(p[1..]);
      assert p == [e] + p[1..];
    }
  }

  /** `{**a, **b}` of dicts with no common key is a followed by b: every entry of both survives. */
  lemma MergeDisjoint(a: seq<Entry>, b: seq<Entry>)
    requires UniqueNames(a) && UniqueNames(b)
    requires forall k :: HasName(b, k) ==> !HasName(a, k)
    ensures PutAll(PutAll([], a), b) == a + b
  {
    PutAllCopy(a);
    PutAllAfter(a, [], b);
    PutAllCopy(b);
    assert a + [] == a;
  }

  /** No name of a is a name of b. */
  predicate DisjointNames(a: seq<Entry>, b: seq<Entry>) {
    forall i, j :: 0 <= i < |a| && 0 <= j < |b| ==> a[i].name != b[j].name
  }

  /** The only name p shares with t is the one at position i0 of p. */
  predicate SharesOnlyAt(p: seq<Entry>, t: seq<Entry>, i0: int) {
    forall i, j :: 0 <= i < |p| && 0 <= j < |t| && p[i].name == t[j].name ==> i == i0
  }

  /** Every alias list lists its own key. */
  predicate NamesInAliases(p: seq<Entry>) {
    forall j :: 0 <= j < |p| ==> p[j].name in p[j].aliases
  }

  /** Every pair listing alias is named name. */
  predicate OnlyUnder(p: seq<Entry>, alias: string, name: string) {
    forall j :: 0 <= j < |p| && alias in p[j].aliases ==> p[j].name == name
  }

  lemma UniqueConcat(a: seq<Entry>, b: seq<Entry>)
    requires UniqueNames(a) && UniqueNames(b) && DisjointNames(b, a)
    ensures UniqueNames(a + b)
  {
    forall i, j | 0 <= i < j < |a + b| ensures (a + b)[i].name != (a + b)[j].name {
      if j >= |a| && i < |a| {
        assert b[j - |a|].name != a[i].name;
      }
    }
  }

  lemma DisjointFromConcat(c: seq<Entry>, a: seq<Entry>, b: seq<Entry>)
    requires DisjointNames(c, a) && DisjointNames(c, b)
    ensures DisjointNames(c, a + b)
  {
    forall i, j | 0 <= i < |c| && 0 <= j < |a + b| ensures c[i].name != (a + b)[j].name {
      if j >= |a| {
        assert (a + b)[j] == b[j - |a|];
      }
    }
  }

  lemma SharesOnlyAtConcat(p: seq<Entry>, a: seq<Entry>, b: seq<Entry>, i0: int)
    requires SharesOnlyAt(p, a, i0) && SharesOnlyAt(p, b, i0)
    ensures SharesOnlyAt(p, a + b, i0)
  {
    forall i, j | 0 <= i < |p| && 0 <= j < |a + b| && p[i].name == (a + b)[j].name ensures i == i0 {
      if j >= |a| {
        assert (a + b)[j] == b[j - |a|];
      }
    }
  }

  lemma DisjointNoName(a: seq<Entry>, b: seq<Entry>, k: string)
    requires DisjointNames(a, b) && HasName(a, k)
    ensures !HasName(b, k)
  {
    HasNameIndex(a, k);
    HasNameIndex(b, k);
  }

  /** Writing a key that is not yet present appends it. */
  lemma PutAppends(t: seq<Entry>, k: string, v: seq<string>)
    requires !HasName(t, k)
    ensures Put(t, k, v) == t + [Entry(k, v)]
  {
    PutShape(t, k, v);
    HasNameIndex(t, k);
  }

  /** Storing two displays one after the other is storing their concatenation. */
  lemma {:induction false} PutAllConcat(t: seq<Entry>, a: seq<Entry>, b: seq<Entry>)
    ensures PutAll(t, a + b) == PutAll(PutAll(t, a), b)
    decreases a
  {
    if a != [] {
      assert (a + b)[0] == a[0] && (a + b)[1..] == a[1..] + b;
      PutAllConcat(Put(t, a[0].name, a[0].aliases), a[1..], b);
    } else {
      assert a + b == b;
    }
  }

  /** Storing a display with distinct keys, none of them already present, appends it. */
  lemma PutAllFreshLength(t: seq<Entry>, p: seq<Entry>)
    requires UniqueNames(p)
    requires forall k :: HasName(p, k) ==> !HasName(t, k)
    ensures |PutAll(t, p)| == |t| + |p|
  {
    PutAllAfter(t, [], p);
    PutAllCopy(p);
    assert t + [] == t;
  }

  /**
   * Storing a display with distinct keys that repeats exactly one key of t,
   * the one at position i0, adds one entry fewer than the display has.
   */
  lemma {:induction false} PutAllOneSharedLength(t: seq<Entry>, p: seq<Entry>, i0: int)
    requires UniqueNames(t) && UniqueNames(p)
    requires 0 <= i0 < |p| && HasName(t, p[i0].name)
    requires SharesOnlyAt(p, t, i0)
    ensures |PutAll(t, p)| == |t| + |p| - 1
    decreases p
  {
    var e := p[0];
    var t' := Put(t, e.name, e.aliases);
    var q := p[1..];
    PutShape(t, e.name, e.aliases);
    PutKeys(t, e.name, e.aliases);
    HasNameIndex(t, e.name);
    HasNameIndex(q, e.name);
    assert UniqueNames(q) by {
      forall i, j | 0 <= i < j < |q| ensures q[i].name != q[j].name {
        assert q[i] == p[i + 1] && q[j] == p[j + 1];
      }
    }
    if i0 == 0 {
      assert |t'| == |t|;
      forall k | HasName(q, k) ensures !HasName(t', k) {
        HasNameIndex(q, k);
        var i :| 0 <= i < |q| && q[i].name == k;
        assert p[i + 1].name == k;
        HasNameIndex(t, k);
        assert forall j :: 0 <= j < |t| ==> t[j].name != k;
      }
      PutAllFreshLength(t', q);
    } else {
      assert forall j :: 0 <= j < |t| ==> t[j].name != e.name;
      assert |t'| == |t| + 1;
      assert q[i0 - 1] == p[i0];
      assert HasName(t', q[i0 - 1].name);
      forall i, j | 0 <= i < |q| && 0 <= j < |t'| && q[i].name == t'[j].name ensures i == i0 - 1 {
        assert q[i] == p[i + 1];
        if j < |t| {
          assert t'[j].name == t[j].name;
        }
      }
      PutAllOneSharedLength(t', q, i0 - 1);
    }
  }

  /** Every entry of a dict built from a display is a pair of the display, the last one written for its key. */
  lemma BuiltEntry(p: seq<Entry>, e: Entry)
    requires e in PutAll([], p)
    ensures LastValue(p, e.name) == Some(e.aliases)
    ensures e in p
  {
    PutAllShape([], p);
    LookupFinds(PutAll([], p), e);
    PutAllLookup([], p, e.name);
    LastValueIn(p, e.name);
  }

  /** A key written once in a display keeps the value written there. */
  lemma {:induction false} LastValueOnce(p: seq<Entry>, i: int)
    requires 0 <= i < |p|
    requires forall j :: 0 <= j < |p| && j != i ==> p[j].name != p[i].name
    ensures LastValue(p, p[i].name) == Some(p[i].aliases)
  {
    var k := p[i].name;
    if i == 0 {
      HasNameIndex(p[1..], k);
      forall j | 0 <= j < |p| - 1 ensures p[1..][j].name != k {
        assert p[1..][j] == p[j + 1];
      }
      LastValueHasName(p[1..], k);
    } else {
      assert p[1..][i - 1] == p[i];
      forall j | 0 <= j < |p| - 1 && j != i - 1 ensures p[1..][j].name != k {
        assert p[1..][j] == p[j + 1];
      }
      LastValueOnce(p[1..], i - 1);
    }
  }
}
