/**
 * A stable sort in descending order of a numeric key: Python's
 * `sorted(xs, key=f, reverse=True)` / `xs.sort(key=f, reverse=True)` and
 * JavaScript's `xs.sort((a, b) => f(b) - f(a))`. Both libraries sort
 * stably, so records with equal keys keep their input order.
 */
module StableSort {

  /** Non-increasing by key. */
  predicate SortedDesc<T>(s: seq<T>, key: T -> real) {
    forall i, j :: 0 <= i < j < |s| ==> key(s[i]) >= key(s[j])
  }

  /** The records of s whose key is k, in their order in s. */
  function WithKey<T>(s: seq<T>, key: T -> real, k: real): seq<T> {
    if s == [] then []
    else WithKey(s[..|s| - 1], key, k) + (if key(s[|s| - 1]) == k then [s[|s| - 1]] else [])
  }

  /**
   * Stability: every group of records sharing a key comes out in the order
   * it went in.
   */
  ghost predicate SameGroups<T>(a: seq<T>, b: seq<T>, key: T -> real) {
    forall k :: WithKey(a, key, k) == WithKey(b, key, k)
  }

  lemma {:induction false} WithKeyConcat<T>(a: seq<T>, b: seq<T>, key: T -> real, k: real)
    ensures WithKey(a + b, key, k) == WithKey(a, key, k) + WithKey(b, key, k)
  {
    if b != [] {
      WithKeyConcat(a, b[..|b| - 1], key, k);
      assert (a + b)[..|a + b| - 1] == a + b[..|b| - 1];
    } else {
      assert a + b == a;
    }
  }

  lemma {:induction false} WithKeyNone<T>(s: seq<T>, key: T -> real, k: real)
    requires forall i :: 0 <= i < |s| ==> key(s[i]) != k
    ensures WithKey(s, key, k) == []
  {
    if s != [] {
      WithKeyNone(s[..|s| - 1], key, k);
    }
  }

  /** Where a stable descending insertion puts x: after every record whose key is at least x's. */
  function InsertPos<T>(x: T, s: seq<T>, key: T -> real): (p: nat)
    ensures p <= |s|
    ensures forall i :: 0 <= i < p ==> key(s[i]) >= key(x)
    ensures p < |s| ==> key(s[p]) < key(x)
  {
    if s == [] || key(s[0]) < key(x) then 0 else 1 + InsertPos(x, s[1..], key)
  }

  function InsertDesc<T>(x: T, s: seq<T>, key: T -> real): seq<T> {
    var p := InsertPos(x, s, key);
    s[..p] + [x] + s[p..]
  }

  /** Every record after the insertion point has a key below x's. */
  lemma InsertPosAfter<T>(x: T, s: seq<T>, key: T -> real)
    requires SortedDesc(s, key)
    ensures forall i :: InsertPos(x, s, key) <= i < |s| ==> key(s[i]) < key(x)
  {
    var p := InsertPos(x, s, key);
    forall i | p <= i < |s| ensures key(s[i]) < key(x) {
      assert key(s[p]) >= key(s[i]);
    }
  }

  lemma InsertDescSpec<T>(x: T, s: seq<T>, key: T -> real)
    requires SortedDesc(s, key)
    ensures SortedDesc(InsertDesc(x, s, key), key)
    ensures multiset(InsertDesc(x, s, key)) == multiset(s) + multiset{x}
    ensures forall k :: WithKey(InsertDesc(x, s, key), key, k) ==
                        WithKey(s, key, k) + (if key(x) == k then [x] else [])
  {
    InsertDescSorted(x, s, key);
    InsertDescMultiset(x, s, key);
    forall k ensures WithKey(InsertDesc(x, s, key), key, k) == WithKey(s, key, k) + (if key(x) == k then [x] else []) {
      InsertDescGroup(x, s, key, k);
    }
  }

  lemma InsertDescSorted<T>(x: T, s: seq<T>, key: T -> real)
    requires SortedDesc(s, key)
    ensures SortedDesc(InsertDesc(x, s, key), key)
  {
    var p := InsertPos(x, s, key);
    var r := InsertDesc(x, s, key);
    InsertPosAfter(x, s, key);
    assert forall i :: 0 <= i < p ==> r[i] == s[i];
    assert r[p] == x;
    assert forall i :: p < i < |r| ==> r[i] == s[i - 1];
    forall i, j | 0 <= i < j < |r| ensures key(r[i]) >= key(r[j]) {
      if j == p {
      } else if i == p {
      } else if j < p {
      } else if i > p {
        assert key(s[i - 1]) >= key(s[j - 1]);
      } else {
        assert key(s[i]) >= key(s[j - 1]);
      }
    }
  }

  lemma InsertDescMultiset<T>(x: T, s: seq<T>, key: T -> real)
    ensures multiset(InsertDesc(x, s, key)) == multiset(s) + multiset{x}
  {
    var p := InsertPos(x, s, key);
    assert s == s[..p] + s[p..];
    assert multiset(s) == multiset(s[..p]) + multiset(s[p..]);
  }

  /** A single record forms its own group. */
  lemma WithKeySingle<T>(x: T, key: T -> real, k: real)
    ensures WithKey([x], key, k) == (if key(x) == k then [x] else [])
  {
    assert [x][..0] == [];
  }

  lemma WithKeyAround<T>(a: seq<T>, x: T, b: seq<T>, key: T -> real, k: real)
    ensures WithKey(a + [x] + b, key, k) == WithKey(a, key, k) + WithKey([x], key, k) + WithKey(b, key, k)
  {
    WithKeyConcat(a + [x], b, key, k);
    WithKeyConcat(a, [x], key, k);
  }

  lemma InsertDescGroup<T>(x: T, s: seq<T>, key: T -> real, k: real)
    requires SortedDesc(s, key)
    ensures WithKey(InsertDesc(x, s, key), key, k) == WithKey(s, key, k) + (if key(x) == k then [x] else [])
  {
    var p := InsertPos(x, s, key);
    var a, b := s[..p], s[p..];
    assert s == a + b;
    assert InsertDesc(x, s, key) == a + [x] + b;
    WithKeyAround(a, x, b, key, k);
    WithKeyConcat(a, b, key, k);
    WithKeySingle(x, key, k);
    if key(x) == k {
      InsertPosAfter(x, s, key);
      assert forall i :: 0 <= i < |b| ==> b[i] == s[p + i];
      WithKeyNone(b, key, k);
    }
    Rearranged(WithKey(a, key, k), WithKey(b, key, k), WithKey([x], key, k));
  }

  /** Moving a group past an empty one, or an empty group past anything, changes nothing. */
  lemma Rearranged<T>(front: seq<T>, back: seq<T>, mid: seq<T>)
    requires back == [] || mid == []
    ensures front + mid + back == front + back + mid
  {
  }

  /**
   * The stable descending sort: records taken in input order, each inserted
   * after every record already placed whose key is at least its own.
   */
  function SortDesc<T>(s: seq<T>, key: T -> real): seq<T> {
    if s == [] then []
    else InsertDesc(s[|s| - 1], SortDesc(s[..|s| - 1], key), key)
  }

  /**
   * The sort's output is non-increasing by key, a reordering of its input,
   * and keeps every group of equal keys in input order.
   */
  lemma {:induction false} SortDescSpec<T>(s: seq<T>, key: T -> real)
    ensures SortedDesc(SortDesc(s, key), key)
    ensures multiset(SortDesc(s, key)) == multiset(s)
    ensures SameGroups(SortDesc(s, key), s, key)
  {
    if s != [] {
      var init, x := s[..|s| - 1], s[|s| - 1];
      SortDescSpec(init, key);
      var t := SortDesc(init, key);
      InsertDescSpec(x, t, key);
      assert s == init + [x];
      assert multiset(s) == multiset(init) + multiset{x};
      forall k ensures WithKey(SortDesc(s, key), key, k) == WithKey(s, key, k) {
        assert WithKey(s, key, k) == WithKey(init, key, k) + (if key(x) == k then [x] else []);
      }
    }
  }

  /** The sort's output holds exactly the records of its input. */
  lemma SortDescMembers<T>(s: seq<T>, key: T -> real)
    ensures forall x :: x in SortDesc(s, key) <==> x in s
  {
    SortDescSpec(s, key);
    var r := SortDesc(s, key);
    assert forall x :: x in r <==> x in multiset(r);
    assert forall x :: x in s <==> x in multiset(s);
  }

  /** Sorting keeps the length, and the output is a reordering of the input. */
  lemma SortDescLength<T>(s: seq<T>, key: T -> real)
    ensures |SortDesc(s, key)| == |s|
  {
    SortDescSpec(s, key);
    var r := SortDesc(s, key);
    assert |multiset(r)| == |multiset(s)|;
  }

  lemma {:induction false} SameGroupsUnique<T>(a: seq<T>, b: seq<T>, key: T -> real)
    requires SortedDesc(a, key) && SortedDesc(b, key)
    requires SameGroups(a, b, key)
    ensures a == b
  {
    if a != [] {
      var x := a[|a| - 1];
      var k := key(x);
      assert WithKey(a, key, k) != [];
      assert b != [];
      var y := b[|b| - 1];
      // the last record of each side carries the least key of both
      if key(y) < k {
        assert WithKey(b, key, key(y)) != [];
        WithKeyNone(a, key, key(y));
        assert false;
      }
      if k < key(y) {
        assert WithKey(a, key, k) != [];
        WithKeyNone(b, key, k);
        assert false;
      }
      var a', b' := a[..|a| - 1], b[..|b| - 1];
      var wa, wb := WithKey(a', key, k), WithKey(b', key, k);
      assert WithKey(a, key, k) == wa + [x];
      assert WithKey(b, key, k) == wb + [y];
      assert (wa + [x])[|wa|] == x && (wb + [y])[|wb|] == y;
      assert x == y;
      assert wa == (wa + [x])[..|wa|] && wb == (wb + [y])[..|wb|];
      forall k2 ensures WithKey(a', key, k2) == WithKey(b', key, k2) {
        assert WithKey(a, key, k2) == WithKey(a', key, k2) + (if k == k2 then [x] else []);
        assert WithKey(b, key, k2) == WithKey(b', key, k2) + (if k == k2 then [y] else []);
        assert WithKey(a, key, k2) == WithKey(b, key, k2);
        if k == k2 {
          assert wa + [x] == wb + [y];
          assert wa == wb;
          assert WithKey(a', key, k2) == wa;
        } else {
          assert WithKey(a', key, k2) == WithKey(a, key, k2);
        }
        assert WithKey(a', key, k2) == WithKey(b', key, k2);
      }
      SameGroupsUnique(a', b', key);
      assert a == a[..|a| - 1] + [x];
      assert b == b[..|b| - 1] + [y];
    }
  }

  /** The records of s each passed through f. */
  function MapSeq<T, U>(s: seq<T>, f: T -> U): (r: seq<U>)
    ensures |r| == |s| && forall i :: 0 <= i < |s| ==> r[i] == f(s[i])
  {
    seq(|s|, i requires 0 <= i < |s| => f(s[i]))
  }

  lemma {:induction false} InsertPosMap<T, U>(x: T, t: seq<T>, f: T -> U, keyT: T -> real, keyU: U -> real)
    requires forall y :: keyT(y) == keyU(f(y))
    ensures InsertPos(x, t, keyT) == InsertPos(f(x), MapSeq(t, f), keyU)
  {
    if t != [] && keyT(t[0]) >= keyT(x) {
      assert MapSeq(t, f)[1..] == MapSeq(t[1..], f);
      InsertPosMap(x, t[1..], f, keyT, keyU);
    }
  }

  lemma InsertDescMap<T, U>(x: T, t: seq<T>, f: T -> U, keyT: T -> real, keyU: U -> real)
    requires forall y :: keyT(y) == keyU(f(y))
    ensures MapSeq(InsertDesc(x, t, keyT), f) == InsertDesc(f(x), MapSeq(t, f), keyU)
  {
    InsertPosMap(x, t, f, keyT, keyU);
    var p := InsertPos(x, t, keyT);
    var a, b := MapSeq(InsertDesc(x, t, keyT), f), InsertDesc(f(x), MapSeq(t, f), keyU);
    assert |a| == |b|;
    forall i | 0 <= i < |a| ensures a[i] == b[i] {
      if i < p {
      } else if i == p {
      } else {
        assert a[i] == f(t[i - 1]);
      }
    }
  }

  /**
   * Sorting records by a key read through f, then projecting them with f, is
   * sorting the projections: the order depends on the keys alone.
   */
  lemma {:induction false} SortDescMap<T, U>(s: seq<T>, f: T -> U, keyT: T -> real, keyU: U -> real)
    requires forall y :: keyT(y) == keyU(f(y))
    ensures MapSeq(SortDesc(s, keyT), f) == SortDesc(MapSeq(s, f), keyU)
  {
    if s != [] {
      var init, x := s[..|s| - 1], s[|s| - 1];
      SortDescMap(init, f, keyT, keyU);
      var m := MapSeq(s, f);
      assert m[..|m| - 1] == MapSeq(init, f) && m[|m| - 1] == f(x);
      assert SortDesc(s, keyT) == InsertDesc(x, SortDesc(init, keyT), keyT);
      assert SortDesc(m, keyU) == InsertDesc(f(x), SortDesc(MapSeq(init, f), keyU), keyU);
      InsertDescMap(x, SortDesc(init, keyT), f, keyT, keyU);
    }
  }
}
