/** Sequence facts behind the list's identity-based removal: the list scans
    from its head for the first element that is the same object as the one
    asked for, and unlinks that one element. */
module Sequences {

  /** No element occurs twice. */
  ghost predicate Distinct<T>(s: seq<T>) {
    forall i, j :: 0 <= i < j < |s| ==> s[i] != s[j]
  }

  /** Position of the first occurrence of x in s. */
  function FirstIndex<T(==)>(s: seq<T>, x: T): (k: nat)
    requires x in s
    ensures k < |s| && s[k] == x
    ensures x !in s[..k]
  {
    if s[0] == x then 0
    else
      var k' := FirstIndex(s[1..], x);
      assert s[1..][..k'] == s[1..k' + 1];
      assert s[..k' + 1] == [s[0]] + s[1..k' + 1];
      k' + 1
  }

  /** s with the first occurrence of x taken out; everything else keeps its order. */
  function RemoveFirst<T(==)>(s: seq<T>, x: T): (r: seq<T>)
    requires x in s
    ensures |r| == |s| - 1
    ensures multiset(r) + multiset{x} == multiset(s)
  {
    var k := FirstIndex(s, x);
    assert s == s[..k] + [s[k]] + s[k + 1..];
    s[..k] + s[k + 1..]
  }

  /** The first occurrence of s[i] is at i exactly when no earlier element is the same. */
  lemma FirstIndexAt<T>(s: seq<T>, i: nat)
    requires i < |s|
    ensures FirstIndex(s, s[i]) == i <==> s[i] !in s[..i]
  {
    var k := FirstIndex(s, s[i]);
  }

  /** Removing s[i], when no earlier element is the same object, deletes position i. */
  lemma RemoveFirstAt<T>(s: seq<T>, i: nat)
    requires i < |s|
    requires s[i] !in s[..i]
    ensures RemoveFirst(s, s[i]) == s[..i] + s[i + 1..]
  {
    FirstIndexAt(s, i);
  }

  /** In a list without repeated elements, removal by identity is removal by position. */
  lemma RemoveFirstDistinct<T>(s: seq<T>, i: nat)
    requires i < |s|
    requires Distinct(s)
    ensures RemoveFirst(s, s[i]) == s[..i] + s[i + 1..]
  {
    assert s[i] !in s[..i] by {
      forall j | 0 <= j < i ensures s[..i][j] != s[i] {
        assert s[..i][j] == s[j];
      }
    }
    RemoveFirstAt(s, i);
  }

  /** Round trip: removing an element just inserted, which was not present
      before, gives the list back. */
  lemma RemoveFirstInserted<T>(s: seq<T>, i: nat, x: T)
    requires i <= |s| && x !in s
    ensures RemoveFirst(s[..i] + [x] + s[i..], x) == s
  {
    var t := s[..i] + [x] + s[i..];
    assert t[..i] == s[..i] && t[i] == x;
    RemoveFirstAt(t, i);
    assert t[i + 1..] == s[i..];
    assert s[..i] + s[i..] == s;
  }

  /** Taking one element out keeps a list free of repeats. */
  lemma DistinctRemoveAt<T>(s: seq<T>, i: nat)
    requires i < |s|
    requires Distinct(s)
    ensures Distinct(s[..i] + s[i + 1..])
  {
    var r := s[..i] + s[i + 1..];
    forall a, b | 0 <= a < b < |r| ensures r[a] != r[b] {
      var a' := if a < i then a else a + 1;
      var b' := if b < i then b else b + 1;
      assert r[a] == s[a'] && r[b] == s[b'];
    }
  }

  /** Inserting an element that is not yet present keeps a list free of repeats. */
  lemma DistinctInsert<T>(s: seq<T>, i: nat, x: T)
    requires i <= |s|
    requires Distinct(s) && x !in s
    ensures Distinct(s[..i] + [x] + s[i..])
  {
    var r := s[..i] + [x] + s[i..];
    forall a, b | 0 <= a < b < |r| ensures r[a] != r[b] {
      if a != i && b != i {
        var a' := if a < i then a else a - 1;
        var b' := if b < i then b else b - 1;
        assert r[a] == s[a'] && r[b] == s[b'];
      } else if a == i {
        assert r[b] == s[b - 1];
      } else {
        assert r[a] == s[a];
      }
    }
  }

  /** In a list without repeats every element occurs at most once. */
  lemma {:induction false} DistinctCountsAtMostOne<T>(s: seq<T>)
    requires Distinct(s)
    ensures forall x :: multiset(s)[x] <= 1
  {
    if s != [] {
      var t := s[1..];
      assert s == [s[0]] + t;
      assert Distinct(t) by {
        forall i, j | 0 <= i < j < |t| ensures t[i] != t[j] {
          assert t[i] == s[i + 1] && t[j] == s[j + 1];
        }
      }
      assert s[0] !in t by {
        forall j | 0 <= j < |t| ensures t[j] != s[0] {
          assert t[j] == s[j + 1];
        }
      }
      DistinctCountsAtMostOne(t);
    }
  }

  /** A list in which every element occurs at most once has no repeats. */
  lemma CountsAtMostOneDistinct<T>(s: seq<T>)
    requires forall x :: multiset(s)[x] <= 1
    ensures Distinct(s)
  {
    forall i, j | 0 <= i < j < |s| ensures s[i] != s[j] {
      assert s == s[..i] + [s[i]] + s[i + 1..j] + [s[j]] + s[j + 1..];
      assert multiset{s[i], s[j]} <= multiset(s);
    }
  }

  /** Keeping only some of the elements (in any order) keeps a list free of repeats. */
  lemma DistinctSubMultiset<T>(s: seq<T>, t: seq<T>)
    requires Distinct(s) && multiset(t) <= multiset(s)
    ensures Distinct(t)
  {
    DistinctCountsAtMostOne(s);
    forall x ensures multiset(t)[x] <= 1 {
      assert multiset(t)[x] <= multiset(s)[x];
    }
    CountsAtMostOneDistinct(t);
  }

  /** Appending an element that is not yet present keeps a list free of repeats. */
  lemma DistinctAppend<T>(s: seq<T>, x: T)
    requires Distinct(s) && x !in s
    ensures Distinct(s + [x])
  {
    DistinctInsert(s, |s|, x);
    assert s[..|s|] + [x] + s[|s|..] == s + [x];
  }

  /** Taking out element i and inserting x at the same position replaces
      element i by x. */
  lemma RemoveThenInsert<T>(s: seq<T>, i: nat, x: T)
    requires i < |s|
    ensures var t := s[..i] + s[i + 1..]; t[..i] + [x] + t[i..] == s[..i] + [x] + s[i + 1..]
  {
    var t := s[..i] + s[i + 1..];
    assert t[..i] == s[..i] && t[i..] == s[i + 1..];
  }

  /** Replacing the head by x and then removing position 2 (when count is 3)
      and position 1 leaves x followed by the elements from count on. */
  lemma ReplaceHeadThenDrop<T>(s: seq<T>, x: T, count: nat)
    requires (count == 2 || count == 3) && count <= |s|
    ensures var t := [x] + s[1..]; var u := if count == 3 then t[..2] + t[3..] else t;
      u[..1] + u[2..] == [x] + s[count..]
  {
    var t := [x] + s[1..];
    var u := if count == 3 then t[..2] + t[3..] else t;
    assert u[..1] == [x] && u[2..] == s[count..];
  }
}
