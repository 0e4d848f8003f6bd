/** The version drop-down list: `[...new Set(values)].sort()` (Quiz.js and
    Test.js), and the local update after a save, `[...prev, version].sort()`. */
module VersionList {

  /** The strict order `Array.prototype.sort` uses for strings when given no
      comparator: character by character, a proper prefix first. */
  predicate Before(a: string, b: string)
  {
    if a == [] then b != []
    else if b == [] then false
    else if a[0] == b[0] then Before(a[1..], b[1..])
    else a[0] < b[0]
  }

  predicate NotAfter(a: string, b: string) {
    a == b || Before(a, b)
  }

  lemma {:induction false} BeforeIrreflexive(a: string)
    ensures !Before(a, a)
  {
    if a != [] {
      BeforeIrreflexive(a[1..]);
    }
  }

  lemma {:induction false} BeforeAsymmetric(a: string, b: string)
    requires Before(a, b)
    ensures !Before(b, a)
  {
    if a != [] && b != [] && a[0] == b[0] {
      BeforeAsymmetric(a[1..], b[1..]);
    }
  }

  lemma {:induction false} BeforeTransitive(a: string, b: string, c: string)
    requires Before(a, b) && Before(b, c)
    ensures Before(a, c)
  {
    if a != [] && b != [] && c != [] && a[0] == b[0] && b[0] == c[0] {
      BeforeTransitive(a[1..], b[1..], c[1..]);
    }
  }

  lemma {:induction false} BeforeTotal(a: string, b: string)
    requires a != b
    ensures Before(a, b) || Before(b, a)
  {
    if a != [] && b != [] && a[0] == b[0] {
      assert a == [a[0]] + a[1..] && b == [b[0]] + b[1..];
      BeforeTotal(a[1..], b[1..]);
    }
  }

  lemma NotAfterTransitive(a: string, b: string, c: string)
    requires NotAfter(a, b) && NotAfter(b, c)
    ensures NotAfter(a, c)
  {
    if a != b && b != c {
      BeforeTransitive(a, b, c);
    }
  }

  predicate Sorted(s: seq<string>) {
    forall i, j :: 0 <= i < j < |s| ==> NotAfter(s[i], s[j])
  }

  /** Sorted with no value twice: what the drop-down lists show. */
  predicate StrictlySorted(s: seq<string>) {
    forall i, j :: 0 <= i < j < |s| ==> Before(s[i], s[j])
  }

  /** `x` placed in the sorted list `s` just before the first element not below it. */
  function Insert(x: string, s: seq<string>): (r: seq<string>)
    requires Sorted(s)
    ensures Sorted(r)
    ensures multiset(r) == multiset(s) + multiset{x}
  {
    if s == [] || NotAfter(x, s[0]) then
      assert forall j :: 0 <= j < |s| ==> NotAfter(x, s[j]) by {
        forall j | 0 <= j < |s| ensures NotAfter(x, s[j]) {
          NotAfterTransitive(x, s[0], s[j]);
        }
      }
      [x] + s
    else
      var t := Insert(x, s[1..]);
      assert s == [s[0]] + s[1..];
      assert forall j :: 0 <= j < |t| ==> NotAfter(s[0], t[j]) by {
        forall j | 0 <= j < |t| ensures NotAfter(s[0], t[j]) {
          assert t[j] in multiset(t);
          if t[j] != x {
            assert t[j] in multiset(s[1..]);
            var k :| 0 <= k < |s[1..]| && s[1..][k] == t[j];
            assert s[k + 1] == t[j];
          } else {
            BeforeTotal(x, s[0]);
          }
        }
      }
      [s[0]] + t
  }

  /** The model of `.sort()`: an insertion sort. Any sort gives the same
      answer (see SortedPermutationUnique), so the algorithm is immaterial. */
  function Sort(s: seq<string>): (r: seq<string>)
    ensures Sorted(r)
    ensures multiset(r) == multiset(s)
  {
    if s == [] then []
    else
      assert s == [s[0]] + s[1..];
      Insert(s[0], Sort(s[1..]))
  }

  /** Two sorted arrangements of the same strings are the same sequence. */
  lemma {:induction false} SortedPermutationUnique(a: seq<string>, b: seq<string>)
    requires Sorted(a) && Sorted(b)
    requires multiset(a) == multiset(b)
    ensures a == b
  {
    if a == [] {
      assert |multiset(b)| == 0;
    } else {
      assert b != [] by { assert a[0] in multiset(a); }
      assert a[0] in multiset(b);
      var k :| 0 <= k < |b| && b[k] == a[0];
      assert NotAfter(b[0], a[0]);
      assert b[0] in multiset(a);
      var m :| 0 <= m < |a| && a[m] == b[0];
      assert NotAfter(a[0], b[0]);
      if a[0] != b[0] {
        BeforeAsymmetric(a[0], b[0]);
      }
      assert a[0] == b[0];
      assert a == [a[0]] + a[1..] && b == [b[0]] + b[1..];
      assert multiset(a) == multiset{a[0]} + multiset(a[1..]);
      assert multiset(b) == multiset{b[0]} + multiset(b[1..]);
      assert multiset(a[1..]) == multiset(a) - multiset{a[0]};
      assert multiset(a[1..]) == multiset(b[1..]);
      SortedPermutationUnique(a[1..], b[1..]);
    }
  }

  /** `[...new Set(s)]`: every value once, at its first occurrence. */
  function Distinct(s: seq<string>): (r: seq<string>)
    ensures forall x :: multiset(r)[x] == if x in s then 1 else 0
  {
    if s == [] then []
    else
      var init, last := s[..|s| - 1], s[|s| - 1];
      assert s == init + [last];
      var d := Distinct(init);
      if last in init then d else d + [last]
  }

  /** A sorted list in which no value occurs twice is strictly sorted. */
  lemma SortedOnceIsStrict(s: seq<string>)
    requires Sorted(s)
    requires forall x :: multiset(s)[x] <= 1
    ensures StrictlySorted(s)
  {
    forall i, j | 0 <= i < j < |s| ensures Before(s[i], s[j]) {
      if s[i] == s[j] {
        OccursTwice(s, i, j);
        assert false;
      }
    }
  }

  lemma OccursTwice(s: seq<string>, i: nat, j: nat)
    requires i < j < |s| && s[i] == s[j]
    ensures multiset(s)[s[i]] >= 2
  {
    assert s == s[..j] + s[j..];
    assert s[i] in multiset(s[..j]);
    assert s[j] in multiset(s[j..]);
  }

  /** A strictly sorted list holds each of its values once. */
  lemma {:induction false} StrictlySortedOnce(s: seq<string>)
    requires StrictlySorted(s)
    ensures forall x :: multiset(s)[x] == if x in s then 1 else 0
  {
    if s != [] {
      StrictlySortedOnce(s[1..]);
      assert s == [s[0]] + s[1..];
      if s[0] in s[1..] {
        var k :| 0 <= k < |s[1..]| && s[1..][k] == s[0];
        assert Before(s[0], s[k + 1]);
        BeforeIrreflexive(s[0]);
      }
    }
  }

  /** The version list built from the fetched `version` column. */
  function UniqueSorted(values: seq<string>): (r: seq<string>)
    ensures StrictlySorted(r)
    ensures forall x :: x in r <==> x in values
  {
    var d := Distinct(values);
    var r := Sort(d);
    assert forall x :: x in r <==> x in multiset(r);
    SortedOnceIsStrict(r);
    r
  }

  /** After a save: `version` is added and the list re-sorted unless it is
      already listed. */
  function AddVersion(versions: seq<string>, version: string): (r: seq<string>)
    ensures forall x :: x in r <==> x in versions || x == version
    ensures version in versions ==> r == versions
    ensures version !in versions ==> Sorted(r) && |r| == |versions| + 1
  {
    if version in versions then versions
    else
      var r := Sort(versions + [version]);
      assert multiset(r) == multiset(versions) + multiset{version};
      assert |r| == |multiset(r)|;
      assert forall x :: x in r <==> x in multiset(r);
      r
  }

  /** Adding a version keeps the list strictly sorted, adds exactly that
      version, and gives the list a fresh fetch of the versions would give. */
  lemma AddVersionKeepsListShape(versions: seq<string>, version: string)
    requires StrictlySorted(versions)
    ensures StrictlySorted(AddVersion(versions, version))
    ensures forall x :: x in AddVersion(versions, version) <==> x in versions || x == version
    ensures AddVersion(versions, version) == UniqueSorted(versions + [version])
  {
    var r := AddVersion(versions, version);
    var u := UniqueSorted(versions + [version]);
    StrictlySortedOnce(versions);
    assert Sorted(r) && Sorted(u);
    assert forall x :: x in versions + [version] <==> x in versions || x == version;
    assert multiset(r) == multiset(u) by {
      forall x ensures multiset(r)[x] == multiset(u)[x] {
        assert multiset(u)[x] == if x in versions + [version] then 1 else 0;
      }
    }
    SortedPermutationUnique(r, u);
  }

}
