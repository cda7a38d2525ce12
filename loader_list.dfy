/** The list utilities behind the loader state: JavaScript's `indexOf`, the
    `uniq` helper (a filter that keeps each element at its first index) and the
    filter that drops one name. Elements are loader names, modelled as strings
    compared by strict equality. */
module LoaderList {

  /** Position of the first occurrence of `x` in `s`, or -1 when `x` is absent,
      as `Array.prototype.indexOf` answers under strict equality. */
  function IndexOf(s: seq<string>, x: string): (r: int)
    ensures -1 <= r < |s|
    ensures r == -1 <==> x !in s
    ensures 0 <= r ==> s[r] == x && x !in s[..r]
  {
    if s == [] then -1
    else if s[0] == x then 0
    else
      var k := IndexOf(s[1..], x);
      if k == -1 then -1
      else
        assert s[..k + 1] == [s[0]] + s[1..][..k];
        k + 1
  }

  /** No name occurs twice. */
  predicate NoDup(s: seq<string>) {
    forall i, j :: 0 <= i < j < |s| ==> s[i] != s[j]
  }

  /** The filter of `uniq` restricted to the first `n` positions of `s`: the
      element at index `i` is kept exactly when `i` is the index `indexOf`
      reports for it in the whole of `s`. */
  function KeepFirst(s: seq<string>, n: nat): seq<string>
    requires n <= |s|
  {
    if n == 0 then []
    else KeepFirst(s, n - 1) + (if IndexOf(s, s[n - 1]) == n - 1 then [s[n - 1]] else [])
  }

  /** `uniq(array)`: `array.filter((el, index, arr) => index == arr.indexOf(el))`.
      The result has no duplicates and holds exactly the input's elements. */
  function Uniq(s: seq<string>): (r: seq<string>)
    ensures NoDup(r)
    ensures forall x :: x in r <==> x in s
  {
    KeepFirstElements(s, |s|);
    assert s[..|s|] == s;
    KeepFirst(s, |s|)
  }

  /** `s.filter(p => p !== m)`: every copy of `m` goes, everything else stays. */
  function Without(s: seq<string>, m: string): (r: seq<string>)
    ensures forall x :: x in r <==> x in s && x != m
  {
    if s == [] then []
    else
      assert s == s[..|s| - 1] + [s[|s| - 1]];
      Without(s[..|s| - 1], m) + (if s[|s| - 1] != m then [s[|s| - 1]] else [])
  }

  /** Every two names present in both lists come in the same order in both lists,
      order meaning the order of first occurrences. */
  ghost predicate SameOrder(s: seq<string>, t: seq<string>) {
    forall x, y ::
      x in s && y in s && x in t && y in t ==>
        (IndexOf(t, x) < IndexOf(t, y) <==> IndexOf(s, x) < IndexOf(s, y))
  }

  // ---------------------------------------------------------------- indexOf

  /** The first index is characterised by its two defining facts. */
  lemma IndexOfUnique(s: seq<string>, x: string, r: nat)
    requires r < |s| && s[r] == x && x !in s[..r]
    ensures IndexOf(s, x) == r
  {
  }

  /** Appending an element does not move the first index of anything already present,
      and an absent element is first found at the new last position. */
  lemma IndexOfSnoc(s: seq<string>, x: string, y: string)
    ensures IndexOf(s + [x], y) == if y in s then IndexOf(s, y) else if y == x then |s| else -1
  {
    var t := s + [x];
    assert t[..|s|] == s;
    if y in s {
      var r := IndexOf(s, y);
      assert t[..r] == s[..r];
      IndexOfUnique(t, y, r);
    } else if y == x {
      IndexOfUnique(t, y, |s|);
    }
  }

  /** `indexOf` of the element at `i` depends only on the first `i + 1` elements. */
  lemma IndexOfAgree(s: seq<string>, t: seq<string>, i: nat)
    requires i < |s| && i < |t| && s[..i + 1] == t[..i + 1]
    ensures IndexOf(s, s[i]) == IndexOf(t, t[i])
  {
    assert s[i] == s[..i + 1][i] == t[..i + 1][i] == t[i];
    var r := IndexOf(s, s[i]);
    assert s[..r] == s[..i + 1][..r] == t[..i + 1][..r] == t[..r];
    IndexOfUnique(t, t[i], r);
  }

  // ------------------------------------------------------------------- uniq

  /** The filter over a prefix depends only on that prefix. */
  lemma {:induction false} KeepFirstAgree(s: seq<string>, t: seq<string>, n: nat)
    requires n <= |s| && n <= |t| && s[..n] == t[..n]
    ensures KeepFirst(s, n) == KeepFirst(t, n)
  {
    if n > 0 {
      assert s[..n - 1] == s[..n][..n - 1] == t[..n][..n - 1] == t[..n - 1];
      KeepFirstAgree(s, t, n - 1);
      assert s[..n] == s[..n - 1 + 1];
      IndexOfAgree(s, t, n - 1);
      assert s[n - 1] == s[..n][n - 1] == t[..n][n - 1] == t[n - 1];
    }
  }

  /** `uniq` of a list with one more element at the end: that element is kept
      exactly when it did not occur before. */
  lemma UniqSnoc(s: seq<string>, x: string)
    ensures Uniq(s + [x]) == Uniq(s) + (if x in s then [] else [x])
  {
    var t := s + [x];
    assert t[..|s|] == s[..|s|];
    KeepFirstAgree(t, s, |s|);
    IndexOfSnoc(s, x, x);
  }

  /** The filter over the first `n` positions keeps one copy of each name they hold. */
  lemma {:induction false} KeepFirstElements(s: seq<string>, n: nat)
    requires n <= |s|
    ensures NoDup(KeepFirst(s, n))
    ensures forall x :: x in KeepFirst(s, n) <==> x in s[..n]
  {
    if n > 0 {
      KeepFirstElements(s, n - 1);
      assert s[..n] == s[..n - 1] + [s[n - 1]];
      var k := IndexOf(s, s[n - 1]);
      if k == n - 1 {
        assert s[n - 1] !in s[..n - 1];
      } else {
        assert s[..n - 1][k] == s[n - 1];
      }
    }
  }

  /** `uniq` keeps names in the order of their first occurrence in the input. */
  lemma {:induction false} UniqOrder(s: seq<string>)
    ensures SameOrder(s, Uniq(s))
  {
    if s != [] {
      var p, x := s[..|s| - 1], s[|s| - 1];
      assert s == p + [x];
      UniqOrder(p);
      UniqSnoc(p, x);
      if x in p {
        SameOrderSnocLeft(p, Uniq(p), x);
      } else {
        SameOrderSnocBoth(p, Uniq(p), x);
      }
    }
  }

  /** On a list that is already duplicate-free `uniq` is the identity. */
  lemma {:induction false} UniqOfNoDup(s: seq<string>)
    requires NoDup(s)
    ensures Uniq(s) == s
  {
    if s != [] {
      var p, x := s[..|s| - 1], s[|s| - 1];
      assert s == p + [x];
      assert NoDup(p);
      assert x !in p by {
        forall i | 0 <= i < |p| ensures p[i] != x {
          assert s[i] == p[i];
        }
      }
      UniqOfNoDup(p);
      UniqSnoc(p, x);
    }
  }

  /** `uniq` is idempotent. */
  lemma UniqIdempotent(s: seq<string>)
    ensures Uniq(Uniq(s)) == Uniq(s)
  {
    UniqOfNoDup(Uniq(s));
  }

  // ---------------------------------------------------------------- without

  /** The filter introduces no duplicates. */
  lemma {:induction false} WithoutNoDup(s: seq<string>, m: string)
    requires NoDup(s)
    ensures NoDup(Without(s, m))
  {
    if s != [] {
      var p, x := s[..|s| - 1], s[|s| - 1];
      assert s == p + [x];
      assert NoDup(p);
      assert x !in p by {
        forall i | 0 <= i < |p| ensures p[i] != x {
          assert s[i] == p[i];
        }
      }
      WithoutNoDup(p, m);
    }
  }

  /** Filtering out a name that does not occur changes nothing. */
  lemma {:induction false} WithoutAbsent(s: seq<string>, m: string)
    requires m !in s
    ensures Without(s, m) == s
  {
    if s != [] {
      var p := s[..|s| - 1];
      assert s == p + [s[|s| - 1]];
      WithoutAbsent(p, m);
    }
  }

  /** The filter keeps the relative order of the names it retains. */
  lemma {:induction false} WithoutOrder(s: seq<string>, m: string)
    ensures SameOrder(s, Without(s, m))
  {
    if s != [] {
      var p, x := s[..|s| - 1], s[|s| - 1];
      assert s == p + [x];
      var w := Without(p, m);
      WithoutOrder(p, m);
      if x == m {
        assert Without(s, m) == w;
        SameOrderSnocLeft(p, w, x);
      } else {
        assert Without(s, m) == w + [x];
        assert x in p <==> x in w;
        SameOrderSnocBoth(p, w, x);
      }
    }
  }

  // ------------------------------------------------------------ same order

  /** Appending one name to the first list keeps the order agreement when that
      name was present already or is absent from the second list. */
  lemma SameOrderSnocLeft(s: seq<string>, t: seq<string>, x: string)
    requires SameOrder(s, t)
    requires x in s || x !in t
    ensures SameOrder(s + [x], t)
  {
    forall y, z | y in s + [x] && z in s + [x] && y in t && z in t
      ensures IndexOf(t, y) < IndexOf(t, z) <==> IndexOf(s + [x], y) < IndexOf(s + [x], z)
    {
      IndexOfSnoc(s, x, y);
      IndexOfSnoc(s, x, z);
    }
  }

  /** Appending the same name to both lists keeps the order agreement when that
      name occurs in both or in neither. */
  lemma SameOrderSnocBoth(s: seq<string>, t: seq<string>, x: string)
    requires SameOrder(s, t)
    requires x in s <==> x in t
    ensures SameOrder(s + [x], t + [x])
  {
    forall y, z | y in s + [x] && z in s + [x] && y in t + [x] && z in t + [x]
      ensures IndexOf(t + [x], y) < IndexOf(t + [x], z) <==> IndexOf(s + [x], y) < IndexOf(s + [x], z)
    {
      IndexOfSnoc(s, x, y);
      IndexOfSnoc(s, x, z);
      IndexOfSnoc(t, x, y);
      IndexOfSnoc(t, x, z);
    }
  }

  /** Order agreement composes through a middle list that holds every shared name. */
  lemma SameOrderTrans(s: seq<string>, t: seq<string>, u: seq<string>)
    requires SameOrder(s, t) && SameOrder(t, u)
    requires forall x :: x in s && x in u ==> x in t
    ensures SameOrder(s, u)
  {
  }
}
