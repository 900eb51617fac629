/** The order in which `Array.prototype.sort` without a comparator puts
    strings (character by character, a proper prefix first), a sort that
    stands for the library's, and the facts that make its choice of algorithm
    irrelevant for duplicate-free input. */
module Ordering {

  /** `a` sorts strictly before `b`: at the first position where they differ
      `a` has the smaller character, or `a` is a proper prefix of `b`. */
  predicate Below(a: string, b: string)
    decreases |a|
  {
    |b| > 0 && (|a| == 0 || a[0] < b[0] || (a[0] == b[0] && Below(a[1..], b[1..])))
  }

  lemma {:induction false} BelowIrreflexive(a: string)
    ensures !Below(a, a)
    decreases |a|
  {
    if |a| > 0 {
      BelowIrreflexive(a[1..]);
    }
  }

  lemma {:induction false} BelowTransitive(a: string, b: string, c: string)
    requires Below(a, b) && Below(b, c)
    ensures Below(a, c)
    decreases |a|
  {
    if |a| > 0 && a[0] == b[0] && b[0] == c[0] {
      BelowTransitive(a[1..], b[1..], c[1..]);
    }
  }

  /** Any two different strings are ordered one way or the other. */
  lemma {:induction false} BelowTotal(a: string, b: string)
    requires a != b
    ensures Below(a, b) || Below(b, a)
    decreases |a|
  {
    if |a| > 0 && |b| > 0 && a[0] == b[0] {
      assert a == [a[0]] + a[1..] && b == [b[0]] + b[1..];
      BelowTotal(a[1..], b[1..]);
    }
  }

  lemma {:induction false} BelowAsymmetric(a: string, b: string)
    requires Below(a, b)
    ensures !Below(b, a)
  {
    if Below(b, a) {
      BelowTransitive(a, b, a);
      BelowIrreflexive(a);
    }
  }

  /** "Not below" is the reflexive order; it is transitive too. */
  lemma NotBelowTransitive(a: string, b: string, c: string)
    requires !Below(b, a) && !Below(c, b)
    ensures !Below(c, a)
  {
    if Below(c, a) {
      if a != b {
        BelowTotal(a, b);
        BelowTransitive(c, a, b);
      }
    }
  }

  /** Ascending order, equal neighbours allowed. */
  predicate Sorted(s: seq<string>) {
    forall i, j :: 0 <= i < j < |s| ==> !Below(s[j], s[i])
  }

  /** Ascending order without repetition. */
  predicate StrictlySorted(s: seq<string>) {
    forall i, j :: 0 <= i < j < |s| ==> Below(s[i], s[j])
  }

  function Elements(s: seq<string>): set<string> {
    set x | x in s
  }

  /** No string occurs twice. */
  predicate NoDuplicates(s: seq<string>) {
    forall x | x in multiset(s) :: multiset(s)[x] == 1
  }

  /** `x` inserted into `s` before the first element it is not below. */
  function Insert(x: string, s: seq<string>): (r: seq<string>)
    requires Sorted(s)
    ensures Sorted(r)
    ensures multiset(r) == multiset(s) + multiset{x}
  {
    if s == [] then [x]
    else if !Below(s[0], x) then
      InsertFrontSorted(x, s);
      [x] + s
    else
      var t := Insert(x, s[1..]);
      InsertBehindSorted(s[0], t, x, s[1..]);
      assert s == [s[0]] + s[1..];
      [s[0]] + t
  }

  lemma InsertFrontSorted(x: string, s: seq<string>)
    requires Sorted(s) && s != [] && !Below(s[0], x)
    ensures Sorted([x] + s)
  {
    var r := [x] + s;
    forall i, j | 0 <= i < j < |r| ensures !Below(r[j], r[i]) {
      if i == 0 && j > 1 {
        NotBelowTransitive(x, s[0], s[j - 1]);
      }
    }
  }

  lemma InsertBehindSorted(y: string, t: seq<string>, x: string, rest: seq<string>)
    requires Sorted(t) && Below(y, x)
    requires Sorted([y] + rest)
    requires multiset(t) == multiset(rest) + multiset{x}
    ensures Sorted([y] + t)
  {
    var r := [y] + t;
    forall i, j | 0 <= i < j < |r| ensures !Below(r[j], r[i]) {
      if i > 0 {
        assert r[i] == t[i - 1] && r[j] == t[j - 1];
      } else {
        var z := t[j - 1];
        assert z in multiset(t);
        if z == x {
          BelowAsymmetric(y, x);
        } else {
          assert z in multiset(rest);
          var k :| 0 <= k < |rest| && rest[k] == z;
          assert ([y] + rest)[k + 1] == z && ([y] + rest)[0] == y;
          assert r[j] == z && r[0] == y;
        }
      }
    }
  }

  /** An insertion sort, standing for the library sort: the result is in
      ascending order and holds the same strings as many times as `s`. */
  function Sort(s: seq<string>): (r: seq<string>)
    ensures Sorted(r)
    ensures multiset(r) == multiset(s)
  {
    if s == [] then []
    else
      assert s == [s[0]] + s[1..];
      Insert(s[0], Sort(s[1..]))
  }

  lemma TwiceCounted(s: seq<string>, i: int, j: int)
    requires 0 <= i < j < |s| && s[i] == s[j]
    ensures multiset(s)[s[i]] >= 2
  {
    assert s == s[..j] + [s[j]] + s[j + 1..];
    assert s[i] in s[..j];
  }

  /** Sorting a sequence without duplicates gives a strictly ascending one
      with the same elements. */
  lemma {:induction false} SortDistinct(s: seq<string>)
    requires NoDuplicates(s)
    ensures StrictlySorted(Sort(s)) && Elements(Sort(s)) == Elements(s)
  {
    var r := Sort(s);
    forall i, j | 0 <= i < j < |r| ensures Below(r[i], r[j]) {
      if r[i] == r[j] {
        TwiceCounted(r, i, j);
      } else {
        BelowTotal(r[i], r[j]);
      }
    }
    forall x ensures x in r <==> x in s {
      assert x in r <==> x in multiset(r);
      assert x in s <==> x in multiset(s);
    }
  }

  /** A strictly ascending sequence is fixed by its set of elements: however
      the strings were collected or sorted, the outcome is the same. */
  lemma {:induction false} StrictlySortedUnique(a: seq<string>, b: seq<string>)
    requires StrictlySorted(a) && StrictlySorted(b)
    requires Elements(a) == Elements(b)
    ensures a == b
    decreases |a|
  {
    if a != [] {
      assert a[0] in Elements(b);
      assert b != [];
      var k :| 0 <= k < |b| && b[k] == a[0];
      assert b[0] in Elements(a);
      var m :| 0 <= m < |a| && a[m] == b[0];
      if k > 0 {
        if m == 0 {
          BelowIrreflexive(b[0]);
        } else {
          BelowAsymmetric(b[0], b[k]);
        }
      }
      forall x ensures x in a[1..] <==> x in b[1..] {
        if x in a[1..] {
          var i :| 1 <= i < |a| && a[i] == x;
          BelowIrreflexive(a[0]);
          assert x in Elements(b);
        }
        if x in b[1..] {
          var i :| 1 <= i < |b| && b[i] == x;
          BelowIrreflexive(b[0]);
          assert x in Elements(a);
        }
      }
      assert Elements(a[1..]) == Elements(b[1..]);
      StrictlySortedUnique(a[1..], b[1..]);
      assert a == [a[0]] + a[1..] && b == [b[0]] + b[1..];
    }
  }
}
