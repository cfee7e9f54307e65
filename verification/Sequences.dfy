/** Facts about sequences that several parts of the model share. */
module Sequences {

  function Min(a: int, b: int): (r: int)
    ensures r <= a && r <= b && (r == a || r == b)
  {
    if a <= b then a else b
  }

  /** The first `n` elements, or all of them when there are fewer. */
  function Take<T>(s: seq<T>, n: nat): (r: seq<T>)
    ensures |r| == if |s| <= n then |s| else n
  {
    if |s| <= n then s else s[..n]
  }

  lemma TakeIsPrefix<T>(s: seq<T>, n: nat)
    ensures Take(s, n) <= s
  {
  }

  function Repeat<T>(x: T, n: nat): (r: seq<T>)
    ensures |r| == n && forall i :: 0 <= i < n ==> r[i] == x
  {
    seq(n, i => x)
  }

  ghost predicate NoDuplicates<T>(s: seq<T>) {
    forall i, j :: 0 <= i < j < |s| ==> s[i] != s[j]
  }

  /** The distinct elements of `xs`, in the order in which they first occur. */
  function Distinct<T(==,!new)>(xs: seq<T>): (r: seq<T>)
    ensures NoDuplicates(r)
    ensures forall x :: x in r <==> x in xs
  {
    if xs == [] then [] else
      var init, x := xs[..|xs| - 1], xs[|xs| - 1];
      assert xs == init + [x];
      if x in Distinct(init) then Distinct(init) else Distinct(init) + [x]
  }

  lemma DistinctStep<T(!new)>(xs: seq<T>)
    requires xs != []
    ensures var init, x := xs[..|xs| - 1], xs[|xs| - 1];
            Distinct(xs) == if x in init then Distinct(init) else Distinct(init) + [x]
  {
  }

  /** The concatenation of the first `n` of `lists`. */
  function Flatten<T>(lists: seq<seq<T>>, n: nat): seq<T>
    requires n <= |lists|
  {
    if n == 0 then [] else Flatten(lists, n - 1) + lists[n - 1]
  }

  /** Element `j` of list `i` comes after all elements of the lists before it. */
  lemma {:induction false} FlattenAt<T>(lists: seq<seq<T>>, n: nat, i: nat, j: nat)
    requires i < n <= |lists| && j < |lists[i]|
    ensures |Flatten(lists, i)| + j < |Flatten(lists, n)|
    ensures Flatten(lists, n)[|Flatten(lists, i)| + j] == lists[i][j]
  {
    if i < n - 1 {
      FlattenAt(lists, n - 1, i, j);
    }
  }

  lemma {:induction false} FlattenMembers<T>(lists: seq<seq<T>>, n: nat, x: T)
    requires n <= |lists|
    ensures x in Flatten(lists, n) <==> exists i | 0 <= i < n :: x in lists[i]
  {
    if n != 0 {
      FlattenMembers(lists, n - 1, x);
    }
  }

  lemma Associative<T>(a: seq<T>, b: seq<T>, c: seq<T>)
    ensures a + b + c == a + (b + c)
  {
  }

  /** Taking `n` elements of `a + b` when `a` has fewer, with more appended afterwards. */
  lemma TakeAcross<T>(a: seq<T>, b: seq<T>, c: seq<T>, n: nat)
    requires |a| <= n
    ensures a + (Take(b, n - |a|) + c) == Take(a + b, n) + c
  {
  }

  lemma TakeOfSum<T>(a: seq<T>, b: seq<T>, n: nat)
    ensures Take(a + b, n) == if n <= |a| then Take(a, n) else a + Take(b, n - |a|)
  {
  }

  /** Elements that have all occurred before add nothing. */
  lemma {:induction false} DistinctIgnoresRepeats<T(!new)>(xs: seq<T>, ys: seq<T>)
    requires forall y :: y in ys ==> y in xs
    ensures Distinct(xs + ys) == Distinct(xs)
  {
    if ys == [] {
      assert xs + ys == xs;
    } else {
      var init := ys[..|ys| - 1];
      assert (xs + ys)[..|xs + ys| - 1] == xs + init;
      DistinctIgnoresRepeats(xs, init);
    }
  }

  /** A duplicate-free sequence has as many elements as its set of elements. */
  lemma {:induction false} NoDuplicatesCardinality<T>(s: seq<T>)
    requires NoDuplicates(s)
    ensures |set x | x in s| == |s|
  {
    if s != [] {
      var init, x := s[..|s| - 1], s[|s| - 1];
      NoDuplicatesCardinality(init);
      assert s == init + [x];
      assert (set y | y in s) == (set y | y in init) + {x};
    }
  }

  /** The number of distinct members of a sequence is bounded by its length. */
  lemma {:induction false} SetOfAtMost<T>(s: seq<T>)
    ensures |set x | x in s| <= |s|
  {
    if s != [] {
      var init, x := s[..|s| - 1], s[|s| - 1];
      SetOfAtMost(init);
      assert s == init + [x];
      assert (set y | y in s) == (set y | y in init) + {x};
    }
  }

  /** `a` is what is left of `b` when some of its elements are dropped. */
  ghost predicate Subsequence<T>(a: seq<T>, b: seq<T>) {
    || |a| == 0
    || (&& |b| != 0
        && (|| Subsequence(a, b[..|b| - 1])
            || (a[|a| - 1] == b[|b| - 1] && Subsequence(a[..|a| - 1], b[..|b| - 1]))))
  }

  /** A subsequence has no more elements, and when it has as many it is the whole. */
  lemma {:induction false} SubsequenceLength<T>(a: seq<T>, b: seq<T>)
    requires Subsequence(a, b)
    ensures |a| <= |b| && (|a| == |b| ==> a == b)
    decreases |b|
  {
    if |a| != 0 {
      if Subsequence(a, b[..|b| - 1]) {
        SubsequenceLength(a, b[..|b| - 1]);
      } else {
        SubsequenceLength(a[..|a| - 1], b[..|b| - 1]);
      }
    }
  }

  lemma {:induction false} SubsequenceMember<T>(a: seq<T>, b: seq<T>, x: T)
    requires Subsequence(a, b) && x in a
    ensures x in b
    decreases |b|
  {
    if Subsequence(a, b[..|b| - 1]) {
      SubsequenceMember(a, b[..|b| - 1], x);
    } else if x != a[|a| - 1] {
      SubsequenceMember(a[..|a| - 1], b[..|b| - 1], x);
    }
  }

  lemma {:induction false} SubsequenceOfMore<T>(a: seq<T>, b: seq<T>, c: seq<T>)
    requires Subsequence(a, b)
    ensures Subsequence(a, b + c)
    decreases |c|
  {
    if |c| == 0 {
      assert b + c == b;
    } else {
      SubsequenceOfMore(a, b, c[..|c| - 1]);
      assert (b + c)[..|b + c| - 1] == b + c[..|c| - 1];
    }
  }

  lemma {:induction false} SubsequenceOfBoth<T>(a: seq<T>, b: seq<T>, c: seq<T>)
    requires Subsequence(a, b)
    ensures Subsequence(a + c, b + c)
    decreases |c|
  {
    if |c| == 0 {
      assert a + c == a && b + c == b;
    } else {
      var init := c[..|c| - 1];
      SubsequenceOfBoth(a, b, init);
      assert (a + c)[..|a + c| - 1] == a + init && (b + c)[..|b + c| - 1] == b + init;
    }
  }

  /** A prefix of one more list extends a subsequence. */
  lemma SubsequenceWithPrefix<T>(a: seq<T>, b: seq<T>, r: seq<T>, c: seq<T>)
    requires Subsequence(a, b) && a <= r <= a + c
    ensures Subsequence(r, b + c)
  {
    var n := |r| - |a|;
    assert r == a + c[..n];
    SubsequenceOfBoth(a, b, c[..n]);
    SubsequenceOfMore(r, b + c[..n], c[n..]);
    assert b + c[..n] + c[n..] == b + c;
  }
}
