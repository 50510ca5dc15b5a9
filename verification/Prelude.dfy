/** Failure-carrying results, integer helpers and the list facts every other module shares. */
module Prelude {

  datatype Option<+T> = None | Some(value: T)

  datatype Result<+T, +E> = Ok(value: T) | Err(error: E)

  function Max(a: int, b: int): int { if a < b then b else a }

  function Min(a: int, b: int): int { if a < b then a else b }

  function MaxReal(a: real, b: real): real { if a < b then b else a }

  function MinReal(a: real, b: real): real { if a < b then a else b }

  /** Python's `value or default` on an optional integer: an absent value and zero both give the default. */
  function OrDefault(value: Option<int>, default: int): int {
    if value.None? || value.value == 0 then default else value.value
  }

  ghost predicate Distinct<T>(s: seq<T>) {
    forall i, j :: 0 <= i < j < |s| ==> s[i] != s[j]
  }

  function Elements<T(==)>(s: seq<T>): set<T> {
    set x | x in s
  }

  lemma SameElements<T>(a: seq<T>, b: seq<T>)
    requires forall y :: y in a <==> y in b
    ensures Elements(a) == Elements(b)
  {
  }

  lemma ElementsOfSum<T>(a: seq<T>, b: seq<T>)
    ensures Elements(a + b) == Elements(a) + Elements(b)
  {
  }

  function Map<A, B>(s: seq<A>, f: A -> B): (r: seq<B>)
    ensures |r| == |s| && forall i :: 0 <= i < |s| ==> r[i] == f(s[i])
  {
    if s == [] then [] else [f(s[0])] + Map(s[1..], f)
  }

  lemma {:induction false} CardinalityAtMostLength<T>(s: seq<T>)
    ensures |Elements(s)| <= |s|
  {
    if s != [] {
      CardinalityAtMostLength(s[..|s| - 1]);
      assert Elements(s) == Elements(s[..|s| - 1]) + {s[|s| - 1]} by {
        assert s == s[..|s| - 1] + [s[|s| - 1]];
      }
    }
  }

  lemma {:induction false} DistinctCardinality<T>(s: seq<T>)
    requires Distinct(s)
    ensures |Elements(s)| == |s|
  {
    if s != [] {
      var front, last := s[..|s| - 1], s[|s| - 1];
      DistinctCardinality(front);
      assert Elements(s) == Elements(front) + {last} by {
        assert s == front + [last];
      }
      assert last !in front;
    }
  }

  /** When each failing list fails every extension by one element, a failing prefix decides the whole list. */
  lemma {:induction false} PrefixFails<A, R, E>(f: seq<A> -> Result<R, E>, s: seq<A>, n: nat)
    requires forall t: seq<A> :: t != [] && f(t[..|t| - 1]).Err? ==> f(t) == f(t[..|t| - 1])
    requires n <= |s| && f(s[..n]).Err?
    ensures f(s) == f(s[..n])
  {
    if n < |s| {
      assert s[..|s| - 1][..n] == s[..n];
      PrefixFails(f, s[..|s| - 1], n);
    } else {
      assert s[..n] == s;
    }
  }

  /** The sum of a number over a list. */
  ghost function Total<T>(s: seq<T>, f: T -> int): int {
    if s == [] then 0 else f(s[0]) + Total(s[1..], f)
  }

  lemma {:induction false} TotalOfSum<T>(a: seq<T>, b: seq<T>, f: T -> int)
    ensures Total(a + b, f) == Total(a, f) + Total(b, f)
  {
    if a == [] {
      assert a + b == b;
    } else {
      assert (a + b)[1..] == a[1..] + b;
      TotalOfSum(a[1..], b, f);
    }
  }

  lemma TotalStep<T>(s: seq<T>, f: T -> int)
    requires s != []
    ensures Total(s, f) == Total(s[..|s| - 1], f) + f(s[|s| - 1])
  {
    var front, last := s[..|s| - 1], s[|s| - 1];
    assert s == front + [last];
    TotalOfSum(front, [last], f);
  }

  /** Two numbers that agree element by element have the same sum. */
  lemma {:induction false} SameTotal<A, B>(a: seq<A>, b: seq<B>, f: A -> int, g: B -> int)
    requires |a| == |b| && forall i :: 0 <= i < |a| ==> f(a[i]) == g(b[i])
    ensures Total(a, f) == Total(b, g)
  {
    if a != [] {
      SameTotal(a[1..], b[1..], f, g);
    }
  }

  /** A sum of numbers that are not negative is zero exactly when all of them are. */
  lemma {:induction false} ZeroTotal<T>(s: seq<T>, f: T -> int)
    requires forall i :: 0 <= i < |s| ==> f(s[i]) >= 0
    ensures Total(s, f) >= 0
    ensures Total(s, f) == 0 <==> forall i :: 0 <= i < |s| ==> f(s[i]) == 0
  {
    if s != [] {
      ZeroTotal(s[1..], f);
      assert forall i :: 0 <= i < |s| - 1 ==> s[1..][i] == s[i + 1];
      assert (forall i :: 0 <= i < |s| ==> f(s[i]) == 0) <==> f(s[0]) == 0 && forall i :: 0 <= i < |s| - 1 ==> f(s[1..][i]) == 0 by {
        assert forall i :: 1 <= i < |s| ==> s[i] == s[1..][i - 1];
      }
    }
  }
}
