/** What it means to filter a sequence, stated without a filter. */
module Filtering {

  /** How many of the first `n` elements pass. */
  ghost function Passing<T>(input: seq<T>, keep: T -> bool, n: nat): nat
    requires n <= |input|
  {
    if n == 0 then 0 else Passing(input, keep, n - 1) + if keep(input[n - 1]) then 1 else 0
  }

  /**
   * As many elements as pass, each passing one behind exactly those that pass before it: every
   * passing element as often as it occurs, in order, and no other.
   */
  ghost predicate IsFilter<T>(input: seq<T>, keep: T -> bool, output: seq<T>) {
    && |output| == Passing(input, keep, |input|)
    && forall k :: 0 <= k < |input| && keep(input[k]) ==> PutAt(output, Passing(input, keep, k), input[k])
  }

  ghost predicate PutAt<T>(output: seq<T>, n: nat, x: T) {
    n < |output| && output[n] == x
  }

  lemma {:induction false} PassingGrows<T>(input: seq<T>, keep: T -> bool, m: nat, n: nat)
    requires m <= n <= |input|
    ensures Passing(input, keep, m) <= Passing(input, keep, n)
    ensures m < n && keep(input[m]) ==> Passing(input, keep, m) < Passing(input, keep, n)
  {
    if m < n {
      PassingGrows(input, keep, m, n - 1);
    }
  }

  lemma {:induction false} SamePassing<T>(input: seq<T>, other: seq<T>, keep: T -> bool, n: nat)
    requires n <= |input| && n <= |other| && input[..n] == other[..n]
    ensures Passing(input, keep, n) == Passing(other, keep, n)
  {
    if n > 0 {
      assert input[..n - 1] == input[..n][..n - 1] == other[..n - 1];
      assert input[n - 1] == input[..n][n - 1] == other[n - 1];
      SamePassing(input, other, keep, n - 1);
    }
  }

  lemma FilterOfNone<T>(keep: T -> bool)
    ensures IsFilter([], keep, [])
  {
  }

  lemma FilterSnoc<T>(front: seq<T>, last: T, keep: T -> bool, output: seq<T>)
    requires IsFilter(front, keep, output)
    ensures IsFilter(front + [last], keep, output + if keep(last) then [last] else [])
  {
    var input, out := front + [last], output + if keep(last) then [last] else [];
    SamePassing(input, front, keep, |front|);
    forall k | 0 <= k < |input| && keep(input[k]) ensures PutAt(out, Passing(input, keep, k), input[k]) {
      if k < |front| {
        assert input[..k] == front[..k];
        SamePassing(input, front, keep, k);
        assert PutAt(output, Passing(front, keep, k), front[k]);
      }
    }
  }

  lemma {:induction false} PassingCons<T>(first: T, rest: seq<T>, keep: T -> bool, n: nat)
    requires n <= |rest|
    ensures Passing([first] + rest, keep, n + 1) == (if keep(first) then 1 else 0) + Passing(rest, keep, n)
  {
    if n > 0 {
      PassingCons(first, rest, keep, n - 1);
    } else {
      assert Passing([first] + rest, keep, 0) == 0;
    }
  }

  lemma FilterCons<T>(first: T, rest: seq<T>, keep: T -> bool, output: seq<T>)
    requires IsFilter(rest, keep, output)
    ensures IsFilter([first] + rest, keep, (if keep(first) then [first] else []) + output)
  {
    var input, out := [first] + rest, (if keep(first) then [first] else []) + output;
    PassingCons(first, rest, keep, |rest|);
    forall k | 0 <= k < |input| && keep(input[k]) ensures PutAt(out, Passing(input, keep, k), input[k]) {
      if k > 0 {
        PassingCons(first, rest, keep, k - 1);
        assert PutAt(output, Passing(rest, keep, k - 1), rest[k - 1]);
      }
    }
  }

  lemma {:induction false} AlikePassing<T>(input: seq<T>, keep: T -> bool, other: T -> bool, n: nat)
    requires n <= |input| && forall i :: 0 <= i < n ==> keep(input[i]) == other(input[i])
    ensures Passing(input, keep, n) == Passing(input, other, n)
  {
    if n > 0 {
      AlikePassing(input, keep, other, n - 1);
    }
  }

  lemma {:induction false} MappedPassing<T, U>(input: seq<T>, keep: T -> bool, f: T -> U, mapped: seq<U>, other: U -> bool, n: nat)
    requires n <= |input| == |mapped|
    requires forall i :: 0 <= i < |input| ==> mapped[i] == f(input[i]) && other(mapped[i]) == keep(input[i])
    ensures Passing(mapped, other, n) == Passing(input, keep, n)
  {
    if n > 0 {
      MappedPassing(input, keep, f, mapped, other, n - 1);
    }
  }

  /** Filtering commutes with a map the predicate looks through. */
  lemma FilterMapped<T, U>(
    input: seq<T>, keep: T -> bool, output: seq<T>, f: T -> U, mapped: seq<U>, other: U -> bool, mappedOut: seq<U>)
    requires IsFilter(input, keep, output) && |input| == |mapped| && |output| == |mappedOut|
    requires forall i :: 0 <= i < |input| ==> mapped[i] == f(input[i]) && other(mapped[i]) == keep(input[i])
    requires forall i :: 0 <= i < |output| ==> mappedOut[i] == f(output[i])
    ensures IsFilter(mapped, other, mappedOut)
  {
    MappedPassing(input, keep, f, mapped, other, |input|);
    forall k | 0 <= k < |mapped| && other(mapped[k]) ensures PutAt(mappedOut, Passing(mapped, other, k), mapped[k]) {
      MappedPassing(input, keep, f, mapped, other, k);
      assert PutAt(output, Passing(input, keep, k), input[k]);
    }
  }

  /** Two predicates that agree on the elements filter alike. */
  lemma SameFilter<T>(input: seq<T>, keep: T -> bool, other: T -> bool, output: seq<T>)
    requires IsFilter(input, keep, output) && forall i :: 0 <= i < |input| ==> keep(input[i]) == other(input[i])
    ensures IsFilter(input, other, output)
  {
    AlikePassing(input, keep, other, |input|);
    forall k | 0 <= k < |input| && other(input[k]) ensures PutAt(output, Passing(input, other, k), input[k]) {
      AlikePassing(input, keep, other, k);
    }
  }

  lemma WithoutLast<T>(input: seq<T>, keep: T -> bool, output: seq<T>) returns (rest: seq<T>)
    requires input != [] && IsFilter(input, keep, output)
    ensures IsFilter(input[..|input| - 1], keep, rest)
    ensures output == rest + if keep(input[|input| - 1]) then [input[|input| - 1]] else []
  {
    var n := |input| - 1;
    var front := input[..n];
    SamePassing(input, front, keep, n);
    rest := output[..Passing(input, keep, n)];
    assert keep(input[n]) ==> PutAt(output, Passing(input, keep, n), input[n]);
    forall k | 0 <= k < n && keep(front[k]) ensures PutAt(rest, Passing(front, keep, k), front[k]) {
      assert front[..k] == input[..k];
      SamePassing(input, front, keep, k);
      PassingGrows(input, keep, k, n);
      assert PutAt(output, Passing(input, keep, k), input[k]);
    }
  }

  /** A filter's output is determined. */
  lemma {:induction false} FilterIsUnique<T>(input: seq<T>, keep: T -> bool, a: seq<T>, b: seq<T>)
    requires IsFilter(input, keep, a) && IsFilter(input, keep, b)
    ensures a == b
    decreases |input|
  {
    if input != [] {
      var a' := WithoutLast(input, keep, a);
      var b' := WithoutLast(input, keep, b);
      FilterIsUnique(input[..|input| - 1], keep, a', b');
    }
  }

  /** What a filter keeps is in the input, and passes. */
  lemma {:induction false} FilterHolds<T>(input: seq<T>, keep: T -> bool, output: seq<T>)
    requires IsFilter(input, keep, output)
    ensures forall x :: x in output <==> x in input && keep(x)
    decreases |input|
  {
    if input != [] {
      var rest := WithoutLast(input, keep, output);
      var front, last := input[..|input| - 1], input[|input| - 1];
      FilterHolds(front, keep, rest);
      assert input == front + [last];
    }
  }

  /** The first element of `s` that is in `p` is in `q`. */
  ghost predicate FirstIs<T>(s: seq<T>, p: T -> bool, q: T -> bool) {
    exists k :: 0 <= k < |s| && p(s[k]) && q(s[k]) && forall j :: 0 <= j < k ==> !p(s[j])
  }

  lemma FirstAtOnce<T>(x: T, rest: seq<T>, p: T -> bool, q: T -> bool)
    requires p(x) && q(x)
    ensures FirstIs([x] + rest, p, q)
  {
    assert ([x] + rest)[0] == x;
  }

  lemma FirstCons<T>(x: T, rest: seq<T>, p: T -> bool, q: T -> bool)
    requires !p(x) && FirstIs(rest, p, q)
    ensures FirstIs([x] + rest, p, q)
  {
    var k :| 0 <= k < |rest| && p(rest[k]) && q(rest[k]) && forall j :: 0 <= j < k ==> !p(rest[j]);
    assert ([x] + rest)[k + 1] == rest[k];
  }
}
