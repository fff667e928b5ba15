/** List comprehensions with a condition, `set()` of a list, and counting. */
module Lists {
  import opened Wrappers

  /** `[x for x in xs if p(x)]`. */
  function Filter<T(!new)>(xs: seq<T>, p: T -> bool): (r: seq<T>)
    ensures |r| <= |xs|
    ensures forall x :: x in r <==> x in xs && p(x)
    ensures forall i :: 0 <= i < |r| ==> p(r[i])
  {
    SelectMembers(xs, p);
    Select(xs, p)
  }

  /** The comprehension as a walk over the list, one element at a time. */
  function Select<T>(xs: seq<T>, p: T -> bool): seq<T> {
    if xs == [] then []
    else (if p(xs[0]) then [xs[0]] else []) + Select(xs[1..], p)
  }

  lemma {:induction false} SelectMembers<T>(xs: seq<T>, p: T -> bool)
    ensures |Select(xs, p)| <= |xs|
    ensures forall x :: x in Select(xs, p) <==> x in xs && p(x)
    ensures forall i :: 0 <= i < |Select(xs, p)| ==> p(Select(xs, p)[i])
  {
    if xs != [] {
      SelectMembers(xs[1..], p);
      assert xs == [xs[0]] + xs[1..];
    }
  }

  /** The elements a condition keeps and the ones its complement keeps
      are, between them, exactly the original list. */
  lemma FilterPartition<T(!new)>(xs: seq<T>, p: T -> bool, q: T -> bool)
    requires forall x :: q(x) == !p(x)
    ensures multiset(Filter(xs, p)) + multiset(Filter(xs, q)) == multiset(xs)
    ensures |Filter(xs, p)| + |Filter(xs, q)| == |xs|
  {
    SelectPartition(xs, p, q);
  }

  lemma {:induction false} SelectPartition<T>(xs: seq<T>, p: T -> bool, q: T -> bool)
    requires forall x :: q(x) == !p(x)
    ensures multiset(Select(xs, p)) + multiset(Select(xs, q)) == multiset(xs)
    ensures |Select(xs, p)| + |Select(xs, q)| == |xs|
  {
    if xs != [] {
      var h, t := xs[0], xs[1..];
      SelectPartition(t, p, q);
      assert xs == [h] + t;
      assert multiset(xs) == multiset{h} + multiset(t);
      if p(h) {
        assert multiset([h] + Select(t, p)) == multiset{h} + multiset(Select(t, p));
      } else {
        assert multiset([h] + Select(t, q)) == multiset{h} + multiset(Select(t, q));
      }
    }
  }

  /** Filtering a concatenation filters each part. */
  lemma FilterAppend<T(!new)>(xs: seq<T>, ys: seq<T>, p: T -> bool)
    ensures Filter(xs + ys, p) == Filter(xs, p) + Filter(ys, p)
  {
    SelectAppend(xs, ys, p);
  }

  lemma {:induction false} SelectAppend<T>(xs: seq<T>, ys: seq<T>, p: T -> bool)
    ensures Select(xs + ys, p) == Select(xs, p) + Select(ys, p)
  {
    if xs != [] {
      assert (xs + ys)[0] == xs[0];
      assert (xs + ys)[1..] == xs[1..] + ys;
      SelectAppend(xs[1..], ys, p);
      var h := if p(xs[0]) then [xs[0]] else [];
      assert Select(xs + ys, p) == h + Select(xs[1..] + ys, p);
    } else {
      assert xs + ys == ys;
    }
  }

  /** Filtering keeps the relative order: the result is a subsequence. */
  predicate IsSubsequence<T(==)>(r: seq<T>, xs: seq<T>)
    decreases |xs|
  {
    if r == [] then true
    else if xs == [] then false
    else if r[0] == xs[0] then IsSubsequence(r[1..], xs[1..])
    else IsSubsequence(r, xs[1..])
  }

  lemma FilterIsSubsequence<T(!new)>(xs: seq<T>, p: T -> bool)
    ensures IsSubsequence(Filter(xs, p), xs)
  {
    SelectIsSubsequence(xs, p);
  }

  lemma {:induction false} SelectIsSubsequence<T>(xs: seq<T>, p: T -> bool)
    ensures IsSubsequence(Select(xs, p), xs)
  {
    if xs != [] {
      SelectIsSubsequence(xs[1..], p);
      if p(xs[0]) {
        assert Select(xs, p)[1..] == Select(xs[1..], p);
      } else {
        var r := Select(xs[1..], p);
        assert Select(xs, p) == r;
        SelectMembers(xs[1..], p);
        assert r != [] ==> p(r[0]) && r[0] != xs[0];
      }
    }
  }

  /** A list nothing is a member of is empty. */
  lemma NoMemberEmpty<T>(xs: seq<T>)
    ensures (forall x :: x !in xs) ==> xs == []
  {
    if xs != [] {
      assert xs[0] in xs;
    }
  }

  /** `map(f, xs)`. */
  function Map<T, U>(xs: seq<T>, f: T -> U): (r: seq<U>)
    ensures |r| == |xs|
    ensures forall i :: 0 <= i < |xs| ==> r[i] == f(xs[i])
  {
    if xs == [] then [] else [f(xs[0])] + Map(xs[1..], f)
  }

  predicate Distinct<T(==)>(xs: seq<T>) {
    forall i, j :: 0 <= i < j < |xs| ==> xs[i] != xs[j]
  }

  /** `set(xs)`, iterated in the order values first appear. */
  function Dedup<T(==,!new)>(xs: seq<T>): (r: seq<T>)
    ensures Distinct(r)
    ensures forall x :: x in r <==> x in xs
    decreases |xs|
  {
    if xs == [] then []
    else
      var rest := Dedup(xs[..|xs| - 1]);
      var last := xs[|xs| - 1];
      assert xs == xs[..|xs| - 1] + [last];
      if last in rest then rest else rest + [last]
  }

  /** `len([x for x in xs if p(x)])`. */
  function Count<T(!new)>(xs: seq<T>, p: T -> bool): (n: nat)
    ensures n == |Filter(xs, p)|
  {
    if xs == [] then 0 else (if p(xs[0]) then 1 else 0) + Count(xs[1..], p)
  }

  /** A loop that appends `f(x)` for each `x` in turn and stops at the
      first failure. */
  function MapAll<T, U, E>(xs: seq<T>, f: T -> Result<U, E>): (r: Result<seq<U>, E>)
    ensures r.Ok? <==> forall i :: 0 <= i < |xs| ==> f(xs[i]).Ok?
    ensures r.Ok? ==> |r.value| == |xs|
    ensures r.Ok? ==> forall i :: 0 <= i < |xs| ==> f(xs[i]) == Ok(r.value[i])
    ensures r.Err? ==> exists i :: 0 <= i < |xs| && f(xs[i]) == Err(r.error)
  {
    if xs == [] then Ok([])
    else
      assert forall i :: 1 <= i < |xs| ==> xs[i] == xs[1..][i - 1];
      match f(xs[0])
      case Err(e) => Err(e)
      case Ok(y) =>
        match MapAll(xs[1..], f)
        case Err(e) =>
          assert exists i :: 0 <= i < |xs| && f(xs[i]) == Err(e) by {
            var j :| 0 <= j < |xs[1..]| && f(xs[1..][j]) == Err(e);
            assert xs[j + 1] == xs[1..][j];
          }
          Err(e)
        case Ok(ys) => Ok([y] + ys)
  }
}
