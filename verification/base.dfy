/** Optional values, fallible results and two sequence helpers shared by every module of the model. */
module Base {

  /** A value that may be absent: an unset field, a failed parse. */
  datatype Option<T> = None | Some(value: T)

  /** The outcome of an operation that can raise: a value, or the error it raised. */
  datatype Result<T, E> = Ok(value: T) | Err(error: E)

  /** Index of the first element of `s` that `ok` rejects, or None when every element passes.
      A row-by-row loader that raises on its first bad row fails exactly at this index. */
  function FirstFailing<T>(s: seq<T>, ok: T -> bool): (r: Option<nat>)
    ensures r.None? <==> forall i :: 0 <= i < |s| ==> ok(s[i])
    ensures r.Some? ==> r.value < |s| && !ok(s[r.value])
    ensures r.Some? ==> forall i :: 0 <= i < r.value ==> ok(s[i])
    decreases |s|
  {
    if |s| == 0 then None
    else if !ok(s[0]) then Some(0)
    else match FirstFailing(s[1..], ok)
      case None => None
      case Some(i) => Some(i + 1)
  }

  /** The elements of `s` that satisfy `p`, in their order in `s` (a list comprehension with a condition). */
  function Filter<T>(s: seq<T>, p: T -> bool): (r: seq<T>)
    ensures |r| <= |s|
    ensures forall i :: 0 <= i < |r| ==> r[i] in s && p(r[i])
    ensures forall i :: 0 <= i < |s| && p(s[i]) ==> s[i] in r
    decreases |s|
  {
    if |s| == 0 then []
    else Filter(s[..|s| - 1], p) + (if p(s[|s| - 1]) then [s[|s| - 1]] else [])
  }

  /** Filtering distributes over concatenation, so it keeps the relative order of the elements it keeps. */
  lemma {:induction false} FilterConcat<T>(a: seq<T>, b: seq<T>, p: T -> bool)
    ensures Filter(a + b, p) == Filter(a, p) + Filter(b, p)
    decreases |b|
  {
    if |b| == 0 {
      assert a + b == a;
    } else {
      var b' := b[..|b| - 1];
      assert (a + b)[..|a + b| - 1] == a + b';
      assert (a + b)[|a + b| - 1] == b[|b| - 1];
      FilterConcat(a, b', p);
    }
  }

  /** Filtering keeps the relative order of what it keeps: when `s[k]` and a later `s[m]` both
      pass, the result holds them at two increasing positions. */
  lemma FilterKeepsOrder<T>(s: seq<T>, p: T -> bool, k: int, m: int)
    requires 0 <= k < m < |s| && p(s[k]) && p(s[m])
    ensures exists a, b :: 0 <= a < b < |Filter(s, p)| && Filter(s, p)[a] == s[k] && Filter(s, p)[b] == s[m]
  {
    var front, back := s[..m], s[m..];
    assert s == front + back;
    FilterConcat(front, back, p);
    assert back == [s[m]] + back[1..];
    FilterConcat([s[m]], back[1..], p);
    assert Filter([s[m]], p) == Filter([], p) + [s[m]];
    assert front[k] == s[k];
    var a :| 0 <= a < |Filter(front, p)| && Filter(front, p)[a] == s[k];
    var b := |Filter(front, p)|;
    assert Filter(s, p)[a] == s[k] && Filter(s, p)[b] == s[m];
  }

  /** Any reordering of a filtered list holds exactly the elements of the input that pass. */
  lemma PermutedFilterMembers<T>(r: seq<T>, s: seq<T>, p: T -> bool)
    requires multiset(r) == multiset(Filter(s, p))
    ensures forall x :: x in r <==> x in s && p(x)
  {
    forall x
      ensures x in r <==> x in s && p(x)
    {
      assert x in r <==> x in multiset(Filter(s, p));
      if x in s && p(x) {
        var i :| 0 <= i < |s| && s[i] == x;
      }
    }
  }

  /** Filtering never duplicates: the kept elements are a sub-multiset of the input. */
  lemma {:induction false} FilterSubMultiset<T>(s: seq<T>, p: T -> bool)
    ensures multiset(Filter(s, p)) <= multiset(s)
    decreases |s|
  {
    if |s| > 0 {
      var s' := s[..|s| - 1];
      assert s == s' + [s[|s| - 1]];
      FilterSubMultiset(s', p);
    }
  }
}
