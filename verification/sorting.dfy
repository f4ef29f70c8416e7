/** Python's `sorted(xs, key=...)` and `list.sort(key=...)`: a stable sort. The sort is written as
    an insertion sort and specified by what any stable sort must deliver: the output is a
    permutation of the input, it is ordered, and elements whose keys compare equal keep their
    input order. A descending sort (`reverse=True`) is the same sort under the reversed comparison;
    Python keeps it stable as well. */
module Sorting {

  /** `le(a, b)` means "a may come before b": any two elements are comparable and the relation
      is transitive, as a comparison of sort keys is. */
  ghost predicate TotalPreorder<T(!new)>(le: (T, T) -> bool) {
    && (forall a, b :: le(a, b) || le(b, a))
    && (forall a, b, c :: le(a, b) && le(b, c) ==> le(a, c))
  }

  ghost predicate Sorted<T>(s: seq<T>, le: (T, T) -> bool) {
    forall i, j :: 0 <= i < j < |s| ==> le(s[i], s[j])
  }

  /** `a` and `b` have equal keys. */
  predicate Tied<T>(le: (T, T) -> bool, a: T, b: T) {
    le(a, b) && le(b, a)
  }

  /** The elements of `s` whose key equals that of `z`, in their order in `s`. */
  ghost function Ties<T>(s: seq<T>, le: (T, T) -> bool, z: T): seq<T>
    decreases |s|
  {
    if |s| == 0 then []
    else Ties(s[..|s| - 1], le, z) + (if Tied(le, s[|s| - 1], z) then [s[|s| - 1]] else [])
  }

  /** `r` lists every group of tied elements of `s` in the order `s` lists it. */
  ghost predicate Stable<T(!new)>(r: seq<T>, s: seq<T>, le: (T, T) -> bool) {
    forall z :: Ties(r, le, z) == Ties(s, le, z)
  }

  /** Places `x` into the ordered `r` after every element that may precede it. */
  function Insert<T>(r: seq<T>, x: T, le: (T, T) -> bool): seq<T>
    decreases |r|
  {
    if |r| == 0 || le(r[|r| - 1], x) then r + [x]
    else Insert(r[..|r| - 1], x, le) + [r[|r| - 1]]
  }

  /** The stable sort of `s` under `le`. */
  function SortBy<T(!new)>(s: seq<T>, le: (T, T) -> bool): (r: seq<T>)
    requires TotalPreorder(le)
    ensures multiset(r) == multiset(s)
    ensures Sorted(r, le)
    ensures Stable(r, s, le)
    decreases |s|
  {
    if |s| == 0 then []
    else
      var front := s[..|s| - 1];
      var x := s[|s| - 1];
      var p := SortBy(front, le);
      InsertPermutes(p, x, le);
      InsertSorted(p, x, le);
      InsertTies(p, x, le);
      assert s == front + [x];
      assert forall z :: Ties(s, le, z) == Ties(front, le, z) + (if Tied(le, x, z) then [x] else []);
      Insert(p, x, le)
  }

  lemma {:induction false} InsertPermutes<T>(r: seq<T>, x: T, le: (T, T) -> bool)
    ensures multiset(Insert(r, x, le)) == multiset(r) + multiset{x}
    decreases |r|
  {
    if |r| > 0 && !le(r[|r| - 1], x) {
      var front := r[..|r| - 1];
      InsertPermutes(front, x, le);
      assert r == front + [r[|r| - 1]];
    }
  }

  lemma {:induction false} InsertSorted<T(!new)>(r: seq<T>, x: T, le: (T, T) -> bool)
    requires TotalPreorder(le) && Sorted(r, le)
    ensures Sorted(Insert(r, x, le), le)
    decreases |r|
  {
    if |r| > 0 && !le(r[|r| - 1], x) {
      var front := r[..|r| - 1];
      var last := r[|r| - 1];
      assert Sorted(front, le);
      InsertSorted(front, x, le);
      InsertPermutes(front, x, le);
      var p := Insert(front, x, le);
      forall i | 0 <= i < |p|
        ensures le(p[i], last)
      {
        assert p[i] in multiset(p);
        if p[i] != x {
          assert p[i] in multiset(front);
          var k :| 0 <= k < |front| && front[k] == p[i];
          assert r[k] == p[i];
        }
      }
      assert Insert(r, x, le) == p + [last];
    } else if |r| > 0 {
      assert forall i :: 0 <= i < |r| - 1 ==> le(r[i], r[|r| - 1]);
    }
  }

  /** Ties of a concatenation are the ties of its parts, in order. */
  lemma {:induction false} TiesConcat<T>(a: seq<T>, b: seq<T>, le: (T, T) -> bool, z: T)
    ensures Ties(a + b, le, z) == Ties(a, le, z) + Ties(b, le, z)
    decreases |b|
  {
    if |b| == 0 {
      assert a + b == a;
    } else {
      var front := b[..|b| - 1];
      assert (a + b)[..|a + b| - 1] == a + front;
      assert (a + b)[|a + b| - 1] == b[|b| - 1];
      TiesConcat(a, front, le, z);
    }
  }

  /** Inserting `x` into an ordered sequence puts it after every element tied with it. */
  lemma {:induction false} InsertTies<T(!new)>(r: seq<T>, x: T, le: (T, T) -> bool)
    requires TotalPreorder(le)
    ensures forall z :: Ties(Insert(r, x, le), le, z) == Ties(r, le, z) + (if Tied(le, x, z) then [x] else [])
    decreases |r|
  {
    if |r| == 0 || le(r[|r| - 1], x) {
      forall z
        ensures Ties(Insert(r, x, le), le, z) == Ties(r, le, z) + (if Tied(le, x, z) then [x] else [])
      {
        assert (r + [x])[..|r|] == r;
      }
    } else {
      var front := r[..|r| - 1];
      var last := r[|r| - 1];
      InsertTies(front, x, le);
      var p := Insert(front, x, le);
      forall z
        ensures Ties(Insert(r, x, le), le, z) == Ties(r, le, z) + (if Tied(le, x, z) then [x] else [])
      {
        assert (p + [last])[..|p + [last]| - 1] == p;
        // `x` and `last` are never both tied with `z`: that would make `last` precede `x`.
        assert !(Tied(le, x, z) && Tied(le, last, z));
      }
    }
  }

  lemma {:induction false} TiesEmpty<T>(s: seq<T>, le: (T, T) -> bool, z: T)
    requires forall j :: 0 <= j < |s| ==> !Tied(le, s[j], z)
    ensures Ties(s, le, z) == []
    decreases |s|
  {
    if |s| > 0 {
      TiesEmpty(s[..|s| - 1], le, z);
    }
  }

  /** The first element tied with `z` heads the ties of `z`. */
  lemma FirstTie<T>(s: seq<T>, le: (T, T) -> bool, z: T, i: int)
    requires 0 <= i < |s| && Tied(le, s[i], z)
    requires forall j :: 0 <= j < i ==> !Tied(le, s[j], z)
    ensures |Ties(s, le, z)| > 0 && Ties(s, le, z)[0] == s[i]
  {
    assert s == s[..i] + [s[i]] + s[i + 1..];
    TiesEmpty(s[..i], le, z);
    TiesConcat(s[..i] + [s[i]], s[i + 1..], le, z);
    TiesConcat(s[..i], [s[i]], le, z);
    assert [s[i]][..0] == [];
  }

  /** The head of a stable sort is the first element of the input with the least key. With the
      reversed comparison of `sort(..., reverse=True)` this is the first element with the
      greatest key. */
  lemma SortByHead<T(!new)>(s: seq<T>, le: (T, T) -> bool) returns (i: nat)
    requires TotalPreorder(le) && |s| > 0
    ensures i < |s| && SortBy(s, le)[0] == s[i]
    ensures forall j :: 0 <= j < |s| ==> le(s[i], s[j])
    ensures forall j :: 0 <= j < i ==> !le(s[j], s[i])
  {
    var r := SortBy(s, le);
    var h := r[0];
    assert h in multiset(s) by {
      assert h in multiset(r);
    }
    forall j | 0 <= j < |s|
      ensures le(h, s[j])
    {
      assert s[j] in multiset(r);
      var k :| 0 <= k < |r| && r[k] == s[j];
      if k == 0 {
        assert le(h, h) || le(h, h);
      }
    }
    var k :| 0 <= k < |s| && s[k] == h;
    assert Tied(le, s[k], h);
    i := FirstTiedIndex(s, le, h, k);
    FirstTie(s, le, h, i);
    FirstTie(r, le, h, 0);
  }

  /** The least index of an element of `s` tied with `z`, given that index `k` is one. */
  lemma {:induction false} FirstTiedIndex<T>(s: seq<T>, le: (T, T) -> bool, z: T, k: int) returns (i: nat)
    requires 0 <= k < |s| && Tied(le, s[k], z)
    ensures i <= k && Tied(le, s[i], z)
    ensures forall j :: 0 <= j < i ==> !Tied(le, s[j], z)
    decreases k
  {
    if exists j :: 0 <= j < k && Tied(le, s[j], z) {
      var j :| 0 <= j < k && Tied(le, s[j], z);
      i := FirstTiedIndex(s, le, z, j);
    } else {
      i := k;
    }
  }
}
