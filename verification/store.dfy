/** Python's insertion-ordered `dict` keyed by item id: a map together with the sequence of its
    keys in the order they were first inserted. Assigning to an existing key replaces its value
    and leaves the key where it was. */
module OrderedStore {

  datatype Store<V> = Store(keys: seq<string>, vals: map<string, V>)

  ghost predicate Distinct(s: seq<string>) {
    forall i, j :: 0 <= i < j < |s| ==> s[i] != s[j]
  }

  /** Every key is listed exactly once and the listed keys are exactly the map's keys. */
  ghost predicate Valid<V>(st: Store<V>) {
    Distinct(st.keys) && forall k :: k in st.vals <==> k in st.keys
  }

  /** `{}` */
  function Empty<V>(): (r: Store<V>)
    ensures Valid(r) && |r.keys| == 0 && |r.vals| == 0
  {
    Store([], map[])
  }

  /** `d[k] = v`: the value of `k` becomes `v`, every other key keeps its value, the keys already
      present keep their positions and a new key goes last. */
  function Put<V>(st: Store<V>, k: string, v: V): (r: Store<V>)
    requires Valid(st)
    ensures Valid(r)
    ensures r.vals == st.vals[k := v]
    ensures |st.keys| <= |r.keys| <= |st.keys| + 1 && r.keys[..|st.keys|] == st.keys
    ensures |r.keys| == |st.keys| <==> k in st.vals
  {
    if k in st.vals then Store(st.keys, st.vals[k := v]) else Store(st.keys + [k], st.vals[k := v])
  }

  /** `d.items()`: the (key, value) pairs in key order. */
  function Entries<V>(st: Store<V>): (r: seq<(string, V)>)
    requires Valid(st)
    ensures |r| == |st.keys|
    ensures forall i :: 0 <= i < |r| ==> r[i].0 == st.keys[i] && r[i].0 in st.vals && r[i].1 == st.vals[r[i].0]
  {
    seq(|st.keys|, i requires 0 <= i < |st.keys| => (st.keys[i], st.vals[st.keys[i]]))
  }

  /** Each key of the store occurs in exactly one entry, and the entries are all different. */
  lemma EntriesOfKeys<V>(st: Store<V>)
    requires Valid(st)
    ensures forall k :: k in st.vals ==> (k, st.vals[k]) in Entries(st)
    ensures forall i, j :: 0 <= i < j < |Entries(st)| ==> Entries(st)[i].0 != Entries(st)[j].0
  {
    forall k | k in st.vals
      ensures (k, st.vals[k]) in Entries(st)
    {
      var i :| 0 <= i < |st.keys| && st.keys[i] == k;
      assert Entries(st)[i] == (k, st.vals[k]);
    }
  }

  /** The keys of a sequence of (key, value) pairs. */
  function Ids<V>(entries: seq<(string, V)>): (r: seq<string>)
    ensures |r| == |entries| && forall i :: 0 <= i < |r| ==> r[i] == entries[i].0
  {
    seq(|entries|, i requires 0 <= i < |entries| => entries[i].0)
  }

  lemma IdsOfFront<V>(entries: seq<(string, V)>)
    requires |entries| > 0
    ensures Ids(entries) == Ids(entries[..|entries| - 1]) + [entries[|entries| - 1].0]
  {
  }

  /** The elements of `s` with every repeat after the first dropped. */
  function FirstOccurrences(s: seq<string>): (r: seq<string>)
    ensures Distinct(r)
    ensures forall x :: x in r <==> x in s
    decreases |s|
  {
    if |s| == 0 then []
    else
      var p := FirstOccurrences(s[..|s| - 1]);
      if s[|s| - 1] in s[..|s| - 1] then p else p + [s[|s| - 1]]
  }

  /** Removing repeats from a list without repeats changes nothing. */
  lemma {:induction false} FirstOccurrencesOfDistinct(s: seq<string>)
    requires Distinct(s)
    ensures FirstOccurrences(s) == s
    decreases |s|
  {
    if |s| > 0 {
      FirstOccurrencesOfDistinct(s[..|s| - 1]);
      assert s == s[..|s| - 1] + [s[|s| - 1]];
    }
  }

  lemma FirstOccurrencesSnoc(s: seq<string>, x: string)
    ensures FirstOccurrences(s + [x]) == FirstOccurrences(s) + (if x in s then [] else [x])
  {
    assert (s + [x])[..|s + [x]| - 1] == s;
  }

  /** Assigning each pair in turn, as a loop of `d[k] = v` does. */
  function PutAll<V>(st: Store<V>, entries: seq<(string, V)>): (r: Store<V>)
    requires Valid(st)
    ensures Valid(r)
    ensures forall k :: k in r.vals <==> k in st.vals || k in Ids(entries)
    decreases |entries|
  {
    if |entries| == 0 then st
    else
      var front := entries[..|entries| - 1];
      var last := entries[|entries| - 1];
      assert Ids(entries) == Ids(front) + [last.0];
      Put(PutAll(st, front), last.0, last.1)
  }

  /** No later pair in `entries` has the key of pair `i`. */
  ghost predicate LastFor<V>(entries: seq<(string, V)>, i: int)
    requires 0 <= i < |entries|
  {
    forall j :: i < j < |entries| ==> entries[j].0 != entries[i].0
  }

  /** After assigning `entries`, the keys are the old keys followed by the new ones in the order
      they first occur, and the key set is the old one plus every assigned key. */
  lemma {:induction false} PutAllKeys<V>(st: Store<V>, entries: seq<(string, V)>)
    requires Valid(st)
    ensures PutAll(st, entries).keys == FirstOccurrences(st.keys + Ids(entries))
    decreases |entries|
  {
    if |entries| == 0 {
      assert st.keys + Ids(entries) == st.keys;
      FirstOccurrencesOfDistinct(st.keys);
    } else {
      var n := |entries|;
      var front := entries[..n - 1];
      var last := entries[n - 1];
      PutAllKeys(st, front);
      var p := PutAll(st, front);
      IdsOfFront(entries);
      var before := st.keys + Ids(front);
      assert st.keys + Ids(entries) == before + [last.0];
      FirstOccurrencesSnoc(before, last.0);
      assert last.0 in before <==> last.0 in p.vals;
    }
  }

  /** Last write wins: each assigned key holds the value of its last pair, and the keys never
      assigned keep their old values. */
  lemma {:induction false} PutAllValues<V>(st: Store<V>, entries: seq<(string, V)>)
    requires Valid(st)
    ensures forall i :: 0 <= i < |entries| && LastFor(entries, i) ==>
      entries[i].0 in PutAll(st, entries).vals && PutAll(st, entries).vals[entries[i].0] == entries[i].1
    ensures forall k :: k in st.vals && k !in Ids(entries) ==> PutAll(st, entries).vals[k] == st.vals[k]
    decreases |entries|
  {
    if |entries| > 0 {
      var n := |entries|;
      var front := entries[..n - 1];
      PutAllValues(st, front);
      IdsOfFront(entries);
      forall i | 0 <= i < n && LastFor(entries, i)
        ensures PutAll(st, entries).vals[entries[i].0] == entries[i].1
      {
        if i < n - 1 {
          assert front[i] == entries[i];
          assert LastFor(front, i);
        }
      }
    }
  }

  /** A property every old value and every assigned value has is had by every value afterwards. */
  lemma {:induction false} PutAllKeeps<V>(st: Store<V>, entries: seq<(string, V)>, ok: V -> bool)
    requires Valid(st)
    requires forall k :: k in st.vals ==> ok(st.vals[k])
    requires forall i :: 0 <= i < |entries| ==> ok(entries[i].1)
    ensures forall k :: k in PutAll(st, entries).vals ==> ok(PutAll(st, entries).vals[k])
    decreases |entries|
  {
    if |entries| > 0 {
      PutAllKeeps(st, entries[..|entries| - 1], ok);
    }
  }

  /** A value repeated at two positions occurs at least twice. */
  lemma TwiceCounted<T>(s: seq<T>, i: int, j: int)
    requires 0 <= i < j < |s| && s[i] == s[j]
    ensures multiset(s)[s[i]] >= 2
  {
    assert s == s[..j] + s[j..];
    assert s[i] == s[..j][i];
    assert s[j] == s[j..][0];
  }

  /** Entries of a valid store are counted once each. */
  lemma {:induction false} EntriesCountedOnce<V>(e: seq<(string, V)>, x: (string, V))
    requires forall i, j :: 0 <= i < j < |e| ==> e[i].0 != e[j].0
    ensures multiset(e)[x] <= 1
    decreases |e|
  {
    if |e| > 0 {
      var front := e[..|e| - 1];
      assert e == front + [e[|e| - 1]];
      EntriesCountedOnce(front, x);
      if e[|e| - 1] == x {
        assert x !in front;
      }
    }
  }

  /** Any rearrangement of a store's entries still lists every key with its value, and no key twice. */
  lemma PermutedEntries<V>(st: Store<V>, r: seq<(string, V)>)
    requires Valid(st) && multiset(r) == multiset(Entries(st))
    ensures forall k :: k in st.vals ==> (k, st.vals[k]) in r
    ensures forall i, j :: 0 <= i < j < |r| ==> r[i].0 != r[j].0
  {
    var e := Entries(st);
    EntriesOfKeys(st);
    forall k | k in st.vals
      ensures (k, st.vals[k]) in r
    {
      assert (k, st.vals[k]) in multiset(e);
    }
    SubEntriesDistinct(st, r);
  }

  /** A sub-multiset of a store's entries lists no id twice. */
  lemma SubEntriesDistinct<V>(st: Store<V>, r: seq<(string, V)>)
    requires Valid(st) && multiset(r) <= multiset(Entries(st))
    ensures forall i, j :: 0 <= i < j < |r| ==> r[i].0 != r[j].0
  {
    var e := Entries(st);
    EntriesOfKeys(st);
    forall i, j | 0 <= i < j < |r|
      ensures r[i].0 != r[j].0
    {
      assert r[i] in multiset(e) && r[j] in multiset(e);
      if r[i].0 == r[j].0 {
        assert r[i] == r[j];
        TwiceCounted(r, i, j);
        EntriesCountedOnce(e, r[i]);
      }
    }
  }
}
