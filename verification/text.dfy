/** The string operations the two scripts rely on: lower-casing, substring search,
    whitespace splitting and the ordering Python uses to compare strings. */
module Text {

  /** An ASCII capital letter; lowering leaves every other character alone. */
  predicate IsUpper(c: char) {
    'A' <= c <= 'Z'
  }

  function LowerChar(c: char): (r: char)
    ensures !IsUpper(r)
  {
    if IsUpper(c) then (c as int + 32) as char else c
  }

  /** `str.lower()`, restricted to ASCII letters. */
  function Lower(s: string): (r: string)
    ensures |r| == |s|
    ensures forall i :: 0 <= i < |s| ==> r[i] == LowerChar(s[i])
  {
    seq(|s|, i requires 0 <= i < |s| => LowerChar(s[i]))
  }

  /** Lowering text without capitals changes nothing. */
  lemma LowerOfLowerCase(s: string)
    requires forall i :: 0 <= i < |s| ==> !IsUpper(s[i])
    ensures Lower(s) == s
  {
  }

  /** `a.lower() == b.lower()`. */
  predicate EqualsIgnoreCase(a: string, b: string) {
    Lower(a) == Lower(b)
  }

  predicate IsPrefix(p: string, s: string) {
    |p| <= |s| && s[..|p|] == p
  }

  /** `p` occurs somewhere inside `s` (the empty string occurs in every string). */
  ghost predicate IsSubstring(p: string, s: string) {
    exists i :: 0 <= i <= |s| && IsPrefix(p, s[i..])
  }

  /** Python's `p in s` for strings: a left-to-right search for `p` in `s`. */
  function Contains(p: string, s: string): (r: bool)
    ensures r <==> IsSubstring(p, s)
    decreases |s|
  {
    if IsPrefix(p, s) then
      assert IsPrefix(p, s[0..]);
      true
    else if |s| == 0 then
      false
    else
      var r := Contains(p, s[1..]);
      if r then
        var i :| 0 <= i <= |s[1..]| && IsPrefix(p, s[1..][i..]);
        assert s[1..][i..] == s[i + 1..];
        true
      else
        assert forall i :: 1 <= i <= |s| ==> s[i..] == s[1..][i - 1..];
        false
  }

  /** The characters `str.split()` treats as separators. */
  predicate IsSpace(c: char) {
    || 9 <= c as int <= 13
    || 28 <= c as int <= 32
    || c as int == 0x85 || c as int == 0xA0 || c as int == 0x1680
    || 0x2000 <= c as int <= 0x200A
    || c as int == 0x2028 || c as int == 0x2029 || c as int == 0x202F
    || c as int == 0x205F || c as int == 0x3000
  }

  predicate NoSpace(s: string) {
    forall i :: 0 <= i < |s| ==> !IsSpace(s[i])
  }

  predicate AllSpace(s: string) {
    forall i :: 0 <= i < |s| ==> IsSpace(s[i])
  }

  /** The split of `s` when the characters `cur` of an unfinished token precede it. */
  function TokensFrom(s: string, cur: string): (r: seq<string>)
    requires NoSpace(cur)
    ensures forall k :: 0 <= k < |r| ==> |r[k]| > 0 && NoSpace(r[k])
    decreases |s|
  {
    if |s| == 0 then
      if |cur| == 0 then [] else [cur]
    else if IsSpace(s[0]) then
      if |cur| == 0 then TokensFrom(s[1..], []) else [cur] + TokensFrom(s[1..], [])
    else
      TokensFrom(s[1..], cur + [s[0]])
  }

  /** `s.split()` with no separator: the maximal runs of non-whitespace characters, in order. */
  function Tokens(s: string): (r: seq<string>)
    ensures forall k :: 0 <= k < |r| ==> |r[k]| > 0 && NoSpace(r[k])
  {
    TokensFrom(s, [])
  }

  lemma {:induction false} TokensFromSpace(s: string)
    requires AllSpace(s)
    ensures TokensFrom(s, []) == []
    decreases |s|
  {
    if |s| > 0 {
      TokensFromSpace(s[1..]);
    }
  }

  lemma {:induction false} TokensFromWord(w: string, cur: string)
    requires NoSpace(cur) && NoSpace(w)
    ensures TokensFrom(w, cur) == if |cur + w| == 0 then [] else [cur + w]
    decreases |w|
  {
    if |w| > 0 {
      TokensFromWord(w[1..], cur + [w[0]]);
      assert cur + [w[0]] + w[1..] == cur + w;
    } else {
      assert cur + w == cur;
    }
  }

  lemma {:induction false} TokensFromAtSpace(a: string, c: char, b: string, cur: string)
    requires IsSpace(c) && NoSpace(cur)
    ensures TokensFrom(a + [c] + b, cur) == TokensFrom(a, cur) + TokensFrom(b, [])
    decreases |a|
  {
    var s := a + [c] + b;
    if |a| == 0 {
      assert s == [c] + b;
      assert s[1..] == b;
    } else {
      assert s[0] == a[0];
      assert s[1..] == a[1..] + [c] + b;
      if IsSpace(a[0]) {
        TokensFromAtSpace(a[1..], c, b, []);
      } else {
        TokensFromAtSpace(a[1..], c, b, cur + [a[0]]);
      }
    }
  }

  /** A string of whitespace only splits into nothing. */
  lemma TokensOfSpace(s: string)
    requires AllSpace(s)
    ensures Tokens(s) == []
  {
    TokensFromSpace(s);
  }

  /** A non-empty string without whitespace is its own single token. */
  lemma TokensOfWord(w: string)
    requires |w| > 0 && NoSpace(w)
    ensures Tokens(w) == [w]
  {
    TokensFromWord(w, []);
    assert [] + w == w;
  }

  /** Splitting at one whitespace character splits the tokens there: together with the two
      lemmas above this pins `Tokens` down on every string. */
  lemma TokensAtSpace(a: string, c: char, b: string)
    requires IsSpace(c)
    ensures Tokens(a + [c] + b) == Tokens(a) + Tokens(b)
  {
    TokensFromAtSpace(a, c, b, []);
  }

  /** Python's `<=` on strings: lexicographic by code point, a proper prefix sorting first. */
  predicate StrLe(a: string, b: string)
    decreases |a|
  {
    |a| == 0 || (|b| > 0 && (a[0] < b[0] || (a[0] == b[0] && StrLe(a[1..], b[1..]))))
  }

  /** `a` and `b` agree before position `i` and `a` has the smaller character there. */
  ghost predicate FirstDifferenceAt(a: string, b: string, i: int) {
    0 <= i < |a| && i < |b| && a[..i] == b[..i] && a[i] < b[i]
  }

  /** The recursive comparison agrees with the textbook definition: `a` is a prefix of `b`,
      or the two agree up to a first differing position where `a` has the smaller character. */
  lemma StrLeMeansLexicographic(a: string, b: string)
    ensures StrLe(a, b) <==> IsPrefix(a, b) || exists i :: FirstDifferenceAt(a, b, i)
  {
    if StrLe(a, b) {
      StrLeIsLexicographic(a, b);
    } else if IsPrefix(a, b) {
      PrefixIsStrLe(a, b);
    } else if i :| FirstDifferenceAt(a, b, i) {
      DifferenceIsStrLe(a, b, i);
    }
  }

  lemma {:induction false} StrLeIsLexicographic(a: string, b: string)
    requires StrLe(a, b)
    ensures IsPrefix(a, b) || exists i :: FirstDifferenceAt(a, b, i)
    decreases |a|
  {
    if |a| == 0 {
    } else if a[0] < b[0] {
      assert FirstDifferenceAt(a, b, 0);
    } else {
      StrLeIsLexicographic(a[1..], b[1..]);
      if IsPrefix(a[1..], b[1..]) {
        assert a == [a[0]] + a[1..];
        assert b[..|a|] == [b[0]] + b[1..][..|a| - 1];
      } else {
        var j :| FirstDifferenceAt(a[1..], b[1..], j);
        assert a[..j + 1] == [a[0]] + a[1..][..j];
        assert b[..j + 1] == [b[0]] + b[1..][..j];
        assert FirstDifferenceAt(a, b, j + 1);
      }
    }
  }

  lemma {:induction false} PrefixIsStrLe(a: string, b: string)
    requires IsPrefix(a, b)
    ensures StrLe(a, b)
    decreases |a|
  {
    if |a| > 0 {
      assert a[0] == b[0];
      assert b[1..][..|a| - 1] == b[1..|a|] == a[1..];
      PrefixIsStrLe(a[1..], b[1..]);
    }
  }

  lemma {:induction false} DifferenceIsStrLe(a: string, b: string, i: int)
    requires FirstDifferenceAt(a, b, i)
    ensures StrLe(a, b)
    decreases i
  {
    if i > 0 {
      assert a[0] == a[..i][0] == b[..i][0] == b[0];
      assert a[1..][..i - 1] == a[1..i] == b[1..i] == b[1..][..i - 1];
      DifferenceIsStrLe(a[1..], b[1..], i - 1);
    }
  }

  lemma {:induction false} StrLeTotal(a: string, b: string)
    ensures StrLe(a, b) || StrLe(b, a)
    decreases |a|
  {
    if |a| > 0 && |b| > 0 && a[0] == b[0] {
      StrLeTotal(a[1..], b[1..]);
    }
  }

  lemma {:induction false} StrLeTransitive(a: string, b: string, c: string)
    requires StrLe(a, b) && StrLe(b, c)
    ensures StrLe(a, c)
    decreases |a|
  {
    if |a| > 0 && a[0] == b[0] && b[0] == c[0] {
      StrLeTransitive(a[1..], b[1..], c[1..]);
    }
  }

  lemma {:induction false} StrLeAntisymmetric(a: string, b: string)
    requires StrLe(a, b) && StrLe(b, a)
    ensures a == b
    decreases |a|
  {
    if |a| > 0 {
      StrLeAntisymmetric(a[1..], b[1..]);
      assert a == [a[0]] + a[1..];
      assert b == [b[0]] + b[1..];
    }
  }
}
