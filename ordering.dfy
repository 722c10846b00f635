/**
 * Orders on season labels. `groupby` visits its groups in ascending key
 * order (code-point lexicographic order on strings); `unique()` lists the
 * distinct keys in order of first appearance. Both are modelled here.
 */
module Ordering {

  /** Lexicographic order on strings by code point; a proper prefix comes first. */
  predicate LexLess(a: string, b: string)
  {
    if a == [] then b != []
    else b != [] && (a[0] < b[0] || (a[0] == b[0] && LexLess(a[1..], b[1..])))
  }

  lemma {:induction false} LexLessIrreflexive(a: string)
    ensures !LexLess(a, a)
  {
    if a != [] {
      LexLessIrreflexive(a[1..]);
    }
  }

  lemma {:induction false} LexLessTransitive(a: string, b: string, c: string)
    requires LexLess(a, b) && LexLess(b, c)
    ensures LexLess(a, c)
  {
    if a != [] && a[0] == b[0] && b[0] == c[0] {
      LexLessTransitive(a[1..], b[1..], c[1..]);
    }
  }

  lemma {:induction false} LexLessTotal(a: string, b: string)
    requires a != b
    ensures LexLess(a, b) || LexLess(b, a)
  {
    if a != [] && b != [] && a[0] == b[0] {
      assert a == [a[0]] + a[1..] && b == [b[0]] + b[1..];
      LexLessTotal(a[1..], b[1..]);
    }
  }

  /** The set of elements of a sequence. */
  ghost function Elements<T>(s: seq<T>): set<T>
  {
    set k | k in s
  }

  lemma ElementsCons<T>(h: T, t: seq<T>)
    ensures Elements([h] + t) == {h} + Elements(t)
  {
    assert forall y :: y in [h] + t <==> y == h || y in t;
  }

  lemma ElementsSnoc<T>(t: seq<T>, h: T)
    ensures Elements(t + [h]) == Elements(t) + {h}
  {
    assert forall y :: y in t + [h] <==> y in t || y == h;
  }

  /** `a` is `b` with some elements left out, the rest in their order. */
  ghost predicate IsSubsequence<T>(a: seq<T>, b: seq<T>)
  {
    if a == [] then true
    else if b == [] then false
    else (a[0] == b[0] && IsSubsequence(a[1..], b[1..])) || IsSubsequence(a, b[1..])
  }

  /** Ascending without repetitions. */
  ghost predicate StrictlySorted(s: seq<string>)
  {
    forall i, j :: 0 <= i < j < |s| ==> LexLess(s[i], s[j])
  }

  ghost predicate NoDuplicates<T>(s: seq<T>)
  {
    forall i, j :: 0 <= i < j < |s| ==> s[i] != s[j]
  }

  lemma StrictlySortedHasNoDuplicates(s: seq<string>)
    requires StrictlySorted(s)
    ensures NoDuplicates(s)
  {
    forall i, j | 0 <= i < j < |s| ensures s[i] != s[j] {
      if s[i] == s[j] {
        LexLessIrreflexive(s[i]);
      }
    }
  }

  /** Inserts `x` at its place in a strictly ascending sequence, unless it is there already. */
  function InsertKey(x: string, s: seq<string>): (r: seq<string>)
    requires StrictlySorted(s)
    ensures StrictlySorted(r)
    ensures Elements(r) == Elements(s) + {x}
  {
    if s == [] then [x]
    else if x == s[0] then s
    else if LexLess(x, s[0]) then
      assert forall j :: 0 < j < |s| ==> LexLess(x, s[j]) by {
        forall j | 0 < j < |s| ensures LexLess(x, s[j]) {
          LexLessTransitive(x, s[0], s[j]);
        }
      }
      [x] + s
    else
      LexLessTotal(x, s[0]);
      var rest := InsertKey(x, s[1..]);
      assert forall j :: 0 <= j < |rest| ==> LexLess(s[0], rest[j]) by {
        forall j | 0 <= j < |rest| ensures LexLess(s[0], rest[j]) {
          assert rest[j] in Elements(rest);
          if rest[j] != x {
            assert rest[j] in Elements(s[1..]);
            var k :| 0 <= k < |s[1..]| && s[1..][k] == rest[j];
            assert s[k + 1] == rest[j];
          }
        }
      }
      ElementsCons(s[0], rest);
      ElementsCons(s[0], s[1..]);
      assert [s[0]] + s[1..] == s;
      [s[0]] + rest
  }

  /** The distinct elements of `s` in ascending order: the order `groupby` visits its groups. */
  function SortedKeys(s: seq<string>): (r: seq<string>)
    ensures StrictlySorted(r)
    ensures Elements(r) == Elements(s)
  {
    if s == [] then [] else InsertKey(s[0], SortedKeys(s[1..]))
  }

  /** The position of the first occurrence of `x` in `s`. */
  function FirstIndex<T(==)>(s: seq<T>, x: T): (i: nat)
    requires x in s
    ensures i < |s| && s[i] == x
    ensures forall j :: 0 <= j < i ==> s[j] != x
  {
    if s[0] == x then 0 else 1 + FirstIndex(s[1..], x)
  }

  /** Appending an element leaves the first occurrence of an element already present where it was. */
  lemma FirstIndexSnoc<T>(s: seq<T>, y: T, x: T)
    requires x in s
    ensures x in s + [y] && FirstIndex(s + [y], x) == FirstIndex(s, x)
  {
    var a, b := FirstIndex(s, x), FirstIndex(s + [y], x);
    assert (s + [y])[a] == x;
  }

  /**
   * The distinct elements of `s` in order of first appearance, as `unique()`
   * returns them: an element comes before another exactly when its first
   * occurrence in `s` does.
   */
  function FirstAppearance<T(==)>(s: seq<T>): (r: seq<T>)
    ensures NoDuplicates(r)
    ensures Elements(r) == Elements(s)
    ensures forall i :: 0 <= i < |r| ==> r[i] in s
    ensures forall i, j :: 0 <= i < j < |r| ==> FirstIndex(s, r[i]) < FirstIndex(s, r[j])
  {
    if s == [] then []
    else
      var init, last := s[..|s| - 1], s[|s| - 1];
      var prefix := FirstAppearance(init);
      assert s == init + [last];
      ElementsSnoc(init, last);
      ElementsSnoc(prefix, last);
      forall i | 0 <= i < |prefix|
        ensures FirstIndex(s, prefix[i]) == FirstIndex(init, prefix[i]) < |init|
      {
        FirstIndexSnoc(init, last, prefix[i]);
      }
      if last in prefix then
        assert last in Elements(prefix);
        prefix
      else
        assert last !in Elements(init);
        assert FirstIndex(s, last) == |init|;
        prefix + [last]
  }

  /** A sequence without repetitions is as long as the set of its elements is large. */
  lemma {:induction false} DistinctLength<T>(s: seq<T>)
    requires NoDuplicates(s)
    ensures |Elements(s)| == |s|
  {
    if s != [] {
      var tail := s[1..];
      DistinctLength(tail);
      assert Elements(s) == Elements(tail) + {s[0]};
      assert s[0] !in tail;
    }
  }

  /** groupby and unique() visit the same number of distinct keys. */
  lemma KeyCountsAgree(s: seq<string>)
    ensures |SortedKeys(s)| == |FirstAppearance(s)|
  {
    StrictlySortedHasNoDuplicates(SortedKeys(s));
    DistinctLength(SortedKeys(s));
    DistinctLength(FirstAppearance(s));
  }
}
