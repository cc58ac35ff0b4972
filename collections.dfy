/** The Kotlin collection operations the quiz repository is written with:
    nullable results, `List.find` and `List.filter`, each with the
    properties the rest of the model relies on. */
module Collections {

  /** Kotlin's nullable type `T?`; `None` stands for `null`. */
  datatype Option<+T> = None | Some(value: T)

  /** `r` is obtained from `s` by deleting elements and keeping the order of
      the rest. Matching greedily against the earliest candidate is complete. */
  predicate IsSubsequence<T(==)>(r: seq<T>, s: seq<T>)
    decreases |s|
  {
    if r == [] then true
    else if s == [] then false
    else if r[0] == s[0] then IsSubsequence(r[1..], s[1..])
    else IsSubsequence(r, s[1..])
  }

  /** `List.find`: the first element that satisfies `p`, or `null`. */
  function Find<T>(s: seq<T>, p: T -> bool): (r: Option<T>)
    ensures r.None? <==> forall i :: 0 <= i < |s| ==> !p(s[i])
    ensures r.Some? ==>
              exists i :: 0 <= i < |s| && s[i] == r.value && p(s[i]) &&
                          forall j :: 0 <= j < i ==> !p(s[j])
  {
    if s == [] then None
    else if p(s[0]) then Some(s[0])
    else
      var r := Find(s[1..], p);
      assert r.Some? ==> exists i :: 0 <= i < |s| && s[i] == r.value && p(s[i]) &&
                                     forall j :: 0 <= j < i ==> !p(s[j]) by {
        if r.Some? {
          var k :| 0 <= k < |s[1..]| && s[1..][k] == r.value && p(s[1..][k]) &&
                   forall j :: 0 <= j < k ==> !p(s[1..][j]);
          assert forall j :: 0 <= j < k + 1 ==> !p(s[j]) by {
            forall j | 0 <= j < k + 1 ensures !p(s[j]) {
              if j > 0 { assert s[j] == s[1..][j - 1]; }
            }
          }
        }
      }
      r
  }

  /** `List.filter`: the elements that satisfy `keep`, each occurrence kept
      or dropped as a whole, in their original order. */
  function Filter<T(==,!new)>(s: seq<T>, keep: T -> bool): (r: seq<T>)
    ensures |r| <= |s|
    ensures forall x :: x in r <==> x in s && keep(x)
    ensures IsSubsequence(r, s)
  {
    if s == [] then []
    else if keep(s[0]) then [s[0]] + Filter(s[1..], keep)
      else Filter(s[1..], keep)
  }

  /** Every occurrence of a kept element survives, and nothing else does:
      together with `IsSubsequence` this pins the result down exactly. */
  lemma {:induction false} FilterCounts<T(!new)>(s: seq<T>, keep: T -> bool)
    ensures forall x :: multiset(Filter(s, keep))[x] == if keep(x) then multiset(s)[x] else 0
  {
    if s != [] {
      FilterCounts(s[1..], keep);
      assert s == [s[0]] + s[1..];
    }
  }

  lemma FilterCons<T(!new)>(x: T, s: seq<T>, keep: T -> bool)
    ensures Filter([x] + s, keep) == if keep(x) then [x] + Filter(s, keep) else Filter(s, keep)
  {
    assert ([x] + s)[1..] == s;
  }

  /** Filtering keeps the whole sequence when every element passes. */
  lemma {:induction false} FilterKeepsAll<T(!new)>(s: seq<T>, keep: T -> bool)
    requires forall i :: 0 <= i < |s| ==> keep(s[i])
    ensures Filter(s, keep) == s
  {
    if s != [] {
      FilterKeepsAll(s[1..], keep);
    }
  }

  /** Two tests that agree on every element of `s` filter it alike. */
  lemma {:induction false} FilterCongruent<T(!new)>(s: seq<T>, f: T -> bool, g: T -> bool)
    requires forall i :: 0 <= i < |s| ==> f(s[i]) == g(s[i])
    ensures Filter(s, f) == Filter(s, g)
  {
    if s != [] {
      FilterCongruent(s[1..], f, g);
    }
  }

  lemma PrefixCons<T>(x: T, a: seq<T>, b: seq<T>)
    requires a <= b
    ensures [x] + a <= [x] + b
  {
    assert ([x] + b)[..|a| + 1] == [x] + b[..|a|];
  }

  /** Filtering a prefix gives a prefix of the filtered whole. */
  lemma {:induction false} FilterOfPrefix<T(!new)>(s: seq<T>, k: nat, keep: T -> bool)
    requires k <= |s|
    ensures Filter(s[..k], keep) <= Filter(s, keep)
  {
    if k > 0 {
      var head, tail := s[0], s[1..];
      assert s[..k] == [head] + tail[..k - 1];
      assert s == [head] + tail;
      FilterOfPrefix(tail, k - 1, keep);
      FilterCons(head, tail[..k - 1], keep);
      FilterCons(head, tail, keep);
      PrefixCons(head, Filter(tail[..k - 1], keep), Filter(tail, keep));
    }
  }
}
