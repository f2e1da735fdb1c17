/** Ordering entries by a string key, as both the sidebar and the editor's
    tree do. The comparison is by character code; `localeCompare` is not
    modelled beyond that. */
module Sorting {

  /** `a` sorts no later than `b`, comparing character codes left to right. */
  predicate LexLe(a: string, b: string)
  {
    |a| == 0 || (|b| > 0 && (a[0] < b[0] || (a[0] == b[0] && LexLe(a[1..], b[1..]))))
  }

  lemma {:induction false} LexLeTotal(a: string, b: string)
    ensures LexLe(a, b) || LexLe(b, a)
  {
    if |a| > 0 && |b| > 0 && a[0] == b[0] {
      LexLeTotal(a[1..], b[1..]);
    }
  }

  lemma {:induction false} LexLeTrans(a: string, b: string, c: string)
    requires LexLe(a, b) && LexLe(b, c)
    ensures LexLe(a, c)
  {
    if |a| > 0 && a[0] == b[0] && b[0] == c[0] {
      LexLeTrans(a[1..], b[1..], c[1..]);
    }
  }

  predicate SortedBy<T>(s: seq<T>, key: T -> string)
  {
    forall i, j :: 0 <= i < j < |s| ==> LexLe(key(s[i]), key(s[j]))
  }

  /** `x` placed into the sorted `s` before the first element that does not sort before it. */
  function InsertBy<T>(x: T, s: seq<T>, key: T -> string): (r: seq<T>)
    requires SortedBy(s, key)
    ensures SortedBy(r, key)
    ensures multiset(r) == multiset(s) + multiset{x}
  {
    if s == [] then [x]
    else if LexLe(key(x), key(s[0])) then
      LexLeAbove(s, key, key(x));
      [x] + s
    else
      var rest := InsertBy(x, s[1..], key);
      assert s == [s[0]] + s[1..];
      LexLeTotal(key(x), key(s[0]));
      forall k | 0 <= k < |rest|
        ensures LexLe(key(s[0]), key(rest[k]))
      {
        assert rest[k] in multiset(rest);
      }
      [s[0]] + rest
  }

  /** In a sorted sequence, a key below the first element's is below all of them. */
  lemma LexLeAbove<T>(s: seq<T>, key: T -> string, k: string)
    requires SortedBy(s, key) && |s| > 0 && LexLe(k, key(s[0]))
    ensures forall j :: 0 <= j < |s| ==> LexLe(k, key(s[j]))
  {
    forall j | 0 <= j < |s|
      ensures LexLe(k, key(s[j]))
    {
      if j > 0 {
        LexLeTrans(k, key(s[0]), key(s[j]));
      }
    }
  }

  /** A stable insertion sort by `key`. */
  function SortBy<T>(s: seq<T>, key: T -> string): (r: seq<T>)
    ensures SortedBy(r, key)
    ensures multiset(r) == multiset(s)
  {
    if s == [] then []
    else
      assert s == [s[0]] + s[1..];
      InsertBy(s[0], SortBy(s[1..], key), key)
  }

  /** A property of every element survives a permutation. */
  lemma PermutationKeeps<T>(a: seq<T>, b: seq<T>, x: T)
    requires multiset(a) == multiset(b) && x in b
    ensures x in a
  {
    assert x in multiset(b);
  }
}
