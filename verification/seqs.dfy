/**
 * Sequence facts shared by the components: `filter` as JavaScript's `Array.prototype.filter`
 * computes it, and "first element per key, in order of first appearance", which is what
 * inserting into an insertion-ordered `Map` only when the key is absent produces. A plain
 * object behaves the same way as long as no key looks like an array index (such keys are
 * listed first, in ascending numeric order).
 *
 * Every recursive definition here peels off the LAST element, so that a loop walking the
 * input from the front can keep "the definition applied to the prefix seen so far" as its
 * invariant.
 */
module Seqs {

  /** `a` is `b` with some elements deleted: only elements of `b`, in their order in `b`. */
  predicate IsSubsequence<T(==)>(a: seq<T>, b: seq<T>)
    decreases |b|
  {
    if a == [] then true
    else if b == [] then false
    else (a[|a| - 1] == b[|b| - 1] && IsSubsequence(a[..|a| - 1], b[..|b| - 1]))
         || IsSubsequence(a, b[..|b| - 1])
  }

  lemma {:induction false} SubsequenceElements<T>(a: seq<T>, b: seq<T>)
    requires IsSubsequence(a, b)
    ensures |a| <= |b|
    ensures forall x :: x in a ==> x in b
  {
    if a != [] {
      var a', b' := a[..|a| - 1], b[..|b| - 1];
      assert b == b' + [b[|b| - 1]];
      if a[|a| - 1] == b[|b| - 1] && IsSubsequence(a', b') {
        SubsequenceElements(a', b');
        assert a == a' + [a[|a| - 1]];
      } else {
        SubsequenceElements(a, b');
      }
    }
  }

  lemma {:induction false} SubsequenceTransitive<T>(a: seq<T>, b: seq<T>, c: seq<T>)
    requires IsSubsequence(a, b) && IsSubsequence(b, c)
    ensures IsSubsequence(a, c)
    decreases |c|
  {
    if a != [] {
      SubsequenceElements(a, b);
      SubsequenceElements(b, c);
      var a', b', c' := a[..|a| - 1], b[..|b| - 1], c[..|c| - 1];
      if b[|b| - 1] == c[|c| - 1] && IsSubsequence(b', c') {
        if a[|a| - 1] == b[|b| - 1] && IsSubsequence(a', b') {
          SubsequenceTransitive(a', b', c');
        } else {
          SubsequenceTransitive(a, b', c');
        }
      } else {
        SubsequenceTransitive(a, b, c');
      }
    }
  }

  /** A prefix is a subsequence, and so is the whole sequence. */
  lemma {:induction false} PrefixIsSubsequence<T>(s: seq<T>, n: nat)
    requires n <= |s|
    ensures IsSubsequence(s[..n], s)
    decreases |s|
  {
    if n < |s| {
      PrefixIsSubsequence(s[..|s| - 1], n);
      assert s[..|s| - 1][..n] == s[..n];
    } else {
      SubsequenceOfItself(s);
      assert s[..n] == s;
    }
  }

  lemma {:induction false} SubsequenceOfItself<T>(s: seq<T>)
    ensures IsSubsequence(s, s)
    decreases |s|
  {
    if s != [] {
      SubsequenceOfItself(s[..|s| - 1]);
    }
  }

  /** Keeps exactly the elements satisfying `p`, in their original order. */
  function Filter<T(==)>(s: seq<T>, p: T -> bool): (r: seq<T>)
    ensures IsSubsequence(r, s)
    ensures forall x :: x in r ==> x in s && p(x)
    ensures forall x :: x in s && p(x) ==> multiset(r)[x] == multiset(s)[x]
    decreases |s|
  {
    if s == [] then []
    else
      var init := Filter(s[..|s| - 1], p);
      var x := s[|s| - 1];
      assert s == s[..|s| - 1] + [x];
      if p(x) then
        assert (init + [x])[..|init|] == init;
        init + [x]
      else init
  }

  /** An element that passes is kept. */
  lemma FilterKeeps<T>(s: seq<T>, p: T -> bool, x: T)
    requires x in s && p(x)
    ensures x in Filter(s, p)
  {
    assert multiset(Filter(s, p))[x] == multiset(s)[x];
  }

  /** Filtering keeps the relative order of the elements it keeps. */
  lemma {:induction false} FilterPrecedes<T>(s: seq<T>, p: T -> bool, i: int, j: int)
    requires 0 <= i < j < |s| && p(s[i]) && p(s[j])
    ensures exists a, b :: 0 <= a < b < |Filter(s, p)| && Filter(s, p)[a] == s[i] && Filter(s, p)[b] == s[j]
    decreases |s|
  {
    var init := s[..|s| - 1];
    if j < |s| - 1 {
      FilterPrecedes(init, p, i, j);
      var a, b :| 0 <= a < b < |Filter(init, p)| && Filter(init, p)[a] == init[i] && Filter(init, p)[b] == init[j];
      assert Filter(s, p)[a] == s[i] && Filter(s, p)[b] == s[j];
    } else {
      FilterKeeps(init, p, s[i]);
      var a :| 0 <= a < |Filter(init, p)| && Filter(init, p)[a] == s[i];
      assert Filter(s, p)[a] == s[i] && Filter(s, p)[|Filter(init, p)|] == s[j];
    }
  }

  /** Filtering a sequence without repeated elements gives one without repeated elements. */
  lemma {:induction false} FilterDistinct<T>(s: seq<T>, p: T -> bool)
    requires forall a, b :: 0 <= a < b < |s| ==> s[a] != s[b]
    ensures forall a, b :: 0 <= a < b < |Filter(s, p)| ==> Filter(s, p)[a] != Filter(s, p)[b]
    decreases |s|
  {
    if s != [] {
      var init, x := s[..|s| - 1], s[|s| - 1];
      FilterDistinct(init, p);
      assert x !in init;
    }
  }

  lemma FilterSnoc<T>(s: seq<T>, x: T, p: T -> bool)
    ensures Filter(s + [x], p) == Filter(s, p) + (if p(x) then [x] else [])
  {
    assert (s + [x])[..|s|] == s;
  }

  /** Filtering a sequence whose every element passes returns it unchanged. */
  lemma {:induction false} FilterKeepsAll<T>(s: seq<T>, p: T -> bool)
    requires forall x :: x in s ==> p(x)
    ensures Filter(s, p) == s
    decreases |s|
  {
    if s != [] {
      var init := s[..|s| - 1];
      assert s == init + [s[|s| - 1]];
      FilterKeepsAll(init, p);
      FilterSnoc(init, s[|s| - 1], p);
    }
  }

  /** Filtering twice with the same predicate is filtering once. */
  lemma FilterIdempotent<T>(s: seq<T>, p: T -> bool)
    ensures Filter(Filter(s, p), p) == Filter(s, p)
  {
    FilterKeepsAll(Filter(s, p), p);
  }

  /** Some element of `s` has key `k`. */
  predicate HasKey<T, K(==)>(s: seq<T>, k: K, key: T -> K)
    decreases |s|
  {
    |s| > 0 && (key(s[|s| - 1]) == k || HasKey(s[..|s| - 1], k, key))
  }

  lemma {:induction false} HasKeyAt<T, K>(s: seq<T>, j: int, key: T -> K)
    requires 0 <= j < |s|
    ensures HasKey(s, key(s[j]), key)
    decreases |s|
  {
    if j < |s| - 1 {
      HasKeyAt(s[..|s| - 1], j, key);
    }
  }

  lemma NoKeyAnywhere<T, K>(s: seq<T>, k: K, key: T -> K)
    requires !HasKey(s, k, key)
    ensures forall j :: 0 <= j < |s| ==> key(s[j]) != k
  {
    forall j | 0 <= j < |s|
      ensures key(s[j]) != k
    {
      HasKeyAt(s, j, key);
    }
  }

  lemma {:induction false} HasKeyAppend<T, K>(s: seq<T>, t: seq<T>, k: K, key: T -> K)
    ensures HasKey(s + t, k, key) <==> HasKey(s, k, key) || HasKey(t, k, key)
    decreases |t|
  {
    if t != [] {
      var t' := t[..|t| - 1];
      assert (s + t)[..|s + t| - 1] == s + t';
      HasKeyAppend(s, t', k, key);
    } else {
      assert s + t == s;
    }
  }

  /** The position of the first element of `s` whose key is `k`. */
  function FirstIndex<T, K(==)>(s: seq<T>, k: K, key: T -> K): (i: nat)
    requires HasKey(s, k, key)
    ensures i < |s| && key(s[i]) == k
    ensures forall j :: 0 <= j < i ==> key(s[j]) != k
    decreases |s|
  {
    var init := s[..|s| - 1];
    if HasKey(init, k, key) then FirstIndex(init, k, key)
    else NoKeyAnywhere(init, k, key); |s| - 1
  }

  /**
   * `r` holds the first element of `s` for each key of `s`, one per key, in order of first
   * appearance in `s`.
   */
  ghost predicate FirstOfEachKey<T, K>(s: seq<T>, r: seq<T>, key: T -> K)
  {
    FirstsAreFirst(s, r, key) && FirstsInOrder(s, r, key) && FirstsCover(s, r, key)
  }

  /** Each element of `r` is the first element of `s` with its key. */
  ghost predicate FirstsAreFirst<T, K>(s: seq<T>, r: seq<T>, key: T -> K)
  {
    forall i :: 0 <= i < |r| ==> HasKey(s, key(r[i]), key) && r[i] == s[FirstIndex(s, key(r[i]), key)]
  }

  /** The keys of `r` appear in the order of their first appearance in `s`. */
  ghost predicate FirstsInOrder<T, K>(s: seq<T>, r: seq<T>, key: T -> K)
  {
    forall i, j :: 0 <= i < j < |r| && HasKey(s, key(r[i]), key) && HasKey(s, key(r[j]), key) ==>
      FirstIndex(s, key(r[i]), key) < FirstIndex(s, key(r[j]), key)
  }

  /** Every key of `s` is a key of `r`. */
  ghost predicate FirstsCover<T, K>(s: seq<T>, r: seq<T>, key: T -> K)
  {
    forall i :: 0 <= i < |s| ==> HasKey(r, key(s[i]), key)
  }

  lemma FirstOfEachKeyDistinct<T, K>(s: seq<T>, r: seq<T>, key: T -> K)
    requires FirstOfEachKey(s, r, key)
    ensures forall i, j :: 0 <= i < j < |r| ==> key(r[i]) != key(r[j])
  {
  }

  lemma FirstOfEachKeySameKeys<T, K>(s: seq<T>, r: seq<T>, key: T -> K, k: K)
    requires FirstOfEachKey(s, r, key)
    ensures HasKey(r, k, key) <==> HasKey(s, k, key)
  {
    if HasKey(r, k, key) {
      var j := FirstIndex(r, k, key);
      assert HasKey(s, key(r[j]), key);
    }
    if HasKey(s, k, key) {
      var j := FirstIndex(s, k, key);
      assert HasKey(r, key(s[j]), key);
    }
  }

  lemma FirstIndexSnoc<T, K>(s: seq<T>, x: T, k: K, key: T -> K)
    requires HasKey(s, k, key)
    ensures HasKey(s + [x], k, key) && FirstIndex(s + [x], k, key) == FirstIndex(s, k, key)
  {
    assert (s + [x])[..|s|] == s;
  }

  lemma FirstIndexNew<T, K>(s: seq<T>, x: T, key: T -> K)
    requires !HasKey(s, key(x), key)
    ensures HasKey(s + [x], key(x), key) && FirstIndex(s + [x], key(x), key) == |s|
  {
    assert (s + [x])[..|s|] == s;
  }

  /** One step of the forward loop: extending the input by `x` records `x` iff its key is new. */
  lemma FirstOfEachKeyStep<T, K>(s: seq<T>, p: seq<T>, key: T -> K)
    requires |s| > 0 && FirstOfEachKey(s[..|s| - 1], p, key)
    ensures var x := s[|s| - 1];
      FirstOfEachKey(s, if HasKey(p, key(x), key) then p else p + [x], key)
  {
    var init, x := s[..|s| - 1], s[|s| - 1];
    assert s == init + [x];
    FirstOfEachKeySameKeys(init, p, key, key(x));
    AreFirstStep(init, x, p, key);
    InOrderStep(init, x, p, key);
    CoverStep(init, x, p, key);
  }

  lemma AreFirstStep<T, K>(init: seq<T>, x: T, p: seq<T>, key: T -> K)
    requires FirstsAreFirst(init, p, key)
    requires HasKey(p, key(x), key) <==> HasKey(init, key(x), key)
    ensures FirstsAreFirst(init + [x], if HasKey(p, key(x), key) then p else p + [x], key)
  {
    var r := if HasKey(p, key(x), key) then p else p + [x];
    forall i | 0 <= i < |r|
      ensures HasKey(init + [x], key(r[i]), key) && r[i] == (init + [x])[FirstIndex(init + [x], key(r[i]), key)]
    {
      if i < |p| {
        FirstIndexSnoc(init, x, key(p[i]), key);
      } else {
        FirstIndexNew(init, x, key);
      }
    }
  }

  lemma InOrderStep<T, K>(init: seq<T>, x: T, p: seq<T>, key: T -> K)
    requires FirstsAreFirst(init, p, key) && FirstsInOrder(init, p, key)
    requires HasKey(p, key(x), key) <==> HasKey(init, key(x), key)
    ensures FirstsInOrder(init + [x], if HasKey(p, key(x), key) then p else p + [x], key)
  {
    var r := if HasKey(p, key(x), key) then p else p + [x];
    forall i | 0 <= i < |p|
      ensures HasKey(init + [x], key(p[i]), key)
      ensures FirstIndex(init + [x], key(p[i]), key) == FirstIndex(init, key(p[i]), key)
    {
      FirstIndexSnoc(init, x, key(p[i]), key);
    }
    if !HasKey(p, key(x), key) {
      FirstIndexNew(init, x, key);
      assert forall i :: 0 <= i < |p| ==> r[i] == p[i];
    }
  }

  lemma CoverStep<T, K>(init: seq<T>, x: T, p: seq<T>, key: T -> K)
    requires FirstsCover(init, p, key)
    ensures FirstsCover(init + [x], if HasKey(p, key(x), key) then p else p + [x], key)
  {
    var s := init + [x];
    var r := if HasKey(p, key(x), key) then p else p + [x];
    forall i | 0 <= i < |s|
      ensures HasKey(r, key(s[i]), key)
    {
      HasKeyAppend(p, [x], key(s[i]), key);
      if i < |init| {
        assert s[i] == init[i];
      } else {
        assert [x][..0] == [];
      }
    }
  }

  /**
   * The first element of each key, in order of first appearance: what a forward loop
   * computes when it records an element only if its key has not been recorded yet.
   */
  function FirstByKey<T, K(==)>(s: seq<T>, key: T -> K): seq<T>
    decreases |s|
  {
    if s == [] then []
    else
      var p := FirstByKey(s[..|s| - 1], key);
      if HasKey(p, key(s[|s| - 1]), key) then p else p + [s[|s| - 1]]
  }

  /**
   * `FirstByKey` keeps exactly the first element of each key, in order of first appearance
   * (stated as a lemma, so that callers bring these quantified facts in only when needed).
   */
  lemma {:induction false} FirstByKeySpec<T, K>(s: seq<T>, key: T -> K)
    ensures FirstOfEachKey(s, FirstByKey(s, key), key)
    decreases |s|
  {
    if s != [] {
      FirstByKeySpec(s[..|s| - 1], key);
      FirstOfEachKeyStep(s, FirstByKey(s[..|s| - 1], key), key);
    }
  }

  /** Extending the input by `x` records `x` exactly when its key is new. */
  lemma FirstByKeySnoc<T, K>(s: seq<T>, x: T, key: T -> K)
    ensures FirstByKey(s + [x], key)
         == if HasKey(s, key(x), key) then FirstByKey(s, key) else FirstByKey(s, key) + [x]
  {
    assert (s + [x])[..|s|] == s;
    FirstByKeySpec(s, key);
    FirstOfEachKeySameKeys(s, FirstByKey(s, key), key, key(x));
  }

  /** Every key of `s` is the key of some recorded element. */
  lemma FirstByKeyCovers<T, K>(s: seq<T>, key: T -> K, n: int)
    requires 0 <= n < |s|
    ensures HasKey(FirstByKey(s, key), key(s[n]), key)
  {
    FirstByKeySpec(s, key);
  }

  /** The recorded elements have pairwise different keys: a key is recorded only once. */
  lemma FirstByKeyUnique<T, K>(s: seq<T>, key: T -> K, k: K, i: int)
    requires HasKey(FirstByKey(s, key), k, key)
    requires 0 <= i < |FirstByKey(s, key)| && key(FirstByKey(s, key)[i]) == k
    ensures i == FirstIndex(FirstByKey(s, key), k, key)
  {
    FirstByKeySpec(s, key);
    FirstOfEachKeyDistinct(s, FirstByKey(s, key), key);
  }

  lemma HasKeySnoc<T, K>(s: seq<T>, x: T, key: T -> K)
    ensures forall k :: HasKey(s + [x], k, key) <==> HasKey(s, k, key) || key(x) == k
  {
    assert (s + [x])[..|s|] == s;
  }

  /** The predicate "has key `k`", for filtering one group out of a sequence. */
  function KeyIs<T, K(==)>(k: K, key: T -> K): T -> bool
  {
    x => key(x) == k
  }

  lemma {:induction false} FilterNoKey<T, K>(s: seq<T>, k: K, key: T -> K)
    requires !HasKey(s, k, key)
    ensures Filter(s, KeyIs(k, key)) == []
    decreases |s|
  {
    if s != [] {
      FilterNoKey(s[..|s| - 1], k, key);
    }
  }

  /** How many elements of `reps` have key `k`. */
  function CountKey<T, K(==)>(reps: seq<T>, k: K, key: T -> K): nat
    decreases |reps|
  {
    if reps == [] then 0
    else CountKey(reps[..|reps| - 1], k, key) + (if key(reps[|reps| - 1]) == k then 1 else 0)
  }

  lemma {:induction false} CountKeyAbsent<T, K>(reps: seq<T>, k: K, key: T -> K)
    requires !HasKey(reps, k, key)
    ensures CountKey(reps, k, key) == 0
    decreases |reps|
  {
    if reps != [] {
      CountKeyAbsent(reps[..|reps| - 1], k, key);
    }
  }

  lemma {:induction false} CountKeyDistinct<T, K>(reps: seq<T>, k: K, key: T -> K)
    requires forall i, j :: 0 <= i < j < |reps| ==> key(reps[i]) != key(reps[j])
    requires HasKey(reps, k, key)
    ensures CountKey(reps, k, key) == 1
    decreases |reps|
  {
    var init := reps[..|reps| - 1];
    if key(reps[|reps| - 1]) == k {
      if HasKey(init, k, key) {
        var j := FirstIndex(init, k, key);
        assert false;
      }
      CountKeyAbsent(init, k, key);
    } else {
      CountKeyDistinct(init, k, key);
    }
  }

  /** The total size of the groups of `s` keyed by the keys of `reps`. */
  function SumGroupSizes<T(==), K(==)>(s: seq<T>, reps: seq<T>, key: T -> K): nat
    decreases |reps|
  {
    if reps == [] then 0
    else SumGroupSizes(s, reps[..|reps| - 1], key) + |Filter(s, KeyIs(key(reps[|reps| - 1]), key))|
  }

  lemma {:induction false} SumGroupSizesLast<T, K>(s: seq<T>, reps: seq<T>, key: T -> K)
    requires |s| > 0
    ensures SumGroupSizes(s, reps, key)
         == SumGroupSizes(s[..|s| - 1], reps, key) + CountKey(reps, key(s[|s| - 1]), key)
    decreases |reps|
  {
    if reps != [] {
      SumGroupSizesLast(s, reps[..|reps| - 1], key);
    }
  }

  lemma GroupSizesOldKey<T, K>(s: seq<T>, p: seq<T>, key: T -> K)
    requires |s| > 0
    requires forall i, j :: 0 <= i < j < |p| ==> key(p[i]) != key(p[j])
    requires HasKey(p, key(s[|s| - 1]), key)
    ensures SumGroupSizes(s, p, key) == SumGroupSizes(s[..|s| - 1], p, key) + 1
  {
    SumGroupSizesLast(s, p, key);
    CountKeyDistinct(p, key(s[|s| - 1]), key);
  }

  lemma GroupSizesNewKey<T, K>(s: seq<T>, p: seq<T>, key: T -> K)
    requires |s| > 0
    requires !HasKey(p, key(s[|s| - 1]), key) && !HasKey(s[..|s| - 1], key(s[|s| - 1]), key)
    ensures SumGroupSizes(s, p + [s[|s| - 1]], key) == SumGroupSizes(s[..|s| - 1], p, key) + 1
  {
    var x := s[|s| - 1];
    SumGroupSizesLast(s, p, key);
    CountKeyAbsent(p, key(x), key);
    assert (p + [x])[..|p|] == p;
    FilterNoKey(s[..|s| - 1], key(x), key);
  }

  /**
   * Splitting a sequence into one group per key, keys taken in order of first appearance,
   * loses and duplicates nothing: the group sizes add up to the length of the input.
   */
  lemma {:induction false} GroupSizesAddUp<T, K>(s: seq<T>, key: T -> K)
    ensures SumGroupSizes(s, FirstByKey(s, key), key) == |s|
    decreases |s|
  {
    if s != [] {
      var init, x := s[..|s| - 1], s[|s| - 1];
      var p := FirstByKey(init, key);
      FirstByKeySpec(init, key);
      GroupSizesAddUp(init, key);
      FirstOfEachKeySameKeys(init, p, key, key(x));
      if HasKey(p, key(x), key) {
        FirstOfEachKeyDistinct(init, p, key);
        GroupSizesOldKey(s, p, key);
      } else {
        GroupSizesNewKey(s, p, key);
      }
    }
  }
}
