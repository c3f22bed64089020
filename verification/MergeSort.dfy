/**
  The value-level meaning of the bottom-up merge sort that utlist.h expands three
  times and uthash.h once: what one pass over a sequence does, what the whole sort
  does, and why the result is the stable sorted permutation of the input.

  Elements may be heap references, so a comparison is only asked to be a total
  preorder on a given finite set of elements.
 */
module MergeSort {
  import opened Arith

  // ----- one merge, one pass, the whole sort

  /** Two adjacent runs are merged; on a tie the element of the first run goes first. */
  function Merge<T>(cmp: (T, T) -> int, p: seq<T>, q: seq<T>): (m: seq<T>)
    ensures |m| == |p| + |q|
    decreases |p| + |q|
  {
    if p == [] then q
    else if q == [] then p
    else if cmp(p[0], q[0]) <= 0 then [p[0]] + Merge(cmp, p[1..], q)
    else [q[0]] + Merge(cmp, p, q[1..])
  }

  /** The first run of length (at most) k, the run after it, and everything behind the two. */
  function FirstRun<T>(s: seq<T>, k: nat): seq<T> { s[..Min(k, |s|)] }

  function Behind<T>(s: seq<T>, k: nat): seq<T> { s[Min(k, |s|)..] }

  function SecondRun<T>(s: seq<T>, k: nat): seq<T> { FirstRun(Behind(s, k), k) }

  function Rest<T>(s: seq<T>, k: nat): seq<T> { Behind(Behind(s, k), k) }

  /** One pass with run length `insize`: merge run 1 with run 2, run 3 with run 4, ... */
  function Pass<T>(cmp: (T, T) -> int, s: seq<T>, insize: nat): (r: seq<T>)
    requires insize > 0
    ensures |r| == |s|
    decreases |s|
  {
    if s == [] then []
    else Merge(cmp, FirstRun(s, insize), SecondRun(s, insize)) + Pass(cmp, Rest(s, insize), insize)
  }

  /** How many merges one pass over `n` elements makes. */
  function Merges(n: nat, insize: nat): nat
    requires insize > 0
  {
    if n <= 2 * insize then (if n == 0 then 0 else 1) else 1 + Merges(n - 2 * insize, insize)
  }

  /** Passes with doubling run length, until a pass makes at most one merge. */
  function SortFrom<T>(cmp: (T, T) -> int, s: seq<T>, insize: nat): (r: seq<T>)
    requires insize > 0
    ensures |r| == |s|
    decreases |s| - insize
  {
    var r := Pass(cmp, s, insize);
    MergesAtMostOne(|s|, insize);
    if Merges(|s|, insize) <= 1 then r else SortFrom(cmp, r, 2 * insize)
  }

  function Sort<T>(cmp: (T, T) -> int, s: seq<T>): seq<T> { SortFrom(cmp, s, 1) }

  function PassesFrom(n: nat, insize: nat): nat
    requires insize > 0
    decreases n - insize
  {
    MergesAtMostOne(n, insize);
    if Merges(n, insize) <= 1 then 1 else 1 + PassesFrom(n, 2 * insize)
  }

  lemma SortFromUnfolds<T>(cmp: (T, T) -> int, s: seq<T>, k: nat)
    requires k > 0
    ensures SortFrom(cmp, s, k)
         == if Merges(|s|, k) <= 1 then Pass(cmp, s, k) else SortFrom(cmp, Pass(cmp, s, k), 2 * k)
  {
  }

  lemma PassesFromUnfolds(n: nat, k: nat)
    requires k > 0
    ensures PassesFrom(n, k) == if Merges(n, k) <= 1 then 1 else 1 + PassesFrom(n, 2 * k)
  {
  }

  lemma MergesAtMostOne(n: nat, insize: nat)
    requires insize > 0
    ensures Merges(n, insize) <= 1 <==> n <= 2 * insize
  {
  }

  // ----- sortedness, stability

  ghost predicate Preorder<T>(cmp: (T, T) -> int, u: set<T>) {
    && (forall x, y :: x in u && y in u ==> cmp(x, y) <= 0 || cmp(y, x) <= 0)
    && (forall x, y, z :: x in u && y in u && z in u && cmp(x, y) <= 0 && cmp(y, z) <= 0 ==> cmp(x, z) <= 0)
  }

  ghost predicate Within<T>(s: seq<T>, u: set<T>) {
    forall x :: x in s ==> x in u
  }

  ghost predicate Sorted<T>(cmp: (T, T) -> int, s: seq<T>) {
    forall i, j :: 0 <= i < j < |s| ==> cmp(s[i], s[j]) <= 0
  }

  ghost predicate Same<T>(cmp: (T, T) -> int, x: T, y: T) {
    cmp(x, y) <= 0 && cmp(y, x) <= 0
  }

  /** The elements of `s` that compare equal to `x`, in their order. */
  ghost function Class<T>(cmp: (T, T) -> int, x: T, s: seq<T>): seq<T> {
    if s == [] then []
    else (if Same(cmp, x, s[0]) then [s[0]] else []) + Class(cmp, x, s[1..])
  }

  /** `t` keeps, for every element, the order `s` has among the elements equal to it. */
  ghost predicate Stable<T>(cmp: (T, T) -> int, s: seq<T>, t: seq<T>) {
    forall x :: x in s ==> Class(cmp, x, t) == Class(cmp, x, s)
  }

  ghost predicate BlocksSorted<T>(cmp: (T, T) -> int, s: seq<T>, k: nat)
    requires k > 0
    decreases |s|
  {
    s != [] ==> Sorted(cmp, FirstRun(s, k)) && BlocksSorted(cmp, Behind(s, k), k)
  }

  // ----- merging

  lemma HeadAndTail<T>(s: seq<T>)
    requires s != []
    ensures multiset(s) == multiset{s[0]} + multiset(s[1..])
  {
    assert s == [s[0]] + s[1..];
  }

  lemma {:induction false} MergePermutes<T>(cmp: (T, T) -> int, p: seq<T>, q: seq<T>)
    ensures multiset(Merge(cmp, p, q)) == multiset(p) + multiset(q)
    decreases |p| + |q|
  {
    if p == [] || q == [] {
    } else if cmp(p[0], q[0]) <= 0 {
      MergePermutes(cmp, p[1..], q);
      HeadAndTail(p);
    } else {
      MergePermutes(cmp, p, q[1..]);
      HeadAndTail(q);
    }
  }

  lemma MemberOfMerge<T>(cmp: (T, T) -> int, p: seq<T>, q: seq<T>, x: T)
    requires x in Merge(cmp, p, q)
    ensures x in p || x in q
  {
    MergePermutes(cmp, p, q);
    assert x in multiset(Merge(cmp, p, q));
  }

  lemma {:induction false} SortedCons<T>(cmp: (T, T) -> int, x: T, s: seq<T>)
    requires Sorted(cmp, s) && forall y :: y in s ==> cmp(x, y) <= 0
    ensures Sorted(cmp, [x] + s)
  {
  }

  lemma HeadIsLeast<T>(cmp: (T, T) -> int, s: seq<T>, u: set<T>)
    requires Preorder(cmp, u) && Within(s, u) && Sorted(cmp, s) && s != []
    ensures forall y :: y in s ==> cmp(s[0], y) <= 0
  {
    assert s[0] in s && cmp(s[0], s[0]) <= 0;
  }

  /** The head `x` of one run comes before the tail of that run and the whole other run. */
  lemma HeadOfMerge<T>(cmp: (T, T) -> int, x: T, p: seq<T>, q: seq<T>)
    requires forall y :: y in p ==> cmp(x, y) <= 0
    requires forall y :: y in q ==> cmp(x, y) <= 0
    requires Sorted(cmp, Merge(cmp, p, q))
    ensures Sorted(cmp, [x] + Merge(cmp, p, q))
  {
    var m := Merge(cmp, p, q);
    forall y | y in m ensures cmp(x, y) <= 0 { MemberOfMerge(cmp, p, q, y); }
    SortedCons(cmp, x, m);
  }

  lemma {:induction false} MergeSorted<T>(cmp: (T, T) -> int, p: seq<T>, q: seq<T>, u: set<T>)
    requires Preorder(cmp, u) && Within(p, u) && Within(q, u)
    requires Sorted(cmp, p) && Sorted(cmp, q)
    ensures Sorted(cmp, Merge(cmp, p, q))
    decreases |p| + |q|
  {
    if p == [] || q == [] {
    } else if cmp(p[0], q[0]) <= 0 {
      MergeSorted(cmp, p[1..], q, u);
      HeadIsLeast(cmp, q, u);
      forall y | y in q ensures cmp(p[0], y) <= 0 {
        assert p[0] in p && q[0] in q;
      }
      HeadOfMerge(cmp, p[0], p[1..], q);
    } else {
      MergeSorted(cmp, p, q[1..], u);
      HeadIsLeast(cmp, p, u);
      forall y | y in p ensures cmp(q[0], y) <= 0 {
        assert p[0] in p && q[0] in q;
      }
      HeadOfMerge(cmp, q[0], p, q[1..]);
    }
  }

  lemma {:induction false} ClassConcat<T>(cmp: (T, T) -> int, x: T, s: seq<T>, t: seq<T>)
    ensures Class(cmp, x, s + t) == Class(cmp, x, s) + Class(cmp, x, t)
  {
    if s == [] {
      assert s + t == t;
    } else {
      var h := if Same(cmp, x, s[0]) then [s[0]] else [];
      calc {
        Class(cmp, x, s + t);
        { assert (s + t)[0] == s[0] && (s + t)[1..] == s[1..] + t; }
        h + Class(cmp, x, s[1..] + t);
        { ClassConcat(cmp, x, s[1..], t); }
        h + (Class(cmp, x, s[1..]) + Class(cmp, x, t));
        (h + Class(cmp, x, s[1..])) + Class(cmp, x, t);
        Class(cmp, x, s) + Class(cmp, x, t);
      }
    }
  }

  lemma {:induction false} NoClass<T>(cmp: (T, T) -> int, x: T, s: seq<T>)
    requires forall y :: y in s ==> !Same(cmp, x, y)
    ensures Class(cmp, x, s) == []
  {
    if s != [] { NoClass(cmp, x, s[1..]); }
  }

  lemma Assoc<T>(a: seq<T>, b: seq<T>, c: seq<T>)
    ensures a + (b + c) == (a + b) + c
  {
  }

  lemma ClassHead<T>(cmp: (T, T) -> int, x: T, h: T, s: seq<T>)
    ensures Class(cmp, x, [h] + s) == (if Same(cmp, x, h) then [h] else []) + Class(cmp, x, s)
  {
    assert ([h] + s)[1..] == s;
  }

  /** If the head of the second run goes first, nothing in the first run equals it. */
  lemma NoneEqual<T>(cmp: (T, T) -> int, x: T, h: T, p: seq<T>, u: set<T>)
    requires Preorder(cmp, u) && Within(p, u) && x in u && h in u && Sorted(cmp, p)
    requires p != [] && cmp(p[0], h) > 0 && Same(cmp, x, h)
    ensures Class(cmp, x, p) == []
  {
    HeadIsLeast(cmp, p, u);
    assert p[0] in p;
    assert forall y :: y in p ==> !Same(cmp, x, y);
    NoClass(cmp, x, p);
  }

  lemma {:induction false} MergeStable<T>(cmp: (T, T) -> int, x: T, p: seq<T>, q: seq<T>, u: set<T>)
    requires Preorder(cmp, u) && Within(p, u) && Within(q, u) && x in u
    requires Sorted(cmp, p)
    ensures Class(cmp, x, Merge(cmp, p, q)) == Class(cmp, x, p) + Class(cmp, x, q)
    decreases |p| + |q|
  {
    if p == [] || q == [] {
    } else if cmp(p[0], q[0]) <= 0 {
      MergeStable(cmp, x, p[1..], q, u);
      ClassHead(cmp, x, p[0], Merge(cmp, p[1..], q));
      Assoc(if Same(cmp, x, p[0]) then [p[0]] else [], Class(cmp, x, p[1..]), Class(cmp, x, q));
    } else {
      MergeStable(cmp, x, p, q[1..], u);
      ClassHead(cmp, x, q[0], Merge(cmp, p, q[1..]));
      assert q[0] in q;
      if Same(cmp, x, q[0]) { NoneEqual(cmp, x, q[0], p, u); }
      Assoc(Class(cmp, x, p), if Same(cmp, x, q[0]) then [q[0]] else [], Class(cmp, x, q[1..]));
      Assoc(if Same(cmp, x, q[0]) then [q[0]] else [], Class(cmp, x, p), Class(cmp, x, q[1..]));
      assert Class(cmp, x, p) + (if Same(cmp, x, q[0]) then [q[0]] else [])
          == (if Same(cmp, x, q[0]) then [q[0]] else []) + Class(cmp, x, p);
    }
  }

  // ----- passes

  /** The two runs a pass merges first, and what it leaves for later. */
  lemma PassSplits<T>(s: seq<T>, k: nat)
    ensures s == FirstRun(s, k) + SecondRun(s, k) + Rest(s, k)
  {
  }

  lemma PassSplitsWithin<T>(s: seq<T>, k: nat, u: set<T>)
    requires Within(s, u)
    ensures Within(FirstRun(s, k), u) && Within(SecondRun(s, k), u) && Within(Rest(s, k), u)
  {
    assert forall x :: x in Behind(s, k) ==> x in s;
  }

  lemma {:induction false} PassPermutes<T>(cmp: (T, T) -> int, s: seq<T>, k: nat)
    requires k > 0
    ensures multiset(Pass(cmp, s, k)) == multiset(s)
    decreases |s|
  {
    if s != [] {
      MergePermutes(cmp, FirstRun(s, k), SecondRun(s, k));
      PassPermutes(cmp, Rest(s, k), k);
      PassSplits(s, k);
    }
  }

  lemma WithinPermuted<T>(s: seq<T>, t: seq<T>, u: set<T>)
    requires multiset(s) == multiset(t) && Within(s, u)
    ensures Within(t, u)
  {
    forall x | x in t ensures x in u {
      assert x in multiset(t);
      assert x in multiset(s);
    }
  }

  lemma BlocksCons<T>(cmp: (T, T) -> int, a: seq<T>, b: seq<T>, k: nat)
    requires k > 0 && Sorted(cmp, a) && |a| <= k && (|a| == k || b == [])
    requires BlocksSorted(cmp, b, k)
    ensures BlocksSorted(cmp, a + b, k)
  {
    assert FirstRun(a + b, k) == a && Behind(a + b, k) == b;
  }

  /** A pass whose runs of length k are sorted leaves every aligned block of 2k sorted. */
  lemma {:induction false} PassSortsBlocks<T>(cmp: (T, T) -> int, s: seq<T>, k: nat, u: set<T>)
    requires k > 0 && Preorder(cmp, u) && Within(s, u)
    requires BlocksSorted(cmp, s, k)
    ensures BlocksSorted(cmp, Pass(cmp, s, k), 2 * k)
    decreases |s|
  {
    if s != [] {
      var p, q, r := FirstRun(s, k), SecondRun(s, k), Rest(s, k);
      PassSplitsWithin(s, k, u);
      MergeSorted(cmp, p, q, u);
      PassSortsBlocks(cmp, r, k, u);
      BlocksCons(cmp, Merge(cmp, p, q), Pass(cmp, r, k), 2 * k);
    }
  }

  /** Read by index: block number b holds the positions from b*k up to (b+1)*k. */
  lemma {:induction false} BlocksByIndex<T>(cmp: (T, T) -> int, s: seq<T>, k: nat, b: nat, i: nat, j: nat)
    requires k > 0 && BlocksSorted(cmp, s, k)
    requires b * k <= i < j < |s| && j < b * k + k
    ensures cmp(s[i], s[j]) <= 0
    decreases b
  {
    if b == 0 {
      assert s[i] == FirstRun(s, k)[i] && s[j] == FirstRun(s, k)[j];
    } else {
      assert b * k == (b - 1) * k + k;
      assert (b - 1) * k >= 0;
      BlocksByIndex(cmp, Behind(s, k), k, b - 1, i - k, j - k);
    }
  }

  lemma {:induction false} PassStable<T>(cmp: (T, T) -> int, x: T, s: seq<T>, k: nat, u: set<T>)
    requires k > 0 && Preorder(cmp, u) && Within(s, u) && x in u
    requires BlocksSorted(cmp, s, k)
    ensures Class(cmp, x, Pass(cmp, s, k)) == Class(cmp, x, s)
    decreases |s|
  {
    if s != [] {
      var p, q, r := FirstRun(s, k), SecondRun(s, k), Rest(s, k);
      PassSplits(s, k);
      PassSplitsWithin(s, k, u);
      MergeStable(cmp, x, p, q, u);
      PassStable(cmp, x, r, k, u);
      ClassConcat(cmp, x, Merge(cmp, p, q), Pass(cmp, r, k));
      ClassConcat(cmp, x, p + q, r);
      ClassConcat(cmp, x, p, q);
    }
  }

  // ----- the whole sort

  /** Any comparison at all: the result is a permutation of the input. */
  lemma {:induction false} SortPermutes<T>(cmp: (T, T) -> int, s: seq<T>, k: nat)
    requires k > 0
    ensures multiset(SortFrom(cmp, s, k)) == multiset(s)
    decreases |s| - k
  {
    PassPermutes(cmp, s, k);
    MergesAtMostOne(|s|, k);
    if Merges(|s|, k) > 1 { SortPermutes(cmp, Pass(cmp, s, k), 2 * k); }
  }

  lemma {:induction false} SortFromCorrect<T>(cmp: (T, T) -> int, s: seq<T>, k: nat, u: set<T>)
    requires k > 0 && Preorder(cmp, u) && Within(s, u)
    requires BlocksSorted(cmp, s, k)
    ensures Sorted(cmp, SortFrom(cmp, s, k))
    ensures forall x :: x in u ==> Class(cmp, x, SortFrom(cmp, s, k)) == Class(cmp, x, s)
    decreases |s| - k
  {
    var r := Pass(cmp, s, k);
    PassSortsBlocks(cmp, s, k, u);
    forall x | x in u ensures Class(cmp, x, r) == Class(cmp, x, s) {
      PassStable(cmp, x, s, k, u);
    }
    MergesAtMostOne(|s|, k);
    if Merges(|s|, k) > 1 {
      PassPermutes(cmp, s, k);
      WithinPermuted(s, r, u);
      SortFromCorrect(cmp, r, 2 * k, u);
    }
  }

  lemma {:induction false} SingletonsSorted<T>(cmp: (T, T) -> int, s: seq<T>)
    ensures BlocksSorted(cmp, s, 1)
    decreases |s|
  {
    if |s| > 1 { SingletonsSorted(cmp, s[1..]); }
  }

  /** The sort is correct: sorted, a permutation, and stable, for any total preorder. */
  lemma SortCorrect<T>(cmp: (T, T) -> int, s: seq<T>, u: set<T>)
    requires Preorder(cmp, u) && Within(s, u)
    ensures Sorted(cmp, Sort(cmp, s))
    ensures multiset(Sort(cmp, s)) == multiset(s)
    ensures Stable(cmp, s, Sort(cmp, s))
  {
    SingletonsSorted(cmp, s);
    SortFromCorrect(cmp, s, 1, u);
    SortPermutes(cmp, s, 1);
  }

  lemma {:induction false} ClassMember<T>(cmp: (T, T) -> int, x: T, s: seq<T>)
    requires x in s && Same(cmp, x, x)
    ensures Class(cmp, x, s) != [] && Class(cmp, x, s)[0] in s && Same(cmp, x, Class(cmp, x, s)[0])
  {
    if !Same(cmp, x, s[0]) { ClassMember(cmp, x, s[1..]); }
  }

  lemma {:induction false} ClassOnlySame<T>(cmp: (T, T) -> int, x: T, s: seq<T>)
    ensures forall y :: y in Class(cmp, x, s) ==> y in s && Same(cmp, x, y)
  {
    if s != [] { ClassOnlySame(cmp, x, s[1..]); }
  }

  lemma SameHead<T>(cmp: (T, T) -> int, s: seq<T>, t: seq<T>, u: set<T>)
    requires Preorder(cmp, u) && Within(s, u) && Within(t, u) && s != [] && t != []
    requires Sorted(cmp, s) && Sorted(cmp, t)
    requires forall x :: x in u ==> Class(cmp, x, s) == Class(cmp, x, t)
    ensures s[0] == t[0]
  {
    HeadIsLeast(cmp, s, u);
    HeadIsLeast(cmp, t, u);
    ClassMember(cmp, s[0], s);
    ClassOnlySame(cmp, s[0], t);
    ClassMember(cmp, t[0], t);
    ClassOnlySame(cmp, t[0], s);
    assert Class(cmp, s[0], s)[0] == s[0];
    assert Class(cmp, s[0], t)[0] == t[0];
  }

  /** There is only one stable sorted rearrangement, so every correct stable sort agrees with this one. */
  lemma {:induction false} StableSortUnique<T>(cmp: (T, T) -> int, s: seq<T>, t: seq<T>, u: set<T>)
    requires Preorder(cmp, u) && Within(s, u) && Within(t, u) && |s| == |t|
    requires Sorted(cmp, s) && Sorted(cmp, t)
    requires forall x :: x in u ==> Class(cmp, x, s) == Class(cmp, x, t)
    ensures s == t
    decreases |s|
  {
    if s != [] {
      SameHead(cmp, s, t, u);
      assert s == [s[0]] + s[1..] && t == [t[0]] + t[1..];
      forall x | x in u ensures Class(cmp, x, s[1..]) == Class(cmp, x, t[1..]) {
        var h := if Same(cmp, x, s[0]) then [s[0]] else [];
        assert Class(cmp, x, s) == h + Class(cmp, x, s[1..]);
        assert Class(cmp, x, t) == h + Class(cmp, x, t[1..]);
        assert Class(cmp, x, s[1..]) == Class(cmp, x, s)[|h|..];
        assert Class(cmp, x, t[1..]) == Class(cmp, x, t)[|h|..];
      }
      StableSortUnique(cmp, s[1..], t[1..], u);
    }
  }

  // ----- how much work the sort does

  /** The least e with n <= 2^e. */
  function CeilLog2(n: nat): (e: nat)
    ensures n <= Pow2(e) && (e > 0 ==> Pow2(e - 1) < n)
  {
    if n <= 1 then 0 else
      var e := CeilLog2((n + 1) / 2);
      assert e > 0 ==> 2 * Pow2(e - 1) < n;
      1 + e
  }

  lemma {:induction false} PassCountFrom(n: nat, e: nat)
    requires e == 0 || Pow2(e) < n
    ensures PassesFrom(n, Pow2(e)) == if CeilLog2(n) <= e + 1 then 1 else CeilLog2(n) - e
    decreases n - Pow2(e)
  {
    MergesAtMostOne(n, Pow2(e));
    if n <= Pow2(e + 1) {
      if CeilLog2(n) > e + 1 { Pow2Monotone(e + 1, CeilLog2(n) - 1); }
    } else {
      if CeilLog2(n) <= e + 1 { Pow2Monotone(CeilLog2(n), e + 1); }
      PassCountFrom(n, e + 1);
    }
  }

  /** A list of n >= 1 elements takes max(1, ceil(log2 n)) passes. */
  lemma PassCount(n: nat)
    requires n > 0
    ensures PassesFrom(n, 1) == if CeilLog2(n) == 0 then 1 else CeilLog2(n)
  {
    assert Pow2(0) == 1;
    PassCountFrom(n, 0);
  }

  /** How often a merge calls `cmp`. */
  function Compares<T>(cmp: (T, T) -> int, p: seq<T>, q: seq<T>): nat
    decreases |p| + |q|
  {
    if p == [] || q == [] then 0
    else if cmp(p[0], q[0]) <= 0 then 1 + Compares(cmp, p[1..], q)
    else 1 + Compares(cmp, p, q[1..])
  }

  /** How often one pass does. */
  function PassCompares<T>(cmp: (T, T) -> int, s: seq<T>, k: nat): nat
    requires k > 0
    decreases |s|
  {
    if s == [] then 0
    else Compares(cmp, FirstRun(s, k), SecondRun(s, k)) + PassCompares(cmp, Rest(s, k), k)
  }

  /** How often the sort does from run length k on. */
  function SortCompares<T>(cmp: (T, T) -> int, s: seq<T>, k: nat): nat
    requires k > 0
    decreases |s| - k
  {
    MergesAtMostOne(|s|, k);
    PassCompares(cmp, s, k) + if Merges(|s|, k) <= 1 then 0 else SortCompares(cmp, Pass(cmp, s, k), 2 * k)
  }

  lemma SortComparesUnfolds<T>(cmp: (T, T) -> int, s: seq<T>, k: nat)
    requires k > 0
    ensures SortCompares(cmp, s, k)
         == PassCompares(cmp, s, k) + if Merges(|s|, k) <= 1 then 0 else SortCompares(cmp, Pass(cmp, s, k), 2 * k)
  {
  }

  /** A merge compares less often than it has elements. */
  lemma {:induction false} ComparesBound<T>(cmp: (T, T) -> int, p: seq<T>, q: seq<T>)
    requires p != [] || q != []
    ensures Compares(cmp, p, q) < |p| + |q|
    decreases |p| + |q|
  {
    if p != [] && q != [] {
      if cmp(p[0], q[0]) <= 0 { ComparesBound(cmp, p[1..], q); } else { ComparesBound(cmp, p, q[1..]); }
    }
  }

  /** A pass over n elements compares at most n times, less one for each merge. */
  lemma {:induction false} PassComparesBound<T>(cmp: (T, T) -> int, s: seq<T>, k: nat)
    requires k > 0
    ensures PassCompares(cmp, s, k) + Merges(|s|, k) <= |s|
    decreases |s|
  {
    if s != [] {
      ComparesBound(cmp, FirstRun(s, k), SecondRun(s, k));
      PassComparesBound(cmp, Rest(s, k), k);
    }
  }

  /** The sort compares at most n times per pass. */
  lemma {:induction false} SortComparesBound<T>(cmp: (T, T) -> int, s: seq<T>, k: nat)
    requires k > 0
    ensures SortCompares(cmp, s, k) <= PassesFrom(|s|, k) * |s|
    decreases |s| - k
  {
    PassComparesBound(cmp, s, k);
    SortComparesUnfolds(cmp, s, k);
    PassesFromUnfolds(|s|, k);
    MergesAtMostOne(|s|, k);
    if Merges(|s|, k) > 1 {
      SortComparesBound(cmp, Pass(cmp, s, k), 2 * k);
      assert (1 + PassesFrom(|s|, 2 * k)) * |s| == |s| + PassesFrom(|s|, 2 * k) * |s|;
    }
  }

  // ----- no fewer comparisons than that

  /** A merge compares until one run is used up, so at least once for each element of the shorter. */
  lemma {:induction false} ComparesLeast<T>(cmp: (T, T) -> int, p: seq<T>, q: seq<T>)
    ensures Compares(cmp, p, q) >= Min(|p|, |q|)
    decreases |p| + |q|
  {
    if p != [] && q != [] {
      if cmp(p[0], q[0]) <= 0 { ComparesLeast(cmp, p[1..], q); } else { ComparesLeast(cmp, p, q[1..]); }
    }
  }

  /** Where the first run goes in front as a whole, it takes as many as that has elements. */
  lemma {:induction false} ComparesInFront<T>(cmp: (T, T) -> int, p: seq<T>, q: seq<T>)
    requires q != [] && forall i :: 0 <= i < |p| ==> cmp(p[i], q[0]) <= 0
    ensures Compares(cmp, p, q) == |p|
  {
    if p != [] { ComparesInFront(cmp, p[1..], q); }
  }

  /** How many runs of length k there are among n elements. */
  function Runs(n: nat, k: nat): nat
    requires k > 0
  {
    if n == 0 then 0 else if n <= k then 1 else 1 + Runs(n - k, k)
  }

  lemma {:induction false} RunsOfOne(n: nat)
    ensures Runs(n, 1) == n
  {
    if n > 0 { RunsOfOne(n - 1); }
  }

  lemma {:induction false} MergesAreRuns(n: nat, k: nat)
    requires k > 0
    ensures Merges(n, k) == Runs(n, 2 * k)
  {
    if n > 2 * k { MergesAreRuns(n - 2 * k, k); }
  }

  /** Each merge of a pass that has two runs compares at least once. */
  lemma {:induction false} PassComparesLeast<T>(cmp: (T, T) -> int, s: seq<T>, k: nat)
    requires k > 0
    ensures PassCompares(cmp, s, k) + Merges(|s|, k) >= Runs(|s|, k)
    decreases |s|
  {
    if s != [] {
      ComparesLeast(cmp, FirstRun(s, k), SecondRun(s, k));
      PassComparesLeast(cmp, Rest(s, k), k);
    }
  }

  /** Sorting n elements takes at least n - 1 comparisons. */
  lemma {:induction false} SortComparesLeast<T>(cmp: (T, T) -> int, s: seq<T>, k: nat)
    requires k > 0
    ensures SortCompares(cmp, s, k) + 1 >= Runs(|s|, k)
    ensures k == 1 ==> SortCompares(cmp, s, k) + 1 >= |s|
    decreases |s| - k
  {
    RunsOfOne(|s|);
    PassComparesLeast(cmp, s, k);
    SortComparesUnfolds(cmp, s, k);
    MergesAtMostOne(|s|, k);
    if Merges(|s|, k) > 1 {
      MergesAreRuns(|s|, k);
      SortComparesLeast(cmp, Pass(cmp, s, k), 2 * k);
    }
  }
}
