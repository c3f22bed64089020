/**
  The merge sorts of utlist.h, in place on linked nodes. LL_SORT2, DL_SORT2, CDL_SORT2
  and HASH_SRT expand the same text with two variations, which are parameters here:
  `wrap` is the pointer that ends the input list (null, or the old head of a ring),
  `doubly` says whether `prev` is maintained.
 */
module ListSort {
  import opened Arith
  import opened Elements
  import opened Lists
  import opened MergeSort

  /** What is already merged, the rest of the first run, and everything from the second run on. */
  datatype Piles = Piles(out: seq<Element>, p: seq<Element>, rest: seq<Element>)
  {
    ghost function All(): seq<Element> {
      out + (p + rest)
    }

    /** The head of the first run moves behind the merged part. */
    ghost function TakeFirst(): Piles
      requires p != []
    {
      Piles(out + [p[0]], p[1..], rest)
    }

    /** The head of the second run moves behind the merged part. */
    ghost function TakeSecond(): Piles
      requires rest != []
    {
      Piles(out + [rest[0]], p, rest[1..])
    }

    /** All nodes are different, and from u. */
    ghost predicate Apart(u: set<Element>) {
      NoDup(All()) && forall x {:trigger x in All()} :: x in All() ==> x in u
    }
  }

  ghost predicate Shape(v: Piles, list: Element?, tail: Element?, q: Element?, wrap: Element?, doubly: bool)
    reads Set(v.out), Set(v.p), Set(v.rest)
  {
    && list == First(v.out) && tail == Last(v.out) && Linked(v.out) && (doubly ==> Backed(v.out))
    && Linked(v.p)
    && q == First(v.rest) && Chain(v.rest, wrap)
    && wrap !in v.rest && wrap !in v.p[Min(1, |v.p|)..]
  }

  /** The node after x, or null at the end of the input list. */
  function After(x: Element, wrap: Element?): Element?
    reads x
  {
    if x.next == wrap then null else x.next
  }

  /** Walks over the first run: `q` ends up behind it. */
  method WalkRun(p: Element, insize: nat, wrap: Element?, ghost s: seq<Element>) returns (q: Element?, psize: nat)
    requires insize > 0 && s != [] && p == s[0] && Chain(s, wrap) && wrap !in s[1..]
    ensures psize == Min(insize, |s|)
    ensures q == First(s[psize..])
  {
    q, psize := p, 0;
    var i := 0;
    while i < insize
      invariant 0 <= i == psize <= insize && i < |s|
      invariant q == s[i]
      decreases insize - i
    {
      psize := psize + 1;
      q := After(q, wrap);
      if psize < |s| { assert s[psize] == s[1..][psize - 1]; }
      if q == null { break; }
      i := i + 1;
    }
  }

  lemma {:induction false} SwapNoDup<T>(a: seq<T>, b: seq<T>, x: T, c: seq<T>)
    requires NoDup(a + (b + ([x] + c)))
    ensures NoDup((a + [x]) + (b + c))
  {
    var s, t := a + (b + ([x] + c)), (a + [x]) + (b + c);
    var k := |a| + |b|;
    forall i, j | 0 <= i < j < |t| ensures t[i] != t[j] {
      var i' := if i < |a| then i else if i == |a| then k else if i <= k then i - 1 else i;
      var j' := if j < |a| then j else if j == |a| then k else if j <= k then j - 1 else j;
      assert t[i] == s[i'] && t[j] == s[j'];
    }
  }

  lemma TakeKeepsApart(v: Piles, w: Piles, u: set<Element>)
    requires v.Apart(u)
    requires (v.p != [] && w == v.TakeFirst()) || (v.rest != [] && w == v.TakeSecond())
    ensures w.Apart(u)
  {
    if v.p != [] && w == v.TakeFirst() {
      assert w.All() == v.All();
    } else {
      assert v.rest == [v.rest[0]] + v.rest[1..];
      SwapNoDup(v.out, v.p, v.rest[0], v.rest[1..]);
      forall x | x in w.All() ensures x in u { assert x in v.All(); }
    }
  }

  /** What taking `e` needs to know about the three piles. */
  lemma EmitFacts(w: Piles, u: set<Element>)
    requires w.Apart(u) && w.out != []
    ensures NoDup(w.out)
    ensures forall i, x :: 0 <= i < |w.out| && x in w.p ==> w.out[i] != x
    ensures forall i, x :: 0 <= i < |w.out| && x in w.rest ==> w.out[i] != x
    ensures forall i :: 0 <= i < |w.out| ==> w.out[i] in u
  {
    var all, n := w.All(), |w.out|;
    assert forall i :: 0 <= i < n ==> all[i] == w.out[i];
    forall i | 0 <= i < n ensures w.out[i] in u { assert all[i] in all; }
    forall i, x | 0 <= i < n && x in w.p ensures w.out[i] != x {
      var k :| 0 <= k < |w.p| && w.p[k] == x;
      assert all[n + k] == x;
    }
    forall i, x | 0 <= i < n && x in w.rest ensures w.out[i] != x {
      var k :| 0 <= k < |w.rest| && w.rest[k] == x;
      assert all[n + |w.p| + k] == x;
    }
  }

  lemma TakeFirstMerges(cmp: (Element, Element) -> int, out: seq<Element>, p: seq<Element>, q: seq<Element>)
    requires p != [] && (q == [] || cmp(p[0], q[0]) <= 0)
    ensures out + [p[0]] + Merge(cmp, p[1..], q) == out + Merge(cmp, p, q)
  {
    Assoc(out, [p[0]], Merge(cmp, p[1..], q));
  }

  lemma TakeSecondMerges(cmp: (Element, Element) -> int, out: seq<Element>, p: seq<Element>, q: seq<Element>)
    requires q != [] && (p == [] || cmp(p[0], q[0]) > 0)
    ensures out + [q[0]] + Merge(cmp, p, q[1..]) == out + Merge(cmp, p, q)
  {
    Assoc(out, [q[0]], Merge(cmp, p, q[1..]));
  }

  /** Appends `e` behind `tail`. */
  method Emit(list0: Element?, tail0: Element?, e: Element, doubly: bool, ghost out: seq<Element>)
    returns (list: Element?)
    requires list0 == First(out) && tail0 == Last(out) && Linked(out) && (doubly ==> Backed(out))
    requires NoDup(out) && e !in out
    modifies (if tail0 == null then {} else {tail0})`next, (if doubly then {e} else {})`prev
    ensures list == First(out + [e]) && Linked(out + [e]) && (doubly ==> Backed(out + [e]))
  {
    list := list0;
    if tail0 != null { tail0.next := e; } else { list := e; }
    if doubly { e.prev := tail0; }
  }

  lemma RunsAfterTake(v: Piles, w: Piles, wrap: Element?)
    requires Linked(v.p) && Chain(v.rest, wrap) && wrap !in v.rest && wrap !in v.p[Min(1, |v.p|)..]
    requires (v.p != [] && w == v.TakeFirst()) || (v.rest != [] && w == v.TakeSecond())
    ensures Linked(w.p) && Chain(w.rest, wrap) && wrap !in w.rest && wrap !in w.p[Min(1, |w.p|)..]
  {
  }

  /** The nodes in q are what is left of the second run: at most n, exactly n unless the list ends with them. */
  ghost predicate SecondIs(v: Piles, q: seq<Element>, after: seq<Element>, n: nat) {
    v.rest == q + after && |q| <= n && (after != [] ==> |q| == n)
  }

  lemma TookFirst(cmp: (Element, Element) -> int, v: Piles, sq: seq<Element>, after: seq<Element>, n: nat,
                  wrap: Element?)
    requires v.p != [] && (sq == [] || cmp(v.p[0], sq[0]) <= 0) && SecondIs(v, sq, after, n)
    requires Linked(v.p) && wrap !in v.p[Min(1, |v.p|)..]
    ensures var w := v.TakeFirst();
            && w.out + Merge(cmp, w.p, sq) == v.out + Merge(cmp, v.p, sq) && SecondIs(w, sq, after, n)
            && |w.p| == |v.p| - 1 && (|v.p| > 1 ==> After(v.p[0], wrap) == w.p[0])
  {
    TakeFirstMerges(cmp, v.out, v.p, sq);
    assert |v.p| > 1 ==> v.p[0].next == v.p[1] && v.p[1] == v.p[1..][0];
  }

  lemma TookSecond(cmp: (Element, Element) -> int, v: Piles, sq: seq<Element>, after: seq<Element>, n: nat,
                   wrap: Element?)
    requires sq != [] && (v.p == [] || cmp(v.p[0], sq[0]) > 0) && SecondIs(v, sq, after, n)
    requires Chain(v.rest, wrap) && wrap !in v.rest
    ensures v.rest != [] && v.rest[0] == sq[0]
    ensures var w := v.TakeSecond();
            && w.out + Merge(cmp, w.p, sq[1..]) == v.out + Merge(cmp, v.p, sq) && SecondIs(w, sq[1..], after, n - 1)
            && After(v.rest[0], wrap) == First(w.rest)
  {
    TakeSecondMerges(cmp, v.out, v.p, sq);
    assert (sq + after)[1..] == sq[1..] + after;
    assert |v.rest| > 1 ==> v.rest[0].next == v.rest[1] && v.rest[1] in v.rest;
  }

  /** The three branches of the merge loop: which node goes next, and the advanced run pointers. */
  method Choose(cmp: (Element, Element) -> int, p0: Element?, psize0: nat, q0: Element?, qsize0: nat,
                wrap: Element?, ghost v: Piles, ghost sq: seq<Element>, ghost after: seq<Element>)
    returns (e: Element, p: Element?, psize: nat, q: Element?, qsize: nat,
             ghost w: Piles, ghost sw: seq<Element>, ghost compared: bool)
    requires psize0 > 0 || (qsize0 > 0 && q0 != null)
    requires psize0 == |v.p| && (psize0 > 0 ==> p0 == v.p[0])
    requires Linked(v.p) && q0 == First(v.rest) && Chain(v.rest, wrap)
    requires wrap !in v.rest && wrap !in v.p[Min(1, |v.p|)..]
    requires SecondIs(v, sq, after, qsize0)
    ensures (v.p != [] && w == v.TakeFirst() && e == v.p[0]) || (v.rest != [] && w == v.TakeSecond() && e == v.rest[0])
    ensures psize == |w.p| && (psize > 0 ==> p == w.p[0]) && q == First(w.rest) && psize + qsize < psize0 + qsize0
    ensures SecondIs(w, sw, after, qsize)
    ensures w.out + Merge(cmp, w.p, sw) == v.out + Merge(cmp, v.p, sq)
    ensures Compares(cmp, v.p, sq) == Compares(cmp, w.p, sw) + if compared then 1 else 0
  {
    p, psize, q, qsize, w, sw := p0, psize0, q0, qsize0, v, sq;
    compared := false;
    assert qsize0 > 0 && q0 != null ==> sq != [] && q0 == sq[0];
    if psize == 0 {
      TookSecond(cmp, v, sq, after, qsize0, wrap);
      e := q; q := After(q, wrap); qsize := qsize - 1;
      w, sw := v.TakeSecond(), sq[1..];
    } else if qsize == 0 || q == null {
      TookFirst(cmp, v, sq, after, qsize0, wrap);
      e := p; p := After(p, wrap); psize := psize - 1;
      w := v.TakeFirst();
    } else {
      compared := true;
      if cmp(p, q) <= 0 {
        TookFirst(cmp, v, sq, after, qsize0, wrap);
        e := p; p := After(p, wrap); psize := psize - 1;
        w := v.TakeFirst();
      } else {
        TookSecond(cmp, v, sq, after, qsize0, wrap);
        e := q; q := After(q, wrap); qsize := qsize - 1;
        w, sw := v.TakeSecond(), sq[1..];
      }
    }
  }

  /** Appends the chosen node; both runs stay as they are. */
  method EmitTaken(list0: Element?, tail0: Element?, e: Element, doubly: bool,
                   ghost v: Piles, ghost w: Piles, ghost q0: Element?, ghost wrap: Element?, ghost u: set<Element>)
    returns (list: Element?)
    requires v.Apart(u) && Shape(v, list0, tail0, q0, wrap, doubly)
    requires (v.p != [] && w == v.TakeFirst() && e == v.p[0]) || (v.rest != [] && w == v.TakeSecond() && e == v.rest[0])
    modifies u`next, (if doubly then u else {})`prev
    ensures w.Apart(u) && Shape(w, list, e, First(w.rest), wrap, doubly)
  {
    TakeKeepsApart(v, w, u);
    RunsAfterTake(v, w, wrap);
    EmitFacts(w, u);
    assert w.out[|v.out|] == e && forall i :: 0 <= i < |v.out| ==> w.out[i] == v.out[i];
    assert v.out != [] ==> tail0 == w.out[|v.out| - 1];
    assert tail0 != null ==> tail0 !in w.p && tail0 !in w.rest;
    assert e !in w.p && e !in w.rest;
    list := Emit(list0, tail0, e, doubly, v.out);
    assert Linked(w.p) && Chain(w.rest, wrap);
  }

  /** The state of the merge loop: v is what the pointers hold, `goal` what the merge will produce. */
  ghost predicate Merging(cmp: (Element, Element) -> int, v: Piles, sq: seq<Element>, after: seq<Element>,
                          goal: seq<Element>, p: Element?, psize: nat, q: Element?, qsize: nat, list: Element?,
                          tail: Element?, wrap: Element?, doubly: bool, u: set<Element>)
    reads Set(v.out), Set(v.p), Set(v.rest)
  {
    && psize == |v.p| && (psize > 0 ==> p == v.p[0]) && SecondIs(v, sq, after, qsize)
    && v.Apart(u) && Shape(v, list, tail, q, wrap, doubly)
    && v.out + Merge(cmp, v.p, sq) == goal
  }

  /** One round of the merge loop. */
  method MergeStep(cmp: (Element, Element) -> int, p0: Element?, psize0: nat, q0: Element?, qsize0: nat,
                   wrap: Element?, doubly: bool, list0: Element?, tail0: Element?, ghost v: Piles,
                   ghost sq: seq<Element>, ghost after: seq<Element>, ghost goal: seq<Element>, ghost u: set<Element>)
    returns (list: Element?, e: Element, p: Element?, psize: nat, q: Element?, qsize: nat,
             ghost w: Piles, ghost sw: seq<Element>, ghost compared: bool)
    requires psize0 > 0 || (qsize0 > 0 && q0 != null)
    requires Merging(cmp, v, sq, after, goal, p0, psize0, q0, qsize0, list0, tail0, wrap, doubly, u)
    modifies u`next, (if doubly then u else {})`prev
    ensures Merging(cmp, w, sw, after, goal, p, psize, q, qsize, list, e, wrap, doubly, u)
    ensures psize + qsize < psize0 + qsize0 && |w.out| == |v.out| + 1
    ensures Compares(cmp, v.p, sq) == Compares(cmp, w.p, sw) + if compared then 1 else 0
  {
    e, p, psize, q, qsize, w, sw, compared := Choose(cmp, p0, psize0, q0, qsize0, wrap, v, sq, after);
    list := EmitTaken(list0, tail0, e, doubly, v, w, q0, wrap, u);
  }

  /** Merges the run at `p` (psize0 nodes) with the run at `q` (at most insize nodes) behind `tail`. */
  method MergeRuns(cmp: (Element, Element) -> int, p0: Element, psize0: nat, q0: Element?, insize: nat,
                   wrap: Element?, doubly: bool, list0: Element?, tail0: Element?, ghost v0: Piles,
                   ghost sq0: seq<Element>, ghost after: seq<Element>, ghost goal: seq<Element>, ghost u: set<Element>)
    returns (list: Element?, tail: Element?, q: Element?, ghost v: Piles, ghost calls: nat)
    requires v0.p != [] && Merging(cmp, v0, sq0, after, goal, p0, psize0, q0, insize, list0, tail0, wrap, doubly, u)
    modifies u`next, (if doubly then u else {})`prev
    ensures v == Piles(goal, [], after)
    ensures v.Apart(u) && Shape(v, list, tail, q, wrap, doubly)
    ensures calls == Compares(cmp, v0.p, sq0)
  {
    list, tail, q, v, calls := list0, tail0, q0, v0, 0;
    var p: Element?, psize, qsize := p0, psize0, insize;
    ghost var sq := sq0;
    while psize > 0 || (qsize > 0 && q != null)
      invariant Merging(cmp, v, sq, after, goal, p, psize, q, qsize, list, tail, wrap, doubly, u)
      invariant calls + Compares(cmp, v.p, sq) == Compares(cmp, v0.p, sq0)
      decreases psize + qsize
    {
      ghost var compared;
      list, tail, p, psize, q, qsize, v, sq, compared :=
        MergeStep(cmp, p, psize, q, qsize, wrap, doubly, list, tail, v, sq, after, goal, u);
      if compared { calls := calls + 1; }
    }
    assert sq == [] && v.rest == after;
  }

  /** After the walk over the first run the pointers are those of a merge about to start. */
  lemma StartMerge(cmp: (Element, Element) -> int, v: Piles, k: nat, p: Element, psize: nat, q: Element?,
                   list: Element?, tail: Element?, wrap: Element?, doubly: bool, u: set<Element>)
    returns (w: Piles, goal: seq<Element>)
    requires k > 0 && v.p == [] && v.rest != [] && v.Apart(u)
    requires Chain(v.rest, wrap) && wrap !in v.rest[1..] && p == v.rest[0]
    requires list == First(v.out) && tail == Last(v.out) && Linked(v.out) && (doubly ==> Backed(v.out))
    requires psize == Min(k, |v.rest|) && q == First(v.rest[psize..])
    ensures w == Piles(v.out, FirstRun(v.rest, k), Behind(v.rest, k))
    ensures goal == v.out + Merge(cmp, FirstRun(v.rest, k), SecondRun(v.rest, k))
    ensures Merging(cmp, w, SecondRun(v.rest, k), Rest(v.rest, k), goal, p, psize, q, k, list, tail, wrap, doubly, u)
  {
    w := Piles(v.out, FirstRun(v.rest, k), Behind(v.rest, k));
    goal := v.out + Merge(cmp, w.p, SecondRun(v.rest, k));
    SplitRuns(v.rest, k, wrap, w.p, w.rest);
    SplitNodes(v, w, k, u);
  }

  lemma SplitNodes(v: Piles, w: Piles, k: nat, u: set<Element>)
    requires v.Apart(u) && v.p == [] && w == Piles(v.out, FirstRun(v.rest, k), Behind(v.rest, k))
    ensures w.Apart(u) && SecondIs(w, SecondRun(v.rest, k), Rest(v.rest, k), k)
  {
    assert w.All() == v.All();
  }

  lemma SplitRuns(s: seq<Element>, k: nat, wrap: Element?, p: seq<Element>, rest: seq<Element>)
    requires k > 0 && s != [] && Chain(s, wrap) && wrap !in s[1..]
    requires p == FirstRun(s, k) && rest == Behind(s, k)
    ensures Linked(p) && Chain(rest, wrap) && wrap !in rest && wrap !in p[1..]
  {
    assert forall i :: 0 <= i < |p[1..]| ==> p[1..][i] == s[1..][i];
    assert forall i :: 0 <= i < |rest| ==> rest[i] == s[1..][i + |p| - 1];
  }

  lemma PassTakesPair(cmp: (Element, Element) -> int, v: Piles, k: nat)
    requires k > 0 && v.rest != []
    ensures v.out + Merge(cmp, FirstRun(v.rest, k), SecondRun(v.rest, k)) + Pass(cmp, Rest(v.rest, k), k)
         == v.out + Pass(cmp, v.rest, k)
    ensures Merges(|v.rest|, k) == 1 + Merges(|Rest(v.rest, k)|, k) && |Rest(v.rest, k)| < |v.rest|
    ensures PassCompares(cmp, v.rest, k)
         == Compares(cmp, FirstRun(v.rest, k), SecondRun(v.rest, k)) + PassCompares(cmp, Rest(v.rest, k), k)
  {
    Assoc(v.out, Merge(cmp, FirstRun(v.rest, k), SecondRun(v.rest, k)), Pass(cmp, Rest(v.rest, k), k));
  }

  /** One round of a pass: the two runs at `p0` are merged behind `tail`. */
  method MergePair(cmp: (Element, Element) -> int, p0: Element, insize: nat, wrap: Element?, doubly: bool,
                   list0: Element?, tail0: Element?, ghost v0: Piles, ghost u: set<Element>)
    returns (list: Element?, tail: Element?, p: Element?, ghost v: Piles, ghost calls: nat)
    requires insize > 0 && v0.Apart(u) && v0.p == [] && v0.rest != []
    requires p0 == v0.rest[0] && Chain(v0.rest, wrap) && wrap !in v0.rest[1..]
    requires list0 == First(v0.out) && tail0 == Last(v0.out) && Linked(v0.out) && (doubly ==> Backed(v0.out))
    modifies u`next, (if doubly then u else {})`prev
    ensures v.Apart(u) && v.p == [] && Shape(v, list, tail, p, wrap, doubly)
    ensures v.out == v0.out + Merge(cmp, FirstRun(v0.rest, insize), SecondRun(v0.rest, insize))
    ensures v.rest == Rest(v0.rest, insize)
    ensures calls == Compares(cmp, FirstRun(v0.rest, insize), SecondRun(v0.rest, insize))
  {
    var q, psize := WalkRun(p0, insize, wrap, v0.rest);
    ghost var w, goal := StartMerge(cmp, v0, insize, p0, psize, q, list0, tail0, wrap, doubly, u);
    list, tail, p, v, calls := MergeRuns(cmp, p0, psize, q, insize, wrap, doubly, list0, tail0, w,
                                         SecondRun(v0.rest, insize), Rest(v0.rest, insize), goal, u);
  }

  /** One pass over the list that starts at `p0`: runs of `insize` nodes are merged in pairs. */
  method SortPass(cmp: (Element, Element) -> int, p0: Element, insize: nat, wrap: Element?, doubly: bool,
                  ghost s: seq<Element>, ghost u: set<Element>)
    returns (list: Element?, tail: Element?, nmerges: nat, ghost out: seq<Element>, ghost calls: nat)
    requires insize > 0 && s != [] && p0 == s[0] && Chain(s, wrap) && wrap !in s[1..]
    requires NoDup(s) && forall x :: x in s ==> x in u
    modifies u`next, (if doubly then u else {})`prev
    ensures out == Pass(cmp, s, insize) && NoDup(out) && forall x :: x in out ==> x in u
    ensures list == First(out) && tail == Last(out) && Linked(out) && (doubly ==> Backed(out))
    ensures nmerges == Merges(|s|, insize)
    ensures calls == PassCompares(cmp, s, insize)
  {
    list, tail, nmerges, calls := null, null, 0, 0;
    var p: Element? := p0;
    ghost var v := Piles([], [], s);
    while p != null
      invariant v.Apart(u) && v.p == []
      invariant p == First(v.rest) && Chain(v.rest, wrap) && (v.rest != [] ==> wrap !in v.rest[1..])
      invariant list == First(v.out) && tail == Last(v.out) && Linked(v.out) && (doubly ==> Backed(v.out))
      invariant v.out + Pass(cmp, v.rest, insize) == Pass(cmp, s, insize)
      invariant nmerges + Merges(|v.rest|, insize) == Merges(|s|, insize)
      invariant calls + PassCompares(cmp, v.rest, insize) == PassCompares(cmp, s, insize)
      decreases |v.rest|
    {
      nmerges := nmerges + 1;
      ghost var c;
      PassTakesPair(cmp, v, insize);
      list, tail, p, v, c := MergePair(cmp, p, insize, wrap, doubly, list, tail, v, u);
      calls := calls + c;
    }
    out := v.out;
  }

  /** What a sort that stands at `t` before a pass with run length `insize` ends with. */
  ghost function Outcome(cmp: (Element, Element) -> int, t: seq<Element>, insize: nat, looping: bool): seq<Element>
    requires insize > 0
  {
    if looping then SortFrom(cmp, t, insize) else t
  }

  ghost function PassesLeft(n: nat, insize: nat, looping: bool): nat
    requires insize > 0
  {
    if looping then PassesFrom(n, insize) else 0
  }

  lemma PassProgress(cmp: (Element, Element) -> int, t: seq<Element>, out: seq<Element>, insize: nat, nmerges: nat)
    requires insize > 0 && out == Pass(cmp, t, insize) && nmerges == Merges(|t|, insize)
    ensures Outcome(cmp, t, insize, true) == Outcome(cmp, out, 2 * insize, nmerges > 1)
    ensures PassesLeft(|t|, insize, true) == 1 + PassesLeft(|t|, 2 * insize, nmerges > 1)
    ensures ComparesLeft(cmp, t, insize, true)
         == PassCompares(cmp, t, insize) + ComparesLeft(cmp, out, 2 * insize, nmerges > 1)
    ensures nmerges > 1 ==> insize < |t|
  {
    SortFromUnfolds(cmp, t, insize);
    PassesFromUnfolds(|t|, insize);
    SortComparesUnfolds(cmp, t, insize);
    MergesAtMostOne(|t|, insize);
  }

  ghost function ComparesLeft(cmp: (Element, Element) -> int, t: seq<Element>, insize: nat, looping: bool): nat
    requires insize > 0
  {
    if looping then SortCompares(cmp, t, insize) else 0
  }

  /** The head's `prev` is set to the tail and the tail's `next` to `end`. */
  method Close(list: Element, tail: Element, end: Element?, ghost s: seq<Element>)
    requires s != [] && NoDup(s) && list == s[0] && tail == Last(s) && Linked(s) && Backed(s)
    modifies list`prev, tail`next
    ensures Chain(s, end) && BackedToTail(s)
  {
    list.prev := tail;
    tail.next := end;
  }

  /** A pass and the null that closes the chain. */
  method LLPass(cmp: (Element, Element) -> int, list0: Element, insize: nat,
                ghost s: seq<Element>, ghost u: set<Element>)
    returns (list: Element?, nmerges: nat, ghost out: seq<Element>, ghost calls: nat)
    requires insize > 0 && Single(list0, s) && forall x :: x in s ==> x in u
    modifies u`next
    ensures out == Pass(cmp, s, insize) && Single(list, out) && forall x :: x in out ==> x in u
    ensures nmerges == Merges(|s|, insize) && calls == PassCompares(cmp, s, insize)
  {
    var tail;
    list, tail, nmerges, out, calls := SortPass(cmp, list0, insize, null, false, s, u);
    if tail != null { tail.next := null; }
  }

  /** LL_SORT2. */
  method LLSort(cmp: (Element, Element) -> int, list0: Element?, ghost s: seq<Element>)
    returns (list: Element?, ghost t: seq<Element>, ghost passes: nat, ghost calls: nat)
    requires Single(list0, s)
    modifies Set(s)`next
    ensures t == Sort(cmp, s) && Single(list, t)
    ensures s != [] ==> passes == PassesFrom(|s|, 1) && calls == SortCompares(cmp, s, 1)
    ensures calls <= passes * |s|
  {
    list, t, passes, calls := list0, s, 0, 0;
    if list != null {
      ghost var u := set x | x in s;
      var insize, looping := 1, true;
      while looping
        invariant insize > 0 && t != [] && (forall x :: x in t ==> x in u) && Single(list, t)
        invariant Outcome(cmp, t, insize, looping) == Sort(cmp, s) && |t| == |s|
        invariant passes + PassesLeft(|s|, insize, looping) == PassesFrom(|s|, 1)
        invariant calls + ComparesLeft(cmp, t, insize, looping) == SortCompares(cmp, s, 1)
        decreases looping, |s| - insize
      {
        ghost var out, c;
        var nmerges;
        list, nmerges, out, c := LLPass(cmp, list, insize, t, u);
        PassProgress(cmp, t, out, insize, nmerges);
        if nmerges <= 1 { looping := false; }
        t, passes, calls, insize := out, passes + 1, calls + c, 2 * insize;
      }
    }
    SortComparesBound(cmp, s, 1);
  }

  /** A pass, then the head's `prev` and the closing null. */
  method DLPass(cmp: (Element, Element) -> int, list0: Element, insize: nat,
                ghost s: seq<Element>, ghost u: set<Element>)
    returns (list: Element?, nmerges: nat, ghost out: seq<Element>, ghost calls: nat)
    requires insize > 0 && Double(list0, s) && forall x :: x in s ==> x in u
    modifies u`next, u`prev
    ensures out == Pass(cmp, s, insize) && Double(list, out) && forall x :: x in out ==> x in u
    ensures nmerges == Merges(|s|, insize) && calls == PassCompares(cmp, s, insize)
  {
    var tail;
    list, tail, nmerges, out, calls := SortPass(cmp, list0, insize, null, true, s, u);
    Close(list, tail, null, out);
  }

  /** DL_SORT2. */
  method DLSort(cmp: (Element, Element) -> int, list0: Element?, ghost s: seq<Element>)
    returns (list: Element?, ghost t: seq<Element>, ghost passes: nat, ghost calls: nat)
    requires Double(list0, s)
    modifies Set(s)`next, Set(s)`prev
    ensures t == Sort(cmp, s) && Double(list, t)
    ensures s != [] ==> passes == PassesFrom(|s|, 1) && calls == SortCompares(cmp, s, 1)
    ensures calls <= passes * |s|
  {
    list, t, passes, calls := list0, s, 0, 0;
    if list != null {
      ghost var u := set x | x in s;
      var insize, looping := 1, true;
      while looping
        invariant insize > 0 && t != [] && (forall x :: x in t ==> x in u) && Double(list, t)
        invariant Outcome(cmp, t, insize, looping) == Sort(cmp, s) && |t| == |s|
        invariant passes + PassesLeft(|s|, insize, looping) == PassesFrom(|s|, 1)
        invariant calls + ComparesLeft(cmp, t, insize, looping) == SortCompares(cmp, s, 1)
        decreases looping, |s| - insize
      {
        ghost var out, c;
        var nmerges;
        list, nmerges, out, c := DLPass(cmp, list, insize, t, u);
        PassProgress(cmp, t, out, insize, nmerges);
        if nmerges <= 1 { looping := false; }
        t, passes, calls, insize := out, passes + 1, calls + c, 2 * insize;
      }
    }
    SortComparesBound(cmp, s, 1);
  }

  /** A pass that stops at the old head, then the two links that close the ring. */
  method CDLPass(cmp: (Element, Element) -> int, list0: Element, insize: nat,
                 ghost s: seq<Element>, ghost u: set<Element>)
    returns (list: Element?, nmerges: nat, ghost out: seq<Element>, ghost calls: nat)
    requires insize > 0 && Ring(list0, s) && forall x :: x in s ==> x in u
    modifies u`next, u`prev
    ensures out == Pass(cmp, s, insize) && Ring(list, out) && forall x :: x in out ==> x in u
    ensures nmerges == Merges(|s|, insize) && calls == PassCompares(cmp, s, insize)
  {
    var tail;
    list, tail, nmerges, out, calls := SortPass(cmp, list0, insize, list0, true, s, u);
    Close(list, tail, list, out);
  }

  /** CDL_SORT2. */
  method CDLSort(cmp: (Element, Element) -> int, list0: Element?, ghost s: seq<Element>)
    returns (list: Element?, ghost t: seq<Element>, ghost passes: nat, ghost calls: nat)
    requires Ring(list0, s)
    modifies Set(s)`next, Set(s)`prev
    ensures t == Sort(cmp, s) && Ring(list, t)
    ensures s != [] ==> passes == PassesFrom(|s|, 1) && calls == SortCompares(cmp, s, 1)
    ensures calls <= passes * |s|
  {
    list, t, passes, calls := list0, s, 0, 0;
    if list != null {
      ghost var u := set x | x in s;
      var insize, looping := 1, true;
      while looping
        invariant insize > 0 && t != [] && (forall x :: x in t ==> x in u) && Ring(list, t)
        invariant Outcome(cmp, t, insize, looping) == Sort(cmp, s) && |t| == |s|
        invariant passes + PassesLeft(|s|, insize, looping) == PassesFrom(|s|, 1)
        invariant calls + ComparesLeft(cmp, t, insize, looping) == SortCompares(cmp, s, 1)
        decreases looping, |s| - insize
      {
        ghost var out, c;
        var nmerges;
        list, nmerges, out, c := CDLPass(cmp, list, insize, t, u);
        PassProgress(cmp, t, out, insize, nmerges);
        if nmerges <= 1 { looping := false; }
        t, passes, calls, insize := out, passes + 1, calls + c, 2 * insize;
      }
    }
    SortComparesBound(cmp, s, 1);
  }

  /** A pass of HASH_SRT; the null that closes the chain. */
  method HashPass(cmp: (Element, Element) -> int, list0: Element, insize: nat, ghost tail0: Element?,
                  ghost s: seq<Element>, ghost u: set<Element>)
    returns (list: Element?, tail: Element?, nmerges: nat, ghost out: seq<Element>, ghost calls: nat)
    requires insize > 0 && AppOrder(list0, tail0, s) && forall x :: x in s ==> x in u
    modifies u`next, u`prev
    ensures out == Pass(cmp, s, insize) && AppOrder(list, tail, out) && forall x :: x in out ==> x in u
    ensures nmerges == Merges(|s|, insize) && calls == PassCompares(cmp, s, insize)
  {
    list, tail, nmerges, out, calls := SortPass(cmp, list0, insize, null, true, s, u);
    if tail != null { CloseOrder(list, tail, out); }
  }

  /** The null that closes the application order. */
  method CloseOrder(list: Element, tail: Element, ghost s: seq<Element>)
    requires s != [] && NoDup(s) && list == First(s) && tail == Last(s) && Linked(s) && Backed(s)
    modifies tail`next
    ensures AppOrder(list, tail, s)
  {
    tail.next := null;
  }

  /** HASH_SRT on the application order; the caller stores the new head and tail. */
  method HashSort(cmp: (Element, Element) -> int, list0: Element, ghost tail0: Element?, ghost s: seq<Element>)
    returns (list: Element?, tail: Element?, ghost t: seq<Element>, ghost passes: nat, ghost calls: nat)
    requires AppOrder(list0, tail0, s)
    modifies Set(s)`next, Set(s)`prev
    ensures t == Sort(cmp, s) && AppOrder(list, tail, t)
    ensures passes == PassesFrom(|s|, 1) && calls == SortCompares(cmp, s, 1) && calls <= passes * |s|
  {
    list, t, passes, calls := list0, s, 0, 0;
    tail := null;
    ghost var tl, u := tail0, Set(s);
    var insize, looping := 1, true;
    while looping
      invariant insize > 0 && t != [] && (forall x :: x in t ==> x in u) && AppOrder(list, tl, t)
      invariant !looping ==> tail == tl
      invariant Outcome(cmp, t, insize, looping) == Sort(cmp, s) && |t| == |s|
      invariant passes + PassesLeft(|s|, insize, looping) == PassesFrom(|s|, 1)
      invariant calls + ComparesLeft(cmp, t, insize, looping) == SortCompares(cmp, s, 1)
      decreases looping, |s| - insize
    {
      ghost var out, c;
      var nmerges;
      list, tail, nmerges, out, c := HashPass(cmp, list, insize, tl, t, u);
      PassProgress(cmp, t, out, insize, nmerges);
      if nmerges <= 1 { looping := false; }
      tl, t, passes, calls, insize := tail, out, passes + 1, calls + c, 2 * insize;
    }
    SortComparesBound(cmp, s, 1);
  }
}
