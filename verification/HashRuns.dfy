/**
  What whole runs of adds and deletes keep, for any hash function: the table behaves as
  a finite map with an insertion order, and its expansion statistics mean what their
  comments in uthash.h say.
 */
module HashRuns {
  import opened Arith
  import opened Elements
  import opened HashModel

  datatype Op = OpAdd(e: Element) | OpDelete(e: Element)

  // ----- the simple form: a sequence in insertion order, a map from keys

  function ListRun(ops: seq<Op>): seq<Element> {
    if ops == [] then []
    else
      var s := ListRun(ops[..|ops| - 1]);
      match ops[|ops| - 1]
      case OpAdd(e) => s + [e]
      case OpDelete(e) => Remove(s, e)
  }

  function MapRun(ops: seq<Op>): map<Key, Element> {
    if ops == [] then map[]
    else
      var m := MapRun(ops[..|ops| - 1]);
      match ops[|ops| - 1]
      case OpAdd(e) => m[e.key := e]
      case OpDelete(e) => m - {e.key}
  }

  /** Callers add handles that are not in the table and delete handles that are. */
  ghost predicate Legal(ops: seq<Op>) {
    ops != [] ==>
    var s := ListRun(ops[..|ops| - 1]);
    && Legal(ops[..|ops| - 1])
    && match ops[|ops| - 1]
       case OpAdd(e) => e !in s
       case OpDelete(e) => e in s
  }

  /** As every caller in the proxy does, a key is added only when a find has missed it. */
  ghost predicate AddsAbsent(ops: seq<Op>) {
    ops != [] ==>
    && AddsAbsent(ops[..|ops| - 1])
    && match ops[|ops| - 1]
       case OpAdd(e) => FindIn(ListRun(ops[..|ops| - 1]), e.key) == null
       case OpDelete(e) => true
  }

  // ----- the table itself

  function Step(hash: HashFcn, st: State, op: Op): State
    requires Inv(hash, st)
    requires op.OpDelete? ==> op.e in st.Items()
  {
    match op
    case OpAdd(e) => Add(hash, st, e)
    case OpDelete(e) => Delete(hash, st, e)
  }

  lemma StepKeeps(hash: HashFcn, st: State, op: Op)
    requires Inv(hash, st)
    requires if op.OpAdd? then op.e !in st.Items() else op.e in st.Items()
    ensures Inv(hash, Step(hash, st, op))
    ensures Step(hash, st, op).Items() == if op.OpAdd? then st.Items() + [op.e] else Remove(st.Items(), op.e)
  {
    match op
    case OpAdd(e) => AddKeeps(hash, st, e);
    case OpDelete(e) => DeleteKeeps(hash, st, e);
  }

  /** The invariant holds after every run, and the items are those of the simple form, in its order. */
  function Run(hash: HashFcn, ops: seq<Op>): (st: State)
    requires Legal(ops)
    ensures Inv(hash, st) && st.Items() == ListRun(ops)
  {
    if ops == [] then NoTable
    else
      var st := Run(hash, ops[..|ops| - 1]);
      var op := ops[|ops| - 1];
      StepKeeps(hash, st, op);
      Step(hash, st, op)
  }

  // ----- finding

  ghost predicate UniqueKeys(s: seq<Element>) {
    forall i, j :: 0 <= i < j < |s| ==> s[i].key != s[j].key
  }

  lemma FindInUnique(s: seq<Element>, x: Element)
    requires UniqueKeys(s) && x in s
    ensures FindIn(s, x.key) == x
  {
    FindInMeaning(s, x.key);
  }

  /** Looking in one chain finds what looking through all items would find. */
  lemma FindAgrees(hash: HashFcn, st: State, key: Key)
    requires Inv(hash, st) && UniqueKeys(st.Items())
    ensures Find(hash, st, key) == FindIn(st.Items(), key)
  {
    if st.Table? {
      var b := Low(hash(key), st.log2);
      var x, y := Find(hash, st, key), FindIn(st.items, key);
      FindInMeaning(st.chains[b], key);
      FindInMeaning(st.items, key);
      assert y != null ==> y in st.chains[b];
      if x != null {
        assert x in st.items;
        FindInUnique(st.items, x);
      }
    }
  }

  /** Doubling the buckets changes no find and no place in the application order. */
  lemma ExpandKeepsFinds(hash: HashFcn, st: State, key: Key)
    requires Inv(hash, st) && st.Table? && UniqueKeys(st.items)
    ensures Expand(hash, st).items == st.items && Find(hash, Expand(hash, st), key) == Find(hash, st, key)
  {
    ExpandKeeps(hash, st);
    FindAgrees(hash, st, key);
    FindAgrees(hash, Expand(hash, st), key);
  }

  lemma RemoveKeepsUnique(s: seq<Element>, e: Element)
    requires UniqueKeys(s) && e in s
    ensures UniqueKeys(Remove(s, e))
  {
    UniqueIsNoDup(s);
    RemoveFacts(s, e);
    var r := Remove(s, e);
    forall i, j | 0 <= i < j < |r| ensures r[i].key != r[j].key {
      RemovedMember(s, e, r[i]);
      RemovedMember(s, e, r[j]);
      assert r[i] in s && r[j] in s && r[i] != r[j];
    }
  }

  lemma UniqueIsNoDup(s: seq<Element>)
    requires UniqueKeys(s)
    ensures NoDup(s)
  {
  }

  lemma {:induction false} KeysStayUnique(ops: seq<Op>)
    requires Legal(ops) && AddsAbsent(ops)
    ensures UniqueKeys(ListRun(ops))
    decreases |ops|
  {
    if ops != [] {
      var s := ListRun(ops[..|ops| - 1]);
      KeysStayUnique(ops[..|ops| - 1]);
      match ops[|ops| - 1]
      case OpAdd(e) => FindInMeaning(s, e.key);
      case OpDelete(e) => RemoveKeepsUnique(s, e);
    }
  }

  lemma {:induction false} ListIsMap(ops: seq<Op>, key: Key)
    requires Legal(ops) && AddsAbsent(ops)
    ensures FindIn(ListRun(ops), key) == if key in MapRun(ops) then MapRun(ops)[key] else null
    decreases |ops|
  {
    if ops != [] {
      var pre := ops[..|ops| - 1];
      var s := ListRun(pre);
      ListIsMap(pre, key);
      KeysStayUnique(pre);
      KeysStayUnique(ops);
      FindInMeaning(s, key);
      FindInMeaning(ListRun(ops), key);
      match ops[|ops| - 1] {
        case OpAdd(e) =>
          var y := FindIn(ListRun(ops), key);
          if y != null { FindInUnique(ListRun(ops), y); }
          if key == e.key {
            assert e in ListRun(ops);
          } else {
            var x := FindIn(s, key);
            if x != null { assert x in ListRun(ops); }
          }
        case OpDelete(e) =>
          UniqueIsNoDup(s);
          RemoveFacts(s, e);
          var x := FindIn(s, key);
          if x != null && x != e { FindInUnique(ListRun(ops), x); }
          if x == e { FindInUnique(s, e); }
      }
    }
  }

  /** Over every run the table is the finite map: a find returns the live item with the key, or null. */
  lemma RunIsMap(hash: HashFcn, ops: seq<Op>, key: Key)
    requires Legal(ops) && AddsAbsent(ops)
    ensures Find(hash, Run(hash, ops), key) == if key in MapRun(ops) then MapRun(ops)[key] else null
  {
    KeysStayUnique(ops);
    FindAgrees(hash, Run(hash, ops), key);
    ListIsMap(ops, key);
  }

  // ----- HASH_REPLACE

  /** HASH_REPLACE as the two macros it expands to. */
  function ReplaceOps(s: seq<Element>, e: Element): seq<Op> {
    var found := FindIn(s, e.key);
    if found == null then [OpAdd(e)] else [OpDelete(found), OpAdd(e)]
  }

  /** Replacing takes out what held the key, wherever it stood, and appends the new item. */
  lemma ReplaceMeaning(ops: seq<Op>, e: Element)
    requires Legal(ops) && AddsAbsent(ops) && e !in ListRun(ops)
    ensures var s := ListRun(ops); var ops' := ops + ReplaceOps(s, e); var found := FindIn(s, e.key);
            && Legal(ops') && AddsAbsent(ops')
            && MapRun(ops') == MapRun(ops)[e.key := e]
            && ListRun(ops') == (if found == null then s else Remove<Element>(s, found)) + [e]
  {
    var s := ListRun(ops);
    var found := FindIn(s, e.key);
    FindInMeaning(s, e.key);
    KeysStayUnique(ops);
    if found == null {
      Extend(ops, OpAdd(e));
    } else {
      ReplaceHit(ops, e, found);
      assert ops + ReplaceOps(s, e) == ops + [OpDelete(found)] + [OpAdd(e)];
    }
  }

  lemma ReplaceHit(ops: seq<Op>, e: Element, found: Element)
    requires Legal(ops) && AddsAbsent(ops) && UniqueKeys(ListRun(ops)) && e !in ListRun(ops)
    requires found in ListRun(ops) && found.key == e.key
    ensures var ops' := ops + [OpDelete(found)] + [OpAdd(e)];
            && Legal(ops') && AddsAbsent(ops')
            && MapRun(ops') == MapRun(ops)[e.key := e]
            && ListRun(ops') == Remove(ListRun(ops), found) + [e]
  {
    var s := ListRun(ops);
    var r := Remove(s, found);
    UniqueIsNoDup(s);
    RemoveFacts(s, found);
    assert e !in r;
    MissAfterRemove(s, found);
    Extend(ops, OpDelete(found));
    Extend(ops + [OpDelete(found)], OpAdd(e));
  }

  lemma Extend(ops: seq<Op>, op: Op)
    ensures var r, s := ops + [op], ListRun(ops);
            && ListRun(r) == (if op.OpAdd? then s + [op.e] else Remove(s, op.e))
            && MapRun(r) == (if op.OpAdd? then MapRun(ops)[op.e.key := op.e] else MapRun(ops) - {op.e.key})
            && (Legal(r) <==> Legal(ops) && if op.OpAdd? then op.e !in s else op.e in s)
            && (AddsAbsent(r) <==> AddsAbsent(ops) && (op.OpAdd? ==> FindIn(s, op.e.key) == null))
  {
    assert (ops + [op])[..|ops|] == ops;
  }

  lemma MissAfterRemove(s: seq<Element>, e: Element)
    requires UniqueKeys(s) && e in s
    ensures FindIn(Remove(s, e), e.key) == null
  {
    UniqueIsNoDup(s);
    RemoveFacts(s, e);
    var r := Remove(s, e);
    var y := FindIn(r, e.key);
    FindInMeaning(r, e.key);
    if y != null {
      assert y in r && y in s;
      FindInUnique(s, y);
      FindInUnique(s, e);
    }
  }

  // ----- the expansion statistics over a run

  /** Of the current table's expansions, oldest first: was more than half of the items left beyond the ideal length? */
  ghost function History(hash: HashFcn, ops: seq<Op>): seq<bool>
    requires Legal(ops)
  {
    if ops == [] then []
    else
      var before, after := Run(hash, ops[..|ops| - 1]), Run(hash, ops);
      var h := History(hash, ops[..|ops| - 1]);
      if before.NoTable? || after.NoTable? then []
      else if after.log2 == before.log2 then h
      else h + [2 * NonIdeal(after.chains, CeilDiv(|after.items|, |after.chains|)) > |after.items|]
  }

  /** How many of the last entries are true without a break. */
  ghost function Streak(h: seq<bool>): nat {
    if h == [] || !h[|h| - 1] then 0 else 1 + Streak(h[..|h| - 1])
  }

  ghost predicate TwoInARow(h: seq<bool>) {
    exists i :: 0 <= i < |h| - 1 && h[i] && h[i + 1]
  }

  ghost predicate Describes(h: seq<bool>, st: State) {
    st.Table? ==>
      && st.log2 == INITIAL_LOG2 + |h|
      && st.ineff == Streak(h)
      && (st.noexpand <==> Streak(h) >= 2)
      && (h != [] ==> !TwoInARow(h[..|h| - 1]))
  }

  lemma StreakAppend(h: seq<bool>, b: bool)
    ensures Streak(h + [b]) == if b then Streak(h) + 1 else 0
  {
    assert (h + [b])[..|h|] == h;
  }

  lemma NoTwoBefore(h: seq<bool>)
    requires Streak(h) < 2 && (h != [] ==> !TwoInARow(h[..|h| - 1]))
    ensures !TwoInARow(h)
  {
    forall i | 0 <= i < |h| - 1 ensures !(h[i] && h[i + 1]) {
      var p := h[..|h| - 1];
      if i < |h| - 2 {
        assert h[i] == p[i] && h[i + 1] == p[i + 1];
      } else {
        assert p != [] && p[|p| - 1] == h[i];
      }
    }
  }

  lemma StatisticsStep(hash: HashFcn, st: State, op: Op, h: seq<bool>, h': seq<bool>)
    requires Inv(hash, st) && Describes(h, st)
    requires if op.OpAdd? then op.e !in st.Items() else op.e in st.Items()
    requires var after := Step(hash, st, op);
             h' == if st.NoTable? || after.NoTable? then []
                   else if after.log2 == st.log2 then h
                   else h + [2 * NonIdeal(after.chains, CeilDiv(|after.items|, |after.chains|)) > |after.items|]
    ensures Describes(h', Step(hash, st, op))
  {
    StepKeeps(hash, st, op);
    var after := Step(hash, st, op);
    if st.Table? && after.Table? && after.log2 != st.log2 {
      var b := 2 * NonIdeal(after.chains, CeilDiv(|after.items|, |after.chains|)) > |after.items|;
      assert h' == h + [b] && h'[..|h|] == h;
      StreakAppend(h, b);
      NoTwoBefore(h);
    }
  }

  /** The history describes the statistics: the bucket count is 32 doubled once per expansion, `ineff_expands` is
      the current streak of ineffective ones, and `noexpand` is set by the first streak of two. */
  lemma {:induction false} Statistics(hash: HashFcn, ops: seq<Op>)
    requires Legal(ops)
    ensures Describes(History(hash, ops), Run(hash, ops))
    decreases |ops|
  {
    if ops != [] {
      var pre := ops[..|ops| - 1];
      Statistics(hash, pre);
      StatisticsStep(hash, Run(hash, pre), ops[|ops| - 1], History(hash, pre), History(hash, ops));
    }
  }

  /** From operation k on the table is never freed. */
  ghost predicate AliveSince(hash: HashFcn, ops: seq<Op>, k: nat)
    requires Legal(ops) && k <= |ops|
  {
    Run(hash, ops).Table? && (k < |ops| ==> AliveSince(hash, ops[..|ops| - 1], k))
  }

  lemma {:induction false} LegalPrefix(ops: seq<Op>, k: nat)
    requires Legal(ops) && k <= |ops|
    ensures Legal(ops[..k])
  {
    if k < |ops| {
      LegalPrefix(ops[..|ops| - 1], k);
      assert ops[..|ops| - 1][..k] == ops[..k];
    } else {
      assert ops[..k] == ops;
    }
  }

  /** Once `noexpand` is set, the bucket count stays until the table is freed. */
  lemma {:induction false} FrozenUntilFreed(hash: HashFcn, ops: seq<Op>, k: nat, pre: seq<Op>)
    requires Legal(ops) && k <= |ops| && AliveSince(hash, ops, k)
    requires pre == ops[..k] && Legal(pre) && Run(hash, pre).Table? && Run(hash, pre).noexpand
    ensures Run(hash, ops).noexpand && |Run(hash, ops).chains| == |Run(hash, pre).chains|
    decreases |ops|
  {
    if k == |ops| {
      assert pre == ops;
    } else {
      var ops' := ops[..|ops| - 1];
      assert pre == ops'[..k];
      FrozenUntilFreed(hash, ops', k, pre);
      StoppedStep(hash, Run(hash, ops'), ops[|ops| - 1]);
    }
  }

  lemma StoppedStep(hash: HashFcn, st: State, op: Op)
    requires Inv(hash, st) && st.Table? && st.noexpand
    requires if op.OpAdd? then op.e !in st.Items() else op.e in st.Items()
    ensures var r := Step(hash, st, op); r.Table? ==> r.noexpand && |r.chains| == |st.chains|
  {
  }

  // ----- the chain length bound

  function Max(a: nat, b: nat): nat { if a >= b then a else b }

  ghost predicate Bounded(st: State)
    requires st.Table? && |st.mults| == |st.chains|
  {
    forall b :: 0 <= b < |st.chains| ==> |st.chains[b]| <= (st.mults[b] + 1) * Max(CAPACITY_THRESH, st.ideal)
  }

  /** A chain is below its expansion threshold, or the last expansion left it this long. */
  predicate Short(count: nat, mult: nat, ideal: nat) {
    count < (mult + 1) * CAPACITY_THRESH || count <= (mult + 1) * ideal
  }

  ghost predicate AllShort(st: State)
    requires st.Table? && |st.mults| == |st.chains|
  {
    forall b :: 0 <= b < |st.chains| ==> Short(|st.chains[b]|, st.mults[b], st.ideal)
  }

  lemma MulMonotone(m: nat, a: nat, b: nat)
    requires a <= b
    ensures m * a <= m * b
  {
  }

  lemma ShortIsBounded(st: State)
    requires st.Table? && |st.mults| == |st.chains| && AllShort(st)
    ensures Bounded(st)
  {
    forall b | 0 <= b < |st.chains|
      ensures |st.chains[b]| <= (st.mults[b] + 1) * Max(CAPACITY_THRESH, st.ideal)
    {
      assert Short(|st.chains[b]|, st.mults[b], st.ideal);
      MulMonotone(st.mults[b] + 1, CAPACITY_THRESH, Max(CAPACITY_THRESH, st.ideal));
      MulMonotone(st.mults[b] + 1, st.ideal, Max(CAPACITY_THRESH, st.ideal));
    }
  }

  lemma ShortAfterExpansion(count: nat, ideal: nat)
    requires ideal > 0
    ensures Short(count, MultOf(count, ideal), ideal)
  {
    DivMod(count, ideal);
    assert (count / ideal + 1) * ideal == ideal * (count / ideal) + ideal;
  }

  lemma ExpandShortens(hash: HashFcn, t: State)
    requires t.Table? && t.items != [] && |t.chains| == Pow2(t.log2)
    ensures var r := Expand(hash, t); |r.mults| == |r.chains| && AllShort(r)
  {
    var r := Expand(hash, t);
    CeilDivLeast(|t.items|, Pow2(t.log2 + 1), 0);
    forall b | 0 <= b < |r.chains| ensures Short(|r.chains[b]|, r.mults[b], r.ideal) {
      ShortAfterExpansion(|r.chains[b]|, r.ideal);
    }
  }

  lemma AddStaysShort(hash: HashFcn, st: State, e: Element)
    requires Inv(hash, st) && (st.Table? ==> !st.noexpand && AllShort(st)) && e !in st.Items()
    ensures var r := Add(hash, st, e); r.Table? && |r.mults| == |r.chains| && AllShort(r)
  {
    var t := Insert(hash, st, e);
    InsertKeeps(hash, st, e);
    var b := BucketOf(hash, e, t.log2);
    if MustExpand(|t.chains[b]|, t.mults[b], t.noexpand) {
      ExpandShortens(hash, t);
    } else {
      InsertStaysShort(hash, TableFor(st), t, b, e);
    }
  }

  lemma InsertStaysShort(hash: HashFcn, st: State, t: State, b: nat, e: Element)
    requires st.Table? && t.Table? && b < |st.chains| == |st.mults| && t.mults == st.mults && t.ideal == st.ideal
    requires t.chains == st.chains[b := [e] + st.chains[b]]
    requires Short(|t.chains[b]|, t.mults[b], t.ideal) && forall j :: 0 <= j < |st.chains| ==>
               Short(|st.chains[j]|, st.mults[j], st.ideal)
    ensures AllShort(t)
  {
  }

  lemma DeleteStaysShort(hash: HashFcn, st: State, e: Element)
    requires Inv(hash, st) && st.Table? && AllShort(st) && e in st.items
    ensures var r := Delete(hash, st, e); r.Table? ==> |r.mults| == |r.chains| && AllShort(r)
  {
    if |st.items| > 1 {
      var b := BucketOf(hash, e, st.log2);
      assert ChainOf(hash, st.items, st.log2, st.chains[b], b);
      RemoveFacts(st.chains[b], e);
    }
  }

  lemma StepStaysShort(hash: HashFcn, st: State, op: Op)
    requires Inv(hash, st) && (st.Table? ==> !st.noexpand && AllShort(st))
    requires if op.OpAdd? then op.e !in st.Items() else op.e in st.Items()
    ensures Inv(hash, Step(hash, st, op))
    ensures Step(hash, st, op).Table? ==> AllShort(Step(hash, st, op))
  {
    StepKeeps(hash, st, op);
    match op
    case OpAdd(e) => AddStaysShort(hash, st, e);
    case OpDelete(e) => DeleteStaysShort(hash, st, e);
  }

  /** Up to and including the step that sets `noexpand`, no chain is longer than
      (expand_mult + 1) * max(10, ideal_chain_maxlen). */
  lemma {:induction false} ChainBound(hash: HashFcn, ops: seq<Op>)
    requires Legal(ops) && Run(hash, ops).Table?
    requires ops != [] && Run(hash, ops[..|ops| - 1]).Table? ==> !Run(hash, ops[..|ops| - 1]).noexpand
    ensures AllShort(Run(hash, ops)) && Bounded(Run(hash, ops))
    decreases |ops|
  {
    var pre := ops[..|ops| - 1];
    if Run(hash, pre).Table? { NotYetStopped(hash, pre); ChainBound(hash, pre); }
    StepStaysShort(hash, Run(hash, pre), ops[|ops| - 1]);
    ShortIsBounded(Run(hash, ops));
  }

  /** `noexpand` is never taken back, so before it is set it was never set. */
  lemma NotYetStopped(hash: HashFcn, ops: seq<Op>)
    requires Legal(ops) && Run(hash, ops).Table? && !Run(hash, ops).noexpand
    ensures ops != [] && Run(hash, ops[..|ops| - 1]).Table? ==> !Run(hash, ops[..|ops| - 1]).noexpand
  {
  }

  // ----- when the buckets are doubled

  /** The chain that an add of the key would find at its threshold. */
  ghost predicate Due(hash: HashFcn, st: State, key: Key)
    requires st.Table? && |st.mults| == |st.chains| > 0
  {
    var b := hash(key) % |st.chains|;
    !st.noexpand && |st.chains[b]| + 1 >= 10 * (st.mults[b] + 1)
  }

  /** Over every run: the first add makes 32 buckets, an add doubles them exactly when it is due, and nothing else
      changes their number. */
  lemma ExpandsExactly(hash: HashFcn, ops: seq<Op>)
    requires Legal(ops) && ops != [] && Run(hash, ops).Table?
    ensures var before, after, op := Run(hash, ops[..|ops| - 1]), Run(hash, ops), ops[|ops| - 1];
            |after.chains| == if before.NoTable? then 32
                              else if op.OpAdd? && Due(hash, before, op.e.key) then 2 * |before.chains|
                              else |before.chains|
  {
    var before, op := Run(hash, ops[..|ops| - 1]), ops[|ops| - 1];
    match op {
      case OpAdd(e) => if before.NoTable? { FirstAdd(hash, e); } else { AddExpandsExactly(hash, before, e); }
      case OpDelete(e) =>
    }
  }

  /** An expansion is ineffective if and only if, at the least length with which all items would fit, less than half of
      them do. */
  lemma IneffectiveExactly(hash: HashFcn, ops: seq<Op>, c: nat)
    requires Legal(ops) && ops != [] && Run(hash, ops).Table? && Run(hash, ops[..|ops| - 1]).Table?
    requires Run(hash, ops).log2 != Run(hash, ops[..|ops| - 1]).log2
    ensures var before, after := Run(hash, ops[..|ops| - 1]), Run(hash, ops); var n := |after.items|;
            && (after.ideal <= c <==> n <= |after.chains| * c)
            && after.nonideal + Capped(after.chains, after.ideal) == n
            && after.ineff == (if Capped(after.chains, after.ideal) < n - n / 2 then before.ineff + 1 else 0)
            && (after.noexpand <==> before.noexpand || after.ineff > 1)
  {
    var before, after, e := Run(hash, ops[..|ops| - 1]), Run(hash, ops), ops[|ops| - 1].e;
    InsertKeeps(hash, before, e);
    var r := ExpandParts(hash, Insert(hash, before, e));
    NonIdealCounts(after.chains, after.ideal);
    CeilDivLeast(|after.items|, |after.chains|, c);
  }
}
