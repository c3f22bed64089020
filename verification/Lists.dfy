/**
  The three list shapes of utlist.h and the macros that change a list by one node or
  by a whole second list. Every method takes the ghost sequence of nodes it works on
  and says which sequence the list holds afterwards.
 */
module Lists {
  import opened Elements

  /** Consecutive elements are joined by `next`. */
  ghost predicate Linked(s: seq<Element>)
    reads Set(s)
  {
    forall i {:trigger s[i].next} :: 0 <= i < |s| - 1 ==> s[i].next == s[i + 1]
  }

  /** `next` chain through s that ends in `end`. */
  ghost predicate Chain(s: seq<Element>, end: Element?)
    reads Set(s)
  {
    Linked(s) && (s != [] ==> s[|s| - 1].next == end)
  }

  /** `prev` points one back, the first one to null. */
  ghost predicate Backed(s: seq<Element>)
    reads Set(s)
  {
    (s != [] ==> s[0].prev == null) && forall i {:trigger s[i].prev} :: 1 <= i < |s| ==> s[i].prev == s[i - 1]
  }

  /** LL_: a null-terminated `next` chain. */
  ghost predicate Single(list: Element?, s: seq<Element>)
    reads Set(s)
  {
    NoDup(s) && list == First(s) && Chain(s, null)
  }

  /** `prev` points one back, and the head's `prev` is the tail. */
  ghost predicate BackedToTail(s: seq<Element>)
    reads Set(s)
  {
    (s != [] ==> s[0].prev == s[|s| - 1]) && forall i {:trigger s[i].prev} :: 1 <= i < |s| ==> s[i].prev == s[i - 1]
  }

  /** DL_: null-terminated `next`, and the head's `prev` is the tail. */
  ghost predicate Double(list: Element?, s: seq<Element>)
    reads Set(s)
  {
    NoDup(s) && list == First(s) && Chain(s, null) && BackedToTail(s)
  }

  /** CDL_: a ring in both directions. */
  ghost predicate Ring(list: Element?, s: seq<Element>)
    reads Set(s)
  {
    NoDup(s) && list == First(s) && Chain(s, First(s)) && BackedToTail(s)
  }

  /** The application order of uthash.h: like DL_, but the head's `prev` is null and the tail has its own pointer. */
  ghost predicate AppOrder(head: Element?, tail: Element?, items: seq<Element>)
    reads Set(items)
  {
    && NoDup(items) && items != [] && head == First(items) && tail == Last(items)
    && Chain(items, null) && Backed(items)
  }

  // ----- singly linked

  /** LL_PREPEND2. */
  method LLPrepend(head: Element?, add: Element, ghost s: seq<Element>) returns (head': Element?)
    requires Single(head, s) && add !in s
    modifies add`next
    ensures Single(head', [add] + s)
  {
    add.next := head;
    head' := add;
  }

  /** LL_APPEND2. */
  method LLAppend(head: Element?, add: Element, ghost s: seq<Element>) returns (head': Element?)
    requires Single(head, s) && add !in s
    modifies Set(s)`next, add`next
    ensures Single(head', s + [add])
  {
    head' := head;
    add.next := null;
    if head' != null {
      var tmp := FindLast(head', s);
      tmp.next := add;
    } else {
      head' := add;
    }
  }

  /** The walk to the last node that LL_APPEND2 and LL_CONCAT2 make. */
  method FindLast(head: Element, ghost s: seq<Element>) returns (tmp: Element)
    requires Single(head, s)
    ensures s != [] && tmp == s[|s| - 1]
  {
    tmp := head;
    ghost var k := 0;
    while tmp.next != null
      invariant 0 <= k < |s| && tmp == s[k] && (k + 1 < |s| ==> tmp.next == s[k + 1])
      decreases |s| - k
    {
      tmp, k := tmp.next, k + 1;
    }
  }

  /** LL_CONCAT2. */
  method LLConcat(head1: Element?, head2: Element?, ghost s: seq<Element>, ghost t: seq<Element>)
    returns (head: Element?)
    requires Single(head1, s) && Single(head2, t) && Apart(s, t)
    modifies Set(s)`next
    ensures Single(head, s + t)
  {
    head := head1;
    if head1 != null {
      var tmp := FindLast(head1, s);
      JoinNoDup(s, t);
      assert tmp in s && forall i :: 0 <= i < |t| ==> t[i] in t;
      tmp.next := head2;
    } else {
      assert s + t == t;
      head := head2;
    }
  }

  /** The walk of LL_DELETE2: to the node before `del`, or to the last node. */
  method FindBefore(head: Element, del: Element, ghost s: seq<Element>) returns (tmp: Element, ghost k: nat)
    requires Single(head, s) && head != del
    ensures k < |s| && tmp == s[k]
    ensures if del in s then k + 1 < |s| && s[k + 1] == del else tmp.next == null
  {
    tmp, k := head, 0;
    while tmp.next != null && tmp.next != del
      invariant 0 <= k < |s| && tmp == s[k] && (k + 1 < |s| ==> tmp.next == s[k + 1])
      invariant forall i :: 0 <= i <= k ==> s[i] != del
      decreases |s| - k
    {
      tmp, k := tmp.next, k + 1;
    }
  }

  /** LL_DELETE2: a node that is not in the list changes nothing. */
  method LLDelete(head: Element, del: Element, ghost s: seq<Element>) returns (head': Element?, ghost k: nat)
    requires Single(head, s)
    modifies Set(s)`next
    ensures del !in s ==> Single(head', s)
    ensures del in s ==> k < |s| && s[k] == del && Single(head', Without(s, k))
  {
    head', k := head, 0;
    if head == del {
      head' := head.next;
      assert Without(s, 0) == s[1..];
    } else {
      var tmp;
      tmp, k := FindBefore(head, del, s);
      if tmp.next != null {
        tmp.next := del.next;
        k := k + 1;
      }
    }
  }

  // ----- doubly linked

  /** DL_PREPEND2. */
  method DLPrepend(head: Element?, add: Element, ghost s: seq<Element>) returns (head': Element?)
    requires Double(head, s) && add !in s
    modifies Set(s)`prev, add`prev, add`next
    ensures Double(head', [add] + s)
  {
    add.next := head;
    if head != null {
      add.prev := head.prev;
      head.prev := add;
    } else {
      add.prev := add;
    }
    head' := add;
  }

  /** DL_APPEND2. */
  method DLAppend(head: Element?, add: Element, ghost s: seq<Element>) returns (head': Element?)
    requires Double(head, s) && add !in s
    modifies Set(s)`prev, Set(s)`next, add`prev, add`next
    ensures Double(head', s + [add])
  {
    head' := head;
    if head != null {
      add.prev := head.prev;
      head.prev.next := add;
      head.prev := add;
      add.next := null;
    } else {
      head' := add;
      head'.prev := head';
      head'.next := null;
    }
  }

  /** DL_CONCAT2. */
  method DLConcat(head1: Element?, head2: Element?, ghost s: seq<Element>, ghost t: seq<Element>)
    returns (head: Element?)
    requires Double(head1, s) && Double(head2, t) && Apart(s, t)
    modifies Set(s)`prev, Set(s)`next, Set(t)`prev
    ensures Double(head, s + t)
  {
    head := head1;
    if head2 != null {
      if head1 != null {
        JoinNoDup(s, t);
        ghost var st := s + t;
        assert head1 == st[0] && head1.prev == st[|s| - 1] && head2 == st[|s|] && head2.prev == st[|st| - 1];
        var tmp := head2.prev;
        head2.prev := head1.prev;
        head1.prev.next := head2;
        head1.prev := tmp;
      } else {
        assert s + t == t;
        head := head2;
      }
    } else {
      assert s + t == s;
    }
  }

  /** DL_DELETE2. */
  method DLDelete(head: Element, del: Element, ghost s: seq<Element>, ghost k: nat) returns (head': Element?)
    requires Double(head, s) && k < |s| && del == s[k]
    modifies Set(s)`prev, Set(s)`next
    ensures Double(head', Without(s, k))
  {
    head' := head;
    assert k + 1 < |s| ==> del.next == s[k + 1];
    assert k > 0 ==> del.prev == s[k - 1] && s[k - 1].next == s[k];
    assert |s| > 1 ==> s[0] != s[|s| - 1] && s[1].prev == s[0];
    if del.prev == del {
      head' := null;
    } else if del == head {
      assert s[0] == s[k];
      del.next.prev := del.prev;
      head' := del.next;
    } else {
      del.prev.next := del.next;
      if del.next != null {
        del.next.prev := del.prev;
      } else {
        head.prev := del.prev;
      }
    }
  }

  // ----- circular

  /** CDL_PREPEND2. */
  method CDLPrepend(head: Element?, add: Element, ghost s: seq<Element>) returns (head': Element?)
    requires Ring(head, s) && add !in s
    modifies Set(s)`prev, Set(s)`next, add`prev, add`next
    ensures Ring(head', [add] + s)
  {
    if head != null {
      add.prev := head.prev;
      add.next := head;
      head.prev := add;
      add.prev.next := add;
    } else {
      add.prev := add;
      add.next := add;
    }
    head' := add;
  }

  /** CDL_DELETE2. */
  method CDLDelete(head: Element, del: Element, ghost s: seq<Element>, ghost k: nat) returns (head': Element?)
    requires Ring(head, s) && k < |s| && del == s[k]
    modifies Set(s)`prev, Set(s)`next
    ensures Ring(head', Without(s, k))
  {
    head' := head;
    assert k + 1 < |s| ==> del.next == s[k + 1];
    assert k > 0 ==> del.prev == s[k - 1] && s[k - 1].next == s[k];
    assert |s| > 1 ==> s[0].next == s[1] && s[1].prev == s[0];
    if head == del && head.next == head {
      head' := null;
    } else {
      del.next.prev := del.prev;
      del.prev.next := del.next;
      if del == head { head' := del.next; }
    }
  }
}
