/**
  The heap object that both headers link: `prev`/`next` are the list order of utlist.h
  and the application order of uthash.h, `hhPrev`/`hhNext` the bucket order of uthash.h.
 */
module Elements {

  type Byte = b: int | 0 <= b < 256
  type Key = seq<Byte>

  class Element {
    const key: Key          // the bytes hh.key points at; hh.keylen is their number
    var value: int          // the payload; for the proxy a socket descriptor
    var prev: Element?
    var next: Element?
    var hhPrev: Element?
    var hhNext: Element?
    var hashv: nat

    constructor (key: Key, value: int)
      ensures this.key == key && this.value == value
      ensures prev == null && next == null && hhPrev == null && hhNext == null
    {
      this.key, this.value := key, value;
      prev, next, hhPrev, hhNext, hashv := null, null, null, null, 0;
    }
  }

  ghost predicate NoDup<T>(s: seq<T>) {
    forall i, j :: 0 <= i < j < |s| ==> s[i] != s[j]
  }

  function Reverse<T>(s: seq<T>): (r: seq<T>)
    ensures |r| == |s|
    ensures forall k :: 0 <= k < |r| ==> r[k] == s[|s| - 1 - k]
  {
    if s == [] then [] else Reverse(s[1..]) + [s[0]]
  }

  ghost predicate Apart<T>(s: seq<T>, t: seq<T>) {
    forall x :: x in s ==> x !in t
  }

  lemma AppendNoDup<T>(s: seq<T>, x: T)
    requires NoDup(s) && x !in s
    ensures NoDup(s + [x])
  {
  }

  lemma JoinNoDup<T>(s: seq<T>, t: seq<T>)
    requires NoDup(s) && NoDup(t) && Apart(s, t)
    ensures NoDup(s + t)
  {
    forall i, j | 0 <= i < j < |s + t| ensures (s + t)[i] != (s + t)[j] {
      if i < |s| <= j { assert s[i] in s && t[j - |s|] in t; }
    }
  }

  /** `s` with the element at position k taken out. */
  ghost function Without<T>(s: seq<T>, k: nat): seq<T>
    requires k < |s|
  {
    s[..k] + s[k + 1..]
  }

  ghost function Set(s: seq<Element>): set<Element> {
    set x | x in s
  }

  ghost function First(s: seq<Element>): Element? {
    if s == [] then null else s[0]
  }

  ghost function Last(s: seq<Element>): Element? {
    if s == [] then null else s[|s| - 1]
  }
}
