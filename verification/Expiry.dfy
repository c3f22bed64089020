/**
  The exact effect of removeExpiredMembers. It visits the list once, but for every expired
  record it deletes the first record of the same MAC, which need not be the expired one.
 */
module Expiry {
  import opened Elements
  import opened Wire
  import opened Membership

  function CountOf(recs: seq<Rec>, mac: Mac): nat {
    if recs == [] then 0 else CountOf(recs[..|recs| - 1], mac) + if recs[|recs| - 1].RemoteMac() == mac then 1 else 0
  }

  /** How many records of the MAC have expired. */
  function ExpiredOf(recs: seq<Rec>, mac: Mac, now: U64, timeout: int): nat {
    if recs == [] then 0
    else
      var last := recs[|recs| - 1];
      ExpiredOf(recs[..|recs| - 1], mac, now, timeout)
      + if last.RemoteMac() == mac && Expired(last, now, timeout) then 1 else 0
  }

  function NumExpired(recs: seq<Rec>, now: U64, timeout: int): nat {
    if recs == [] then 0
    else NumExpired(recs[..|recs| - 1], now, timeout) + if Expired(recs[|recs| - 1], now, timeout) then 1 else 0
  }

  function ExpiredKeys(recs: seq<Rec>, now: U64, timeout: int): set<Key> {
    set r | r in recs && Expired(r, now, timeout) :: KeyOf(r.RemoteMac())
  }

  /** Of the records `rest`, which stand behind `before`, those that are not among the first k of their MAC, where k is
      the number of expired records of that MAC in `quota`. */
  function Survivors(before: seq<Rec>, rest: seq<Rec>, quota: seq<Rec>, now: U64, timeout: int): seq<Rec>
    decreases |rest|
  {
    if rest == [] then []
    else
      var r := rest[0];
      var tail := Survivors(before + [r], rest[1..], quota, now, timeout);
      if CountOf(before, r.RemoteMac()) >= ExpiredOf(quota, r.RemoteMac(), now, timeout) then [r] + tail else tail
  }

  /** recs without the first record of the MAC. */
  function DropFirst(recs: seq<Rec>, mac: Mac): seq<Rec> {
    if recs == [] then []
    else if recs[0].RemoteMac() == mac then recs[1..]
    else [recs[0]] + DropFirst(recs[1..], mac)
  }

  lemma {:induction false} DropFirstCuts(recs: seq<Rec>, mac: Mac)
    ensures var i := FirstOf(recs, mac); DropFirst(recs, mac) == if i == |recs| then recs else recs[..i] + recs[i + 1..]
  {
    if recs != [] && recs[0].RemoteMac() != mac {
      DropFirstCuts(recs[1..], mac);
      Cut(recs, FirstOf(recs[1..], mac));
    }
  }

  lemma Cut(recs: seq<Rec>, i: nat)
    requires recs != [] && i < |recs|
    ensures i < |recs| - 1 ==> recs[..1 + i] + recs[1 + i + 1..] == [recs[0]] + (recs[1..][..i] + recs[1..][i + 1..])
    ensures recs == [recs[0]] + recs[1..]
  {
  }

  // ----- counting

  lemma CountNext(recs: seq<Rec>, r: Rec, mac: Mac)
    ensures CountOf(recs + [r], mac) == CountOf(recs, mac) + if r.RemoteMac() == mac then 1 else 0
  {
    assert (recs + [r])[..|recs|] == recs;
  }

  lemma ExpiredNext(recs: seq<Rec>, r: Rec, mac: Mac, now: U64, timeout: int)
    ensures ExpiredOf(recs + [r], mac, now, timeout)
         == ExpiredOf(recs, mac, now, timeout) + if r.RemoteMac() == mac && Expired(r, now, timeout) then 1 else 0
  {
    assert (recs + [r])[..|recs|] == recs;
  }

  lemma {:induction false} ExpiredCount(recs: seq<Rec>, mac: Mac, now: U64, timeout: int)
    ensures ExpiredOf(recs, mac, now, timeout) <= CountOf(recs, mac)
    decreases |recs|
  {
    if recs != [] { ExpiredCount(recs[..|recs| - 1], mac, now, timeout); }
  }

  lemma {:induction false} CountPrefix(recs: seq<Rec>, i: nat, mac: Mac)
    requires i <= |recs|
    ensures CountOf(recs[..i], mac) <= CountOf(recs, mac)
    decreases |recs|
  {
    if i == |recs| {
      assert recs[..i] == recs;
    } else {
      assert recs[..i] == recs[..|recs| - 1][..i];
      CountPrefix(recs[..|recs| - 1], i, mac);
    }
  }

  // ----- one visit

  lemma DropFirstCons(r: Rec, recs: seq<Rec>, mac: Mac)
    ensures DropFirst([r] + recs, mac) == if r.RemoteMac() == mac then recs else [r] + DropFirst(recs, mac)
    ensures r.RemoteMac() == mac || FirstOf(recs, mac) < |recs| ==> FirstOf([r] + recs, mac) < |recs| + 1
  {
    assert ([r] + recs)[1..] == recs;
  }

  lemma NothingBehind(before: seq<Rec>, rest: seq<Rec>)
    requires rest == []
    ensures before + rest == before
  {
  }

  /** Once a MAC's quota is used up, raising it by one changes nothing behind. */
  lemma {:induction false} QuotaUsedUp(before: seq<Rec>, rest: seq<Rec>, quota: seq<Rec>, e: Rec,
                                       now: U64, timeout: int)
    requires CountOf(before, e.RemoteMac()) > ExpiredOf(quota, e.RemoteMac(), now, timeout)
    ensures Survivors(before, rest, quota + [e], now, timeout) == Survivors(before, rest, quota, now, timeout)
    decreases |rest|
  {
    if rest != [] {
      CountNext(before, rest[0], e.RemoteMac());
      QuotaUsedUp(before + [rest[0]], rest[1..], quota, e, now, timeout);
      ExpiredNext(quota, e, rest[0].RemoteMac(), now, timeout);
    }
  }

  /** One more expired record of a MAC: one more of its records goes, the first that is left. */
  lemma {:induction false} QuotaRaised(before: seq<Rec>, rest: seq<Rec>, quota: seq<Rec>, e: Rec,
                                       now: U64, timeout: int)
    requires Expired(e, now, timeout)
    requires CountOf(before, e.RemoteMac()) <= ExpiredOf(quota, e.RemoteMac(), now, timeout)
    requires ExpiredOf(quota, e.RemoteMac(), now, timeout) < CountOf(before + rest, e.RemoteMac())
    ensures var s := Survivors(before, rest, quota, now, timeout);
            && FirstOf(s, e.RemoteMac()) < |s|
            && Survivors(before, rest, quota + [e], now, timeout) == DropFirst(s, e.RemoteMac())
    decreases |rest|
  {
    if rest == [] {
      NothingBehind(before, rest);
      assert false;
    } else {
      var m, r := e.RemoteMac(), rest[0];
      var tail := Survivors(before + [r], rest[1..], quota, now, timeout);
      CountNext(before, r, m);
      ExpiredNext(quota, e, r.RemoteMac(), now, timeout);
      assert before + [r] + rest[1..] == before + rest;
      DropFirstCons(r, tail, m);
      if r.RemoteMac() == m && CountOf(before, m) == ExpiredOf(quota, m, now, timeout) {
        QuotaUsedUp(before + [r], rest[1..], quota, e, now, timeout);
      } else {
        QuotaRaised(before + [r], rest[1..], quota, e, now, timeout);
      }
    }
  }

  lemma {:induction false} QuotaSame(before: seq<Rec>, rest: seq<Rec>, quota: seq<Rec>, e: Rec, now: U64, timeout: int)
    requires !Expired(e, now, timeout)
    ensures Survivors(before, rest, quota + [e], now, timeout) == Survivors(before, rest, quota, now, timeout)
    decreases |rest|
  {
    if rest != [] {
      QuotaSame(before + [rest[0]], rest[1..], quota, e, now, timeout);
      ExpiredNext(quota, e, rest[0].RemoteMac(), now, timeout);
    }
  }

  lemma {:induction false} NoQuota(before: seq<Rec>, rest: seq<Rec>, now: U64, timeout: int)
    ensures Survivors(before, rest, [], now, timeout) == rest
    decreases |rest|
  {
    if rest != [] { NoQuota(before + [rest[0]], rest[1..], now, timeout); }
  }

  // ----- the whole sweep

  /** The state after the first i records of the list have been visited. */
  function SweptTo(s: Net, i: nat, now: U64, timeout: int): Net
    requires i <= |s.recs|
  {
    var seen := s.recs[..i];
    s.(recs := Survivors([], s.recs, seen, now, timeout), size := s.size - NumExpired(seen, now, timeout),
       fds := s.fds - ExpiredKeys(seen, now, timeout))
  }

  lemma VisitExpired(recs: seq<Rec>, i: nat, now: U64, timeout: int)
    requires i < |recs| && Expired(recs[i], now, timeout)
    ensures var t, m := Survivors([], recs, recs[..i], now, timeout), recs[i].RemoteMac();
            FirstOf(t, m) < |t| && Survivors([], recs, recs[..i + 1], now, timeout) == DropFirst(t, m)
  {
    var seen, e := recs[..i], recs[i];
    assert recs[..i + 1] == seen + [e];
    ExpiredCount(seen, e.RemoteMac(), now, timeout);
    CountNext(seen, e, e.RemoteMac());
    CountPrefix(recs, i + 1, e.RemoteMac());
    assert [] + recs == recs;
    QuotaRaised([], recs, seen, e, now, timeout);
  }

  lemma VisitAlive(recs: seq<Rec>, i: nat, now: U64, timeout: int)
    requires i < |recs| && !Expired(recs[i], now, timeout)
    ensures Survivors([], recs, recs[..i + 1], now, timeout) == Survivors([], recs, recs[..i], now, timeout)
    ensures ExpiredKeys(recs[..i + 1], now, timeout) == ExpiredKeys(recs[..i], now, timeout)
  {
    assert recs[..i + 1] == recs[..i] + [recs[i]];
    QuotaSame([], recs, recs[..i], recs[i], now, timeout);
  }

  lemma NumNext(recs: seq<Rec>, i: nat, now: U64, timeout: int)
    requires i < |recs|
    ensures NumExpired(recs[..i + 1], now, timeout)
         == NumExpired(recs[..i], now, timeout) + if Expired(recs[i], now, timeout) then 1 else 0
  {
    assert recs[..i + 1] == recs[..i] + [recs[i]];
    assert recs[..i + 1][..i] == recs[..i];
  }

  lemma DeleteParts(t: Net, mac: Mac)
    requires FirstOf(t.recs, mac) < |t.recs|
    ensures Delete(t, mac) == Net(t.me, DropFirst(t.recs, mac), t.size - 1, t.fds - {KeyOf(mac)})
  {
    DropFirstCuts(t.recs, mac);
  }

  lemma SweepVisit(s: Net, i: nat, now: U64, timeout: int)
    requires i < |s.recs|
    ensures var t := SweptTo(s, i, now, timeout);
            && SweptTo(s, i + 1, now, timeout) == Visited(t, s.recs[i], now, timeout)
            && (Expired(s.recs[i], now, timeout) ==> FirstOf(t.recs, s.recs[i].RemoteMac()) < |t.recs|)
  {
    NumNext(s.recs, i, now, timeout);
    if Expired(s.recs[i], now, timeout) {
      VisitExpired(s.recs, i, now, timeout);
      KeysNext(s.fds, s.recs, i, now, timeout);
      DeleteParts(SweptTo(s, i, now, timeout), s.recs[i].RemoteMac());
    } else {
      VisitAlive(s.recs, i, now, timeout);
    }
  }

  lemma KeysNext(fds: map<Key, int>, recs: seq<Rec>, i: nat, now: U64, timeout: int)
    requires i < |recs| && Expired(recs[i], now, timeout)
    ensures fds - ExpiredKeys(recs[..i + 1], now, timeout)
         == fds - ExpiredKeys(recs[..i], now, timeout) - {KeyOf(recs[i].RemoteMac())}
  {
    assert recs[..i + 1] == recs[..i] + [recs[i]];
    assert ExpiredKeys(recs[..i + 1], now, timeout)
        == ExpiredKeys(recs[..i], now, timeout) + {KeyOf(recs[i].RemoteMac())};
  }

  lemma {:induction false} SweepsOn(s: Net, i: nat, now: U64, timeout: int)
    requires i <= |s.recs|
    ensures SweepFrom(SweptTo(s, i, now, timeout), s.recs[i..], now, timeout) == SweptTo(s, |s.recs|, now, timeout)
    decreases |s.recs| - i
  {
    if i < |s.recs| {
      SweepVisit(s, i, now, timeout);
      assert s.recs[i..][0] == s.recs[i] && s.recs[i..][1..] == s.recs[i + 1..];
      SweepsOn(s, i + 1, now, timeout);
    }
  }

  /** The exact effect on any list: of each MAC with k expired records the first k records go and the others keep their
      order; `size` falls by the number of expired records; the table loses the keys of exactly the expired ones. */
  lemma SweepEffect(s: Net, now: U64, timeout: int)
    ensures Sweep(s, now, timeout)
         == s.(recs := Survivors([], s.recs, s.recs, now, timeout), size := s.size - NumExpired(s.recs, now, timeout),
               fds := s.fds - ExpiredKeys(s.recs, now, timeout))
  {
    NoQuota([], s.recs, now, timeout);
    assert s.recs[..0] == [] && s.recs[0..] == s.recs && s.recs[..|s.recs|] == s.recs;
    assert s.fds - ExpiredKeys([], now, timeout) == s.fds;
    assert SweptTo(s, 0, now, timeout) == s;
    SweepsOn(s, 0, now, timeout);
  }

  // ----- when it is what its name says

  /** The records that have not expired. */
  function Alive(recs: seq<Rec>, now: U64, timeout: int): seq<Rec> {
    if recs == [] then []
    else
      var tail := Alive(recs[1..], now, timeout);
      if Expired(recs[0], now, timeout) then tail else [recs[0]] + tail
  }

  /** No live record stands before an expired one of its MAC; so in particular where all MACs are different. */
  ghost predicate ExpiredFirst(recs: seq<Rec>, now: U64, timeout: int) {
    forall i, j :: 0 <= i < j < |recs| && recs[i].RemoteMac() == recs[j].RemoteMac() && Expired(recs[j], now, timeout)
      ==> Expired(recs[i], now, timeout)
  }

  lemma {:induction false} CountSplit(recs: seq<Rec>, i: nat, mac: Mac, now: U64, timeout: int)
    requires i <= |recs|
    ensures ExpiredOf(recs[..i], mac, now, timeout) <= ExpiredOf(recs, mac, now, timeout)
    ensures (forall j :: 0 <= j < i && recs[j].RemoteMac() == mac ==> Expired(recs[j], now, timeout))
              ==> ExpiredOf(recs[..i], mac, now, timeout) == CountOf(recs[..i], mac)
    ensures (forall j :: i <= j < |recs| && recs[j].RemoteMac() == mac ==> !Expired(recs[j], now, timeout))
              ==> ExpiredOf(recs, mac, now, timeout) == ExpiredOf(recs[..i], mac, now, timeout)
    decreases |recs|, i
  {
    if i < |recs| {
      assert recs[..i] == recs[..|recs| - 1][..i];
      CountSplit(recs[..|recs| - 1], i, mac, now, timeout);
    } else {
      assert recs[..i] == recs;
      if i > 0 {
        CountSplit(recs, i - 1, mac, now, timeout);
        assert recs[..i - 1] == recs[..|recs| - 1];
      }
    }
  }

  /** With the expired records first, the first k of a MAC are the k expired ones. */
  lemma RankDecides(recs: seq<Rec>, i: nat, now: U64, timeout: int)
    requires i < |recs| && ExpiredFirst(recs, now, timeout)
    ensures var m := recs[i].RemoteMac();
            CountOf(recs[..i], m) >= ExpiredOf(recs, m, now, timeout) <==> !Expired(recs[i], now, timeout)
  {
    var m := recs[i].RemoteMac();
    CountSplit(recs, i, m, now, timeout);
    ExpiredCount(recs[..i], m, now, timeout);
    if Expired(recs[i], now, timeout) {
      CountSplit(recs, i + 1, m, now, timeout);
      assert recs[..i + 1] == recs[..i] + [recs[i]];
      ExpiredNext(recs[..i], recs[i], m, now, timeout);
    }
  }

  lemma {:induction false} SurvivorsAlive(recs: seq<Rec>, i: nat, now: U64, timeout: int)
    requires i <= |recs| && ExpiredFirst(recs, now, timeout)
    ensures Survivors(recs[..i], recs[i..], recs, now, timeout) == Alive(recs[i..], now, timeout)
    decreases |recs| - i
  {
    if i < |recs| {
      RankDecides(recs, i, now, timeout);
      assert recs[i..][0] == recs[i] && recs[i..][1..] == recs[i + 1..] && recs[..i] + [recs[i]] == recs[..i + 1];
      SurvivorsAlive(recs, i + 1, now, timeout);
    }
  }

  lemma {:induction false} LiveAmong(recs: seq<Rec>, i: nat, now: U64, timeout: int)
    requires i < |recs| && !Expired(recs[i], now, timeout)
    ensures ExpiredOf(recs, recs[i].RemoteMac(), now, timeout) < CountOf(recs, recs[i].RemoteMac())
    decreases |recs|
  {
    if i < |recs| - 1 {
      LiveAmong(recs[..|recs| - 1], i, now, timeout);
    } else {
      ExpiredCount(recs[..i], recs[i].RemoteMac(), now, timeout);
    }
  }

  lemma {:induction false} LastExpired(recs: seq<Rec>, j: nat, now: U64, timeout: int) returns (l: nat)
    requires j < |recs| && Expired(recs[j], now, timeout)
    ensures j <= l < |recs| && Expired(recs[l], now, timeout) && recs[l].RemoteMac() == recs[j].RemoteMac()
    ensures forall n :: l < n < |recs| && recs[n].RemoteMac() == recs[l].RemoteMac() ==> !Expired(recs[n], now, timeout)
    decreases |recs| - j
  {
    if n :| j < n < |recs| && recs[n].RemoteMac() == recs[j].RemoteMac() && Expired(recs[n], now, timeout) {
      l := LastExpired(recs, n, now, timeout);
    } else {
      l := j;
    }
  }

  lemma {:induction false} Survives(recs: seq<Rec>, i: nat, l: nat, now: U64, timeout: int)
    requires i <= l < |recs|
    requires CountOf(recs[..l], recs[l].RemoteMac()) >= ExpiredOf(recs, recs[l].RemoteMac(), now, timeout)
    ensures recs[l] in Survivors(recs[..i], recs[i..], recs, now, timeout)
    decreases l - i
  {
    assert recs[i..][0] == recs[i];
    if i < l {
      assert recs[i..][1..] == recs[i + 1..] && recs[..i] + [recs[i]] == recs[..i + 1];
      Survives(recs, i + 1, l, now, timeout);
    }
  }

  lemma {:induction false} AliveAreAlive(recs: seq<Rec>, now: U64, timeout: int)
    ensures forall r {:trigger r in Alive(recs, now, timeout)} ::
              r in Alive(recs, now, timeout) <==> r in recs && !Expired(r, now, timeout)
  {
    if recs != [] { AliveAreAlive(recs[1..], now, timeout); }
  }

  /** A live record before an expired one of its MAC is deleted in its place. */
  lemma ExpiredStays(recs: seq<Rec>, i: nat, j: nat, now: U64, timeout: int)
    requires i < j < |recs| && recs[i].RemoteMac() == recs[j].RemoteMac()
    requires !Expired(recs[i], now, timeout) && Expired(recs[j], now, timeout)
    ensures exists r :: r in Survivors([], recs, recs, now, timeout) && Expired(r, now, timeout)
  {
    var m := recs[j].RemoteMac();
    var l := LastExpired(recs, j, now, timeout);
    assert recs[..l][i] == recs[i];
    LiveAmong(recs[..l], i, now, timeout);
    assert recs[..l + 1] == recs[..l] + [recs[l]];
    ExpiredNext(recs[..l], recs[l], m, now, timeout);
    CountSplit(recs, l + 1, m, now, timeout);
    Survives(recs, 0, l, now, timeout);
    assert recs[..0] == [] && recs[0..] == recs;
  }

  /** The sweep removes exactly the expired records if and only if, MAC by MAC, they come first; in particular it does
      where the remote MACs are distinct. */
  lemma SweepIsFilter(recs: seq<Rec>, now: U64, timeout: int)
    ensures Survivors([], recs, recs, now, timeout) == Alive(recs, now, timeout) <==> ExpiredFirst(recs, now, timeout)
    ensures (forall i, j :: 0 <= i < j < |recs| ==> recs[i].RemoteMac() != recs[j].RemoteMac())
              ==> ExpiredFirst(recs, now, timeout)
  {
    if ExpiredFirst(recs, now, timeout) {
      SurvivorsAlive(recs, 0, now, timeout);
      assert recs[..0] == [] && recs[0..] == recs;
    } else {
      var i, j :| 0 <= i < j < |recs| && recs[i].RemoteMac() == recs[j].RemoteMac() && Expired(recs[j], now, timeout)
        && !Expired(recs[i], now, timeout);
      ExpiredStays(recs, i, j, now, timeout);
      AliveAreAlive(recs, now, timeout);
    }
  }

  // ----- the sweep in milliseconds

  /** Where the remote MACs are distinct, the sweep keeps the records no older than the timeout in seconds. */
  lemma SweepByAge(s: Net, r: Rec, now: U64, timeout: int)
    requires forall i, j :: 0 <= i < j < |s.recs| ==> s.recs[i].RemoteMac() != s.recs[j].RemoteMac()
    ensures r in Sweep(s, now, timeout).recs <==> r in s.recs && now - r.node.id <= timeout * 1000
  {
    SweepEffect(s, now, timeout);
    SweepIsFilter(s.recs, now, timeout);
    AliveAreAlive(s.recs, now, timeout);
  }

  /** On any list, a key goes if and only if some record that has it is older. */
  lemma KeysByAge(s: Net, key: Key, now: U64, timeout: int)
    ensures key in Sweep(s, now, timeout).fds <==>
              && key in s.fds
              && forall r :: r in s.recs && KeyOf(r.RemoteMac()) == key ==> now - r.node.id <= timeout * 1000
  {
    SweepEffect(s, now, timeout);
  }
}
