/**
  The operations of cs352proxy.c on the membership list and the forwarding table, each
  proved against the function of Membership.dfy that says what it does. The clock is
  read once per step and handed in as `now`.
 */
module Proxy {
  import opened Elements
  import opened Wire
  import opened Packets
  import opened Membership
  import opened MemberList
  import opened SocketTable

  class Proxy {
    const me: ProxyInfo
    const list: MemberList
    const sockets: SocketTable

    ghost predicate Valid()
      reads list, set n | n in list.ns
      reads sockets, sockets.Repr(), sockets.entries.Values`value
    {
      list.Valid() && sockets.Valid()
    }

    /** What list and table stand for. */
    ghost function State(): Net
      reads list, sockets
    {
      Net(me, list.recs, list.size, sockets.fds)
    }

    constructor (me: ProxyInfo)
      ensures Valid() && State() == Net(me, [], 0, map[])
      ensures fresh(list) && list.ns == [] && fresh(sockets.Repr())
    {
      this.me := me;
      list := new MemberList();
      sockets := new SocketTable();
      new;
      RecordsOutside(sockets, list, []);
    }

    // ----- one half changes, the other stays

    /** addsockfd. */
    method AddSocket(mac: Mac, fd: int)
      requires Valid() && KeyOf(mac) !in sockets.fds
      modifies sockets.Repr()
      ensures Valid() && ListSame(old(list.ns), old(list.recs), old(list.size))
      ensures sockets.fds == old(sockets.fds)[KeyOf(mac) := fd]
      ensures forall o {:trigger o in sockets.Repr()} :: o in sockets.Repr() ==> o in old(sockets.Repr()) || fresh(o)
    {
      RecordsOutside(sockets, list, list.ns);
      sockets.Add(mac, fd);
    }

    /** deletesockfd. */
    method DropSocket(mac: Mac)
      requires Valid()
      modifies sockets.Repr()
      ensures Valid() && ListSame(old(list.ns), old(list.recs), old(list.size))
      ensures sockets.fds == old(sockets.fds) - {KeyOf(mac)}
      ensures forall o {:trigger o in sockets.Repr()} :: o in sockets.Repr() ==> o in old(sockets.Repr()) || fresh(o)
    {
      RecordsOutside(sockets, list, list.ns);
      sockets.Delete(mac);
    }

    /** `pkt_sockfd->sock_fd = gateway_sockID`, whatever the list looks like. */
    method SetSocket(s: Element, fd: int, ghost key: Key)
      requires sockets.Valid() && key in sockets.fds && sockets.Entry(s, key)
      modifies sockets.Repr()
      ensures sockets.Valid() && ListSame(old(list.ns), old(list.recs), old(list.size))
      ensures old(list.Valid()) ==> list.Valid()
      ensures old(list.Looped()) ==> list.Looped()
      ensures sockets.fds == old(sockets.fds)[key := fd] && sockets.Repr() == old(sockets.Repr())
    {
      RecordsOutside(sockets, list, list.ns);
      sockets.SetSocket(s, fd, key);
    }

    ghost predicate ListSame(ns: seq<LinkNode>, recs: seq<Rec>, size: int)
      reads list
    {
      list.ns == ns && list.recs == recs && list.size == size
    }

    ghost predicate TableSame(fds: map<Key, int>, entries: map<Key, Element>, repr: set<object>)
      reads sockets, sockets.table
    {
      sockets.fds == fds && sockets.entries == entries && sockets.Repr() == repr
    }

    /** What a push leaves behind: a longer list if p was fresh, a ring if it was on the list. */
    ghost predicate Pushed(p: LinkNode, ns: seq<LinkNode>, net: Net)
      reads list, set n | n in list.ns
      reads sockets, sockets.Repr(), sockets.entries.Values`value
    {
      if p in ns then list.Looped() && list.ns == ns else Valid() && State() == net && list.ns == [p] + ns
    }

    /** The state with one record more. */
    ghost function WithRecord(r: Rec): Net
      reads list, sockets
    {
      Net(me, [r] + list.recs, list.size + 1, sockets.fds)
    }

    method PushRecord(p: LinkNode, weight: U32, now: U64, ghost via: int, ghost net: Net)
      requires Valid() && net == WithRecord(Rec(p.Value().(linkweight := weight, id := now), via))
      modifies list, p
      ensures sockets.Valid() && TableSame(old(sockets.fds), old(sockets.entries), old(sockets.Repr()))
      ensures Pushed(p, old(list.ns), net)
    {
      RecordsOutside(sockets, list, [p]);
      list.Push(p, weight, now, via);
    }

    method PushKnown(p: LinkNode, now: U64, ghost via: int, ghost net: Net) returns (nearer: bool)
      requires Valid() && net == WithRecord(Rec(p.Value().(linkweight := Distance(p), id := now), via))
      modifies list, p
      ensures sockets.Valid() && TableSame(old(sockets.fds), old(sockets.entries), old(sockets.Repr()))
      ensures nearer == (old(Distance(p)) < Lowest(old(list.recs), old(p.remote.mac)))
      ensures Pushed(p, old(list.ns), net)
    {
      RecordsOutside(sockets, list, [p]);
      nearer := list.PushKnown(p, now, via);
    }

    /** The weight of a record for a MAC that has a socket. */
    ghost function Distance(p: LinkNode): U32
      reads list, p
    {
      Wrap32(p.linkweight + Lowest(list.recs, p.local.mac))
    }

    /** The gateway of the record that was pushed takes over. */
    method TakeOver(p: LinkNode, s: Element, fd: int, ghost key: Key, ghost ns: seq<LinkNode>, ghost net: Net)
      requires sockets.Valid() && key in sockets.fds && sockets.Entry(s, key) && Pushed(p, ns, net)
      modifies sockets.Repr()
      ensures Pushed(p, ns, net.(fds := net.fds[key := fd])) && sockets.Repr() == old(sockets.Repr())
    {
      SetSocket(s, fd, key);
    }

    /** "But it was me": only the time of a matching record is renewed. */
    method Refresh(p: LinkNode, now: U64)
      requires Valid()
      modifies list, (set n | n in list.ns)`id
      ensures Valid() && TableSame(old(sockets.fds), old(sockets.entries), old(sockets.Repr()))
      ensures ListSame(old(list.ns), Refreshed(old(list.recs), old(p.Value()), now), old(list.size))
    {
      RecordsOutside(sockets, list, list.ns);
      var finder, i := list.InList(p.local, p.remote);
      if finder != null { list.Refresh(finder, now, i); }
    }

    method UnlinkRecord(curr: LinkNode, prev: LinkNode?, ghost i: nat)
      requires Valid() && i < |list.ns| && curr == list.ns[i] && prev == if i == 0 then null else list.ns[i - 1]
      modifies list, set n | n in list.ns
      ensures Valid() && TableSame(old(sockets.fds), old(sockets.entries), old(sockets.Repr()))
      ensures ListSame(old(list.ns)[..i] + old(list.ns)[i + 1..],
                       old(list.recs)[..i] + old(list.recs)[i + 1..], old(list.size) - 1)
    {
      RecordsOutside(sockets, list, list.ns);
      list.Unlink(curr, prev, i);
    }

    // ----- add_member_connect

    /** add_member_connect, for any record; was it pushed? */
    method AddMemberConnect(p: LinkNode, fd: int, now: U64) returns (pushed: bool)
      requires Valid()
      modifies list, p, (set n | n in list.ns), sockets.Repr()
      ensures pushed == Pushes(old(State()), old(p.Value()))
      ensures pushed ==> Pushed(p, old(list.ns), Receive(old(State()), old(p.Value()), fd, now))
      ensures !pushed ==> Valid() && State() == Receive(old(State()), old(p.Value()), fd, now)
      ensures !pushed ==> list.ns == old(list.ns) && p.next == old(p.next)
      ensures forall o {:trigger o in sockets.Repr()} :: o in sockets.Repr() ==> o in old(sockets.Repr()) || fresh(o)
    {
      var s := sockets.Find(p.remote.mac);
      if s == null { pushed := AddUnknown(p, fd, now); } else { pushed := AddKnown(p, s, fd, now); }
    }

    /** The branch for a MAC without a socket. */
    method AddUnknown(p: LinkNode, fd: int, now: U64) returns (pushed: bool)
      requires Valid() && KeyOf(p.remote.mac) !in sockets.fds
      modifies list, p, (set n | n in list.ns), sockets.Repr()
      ensures pushed == Pushes(old(State()), old(p.Value()))
      ensures pushed ==> Pushed(p, old(list.ns), Receive(old(State()), old(p.Value()), fd, now))
      ensures !pushed ==> Valid() && State() == Receive(old(State()), old(p.Value()), fd, now)
      ensures !pushed ==> list.ns == old(list.ns) && p.next == old(p.next)
      ensures forall o {:trigger o in sockets.Repr()} :: o in sockets.Repr() ==> o in old(sockets.Repr()) || fresh(o)
    {
      var zero := CompMacZero(p.remote.mac);
      var mine := CompMacAddrs(p.remote.mac, me.mac);
      pushed := zero == 0 && mine != 0;
      if pushed {
        ReceiveNew(State(), p.Value(), fd, now);
        AddNew(p, fd, now, Receive(State(), p.Value(), fd, now));
      } else {
        AddMine(p, fd, now);
      }
    }

    /** Nothing but the time of a record. */
    method AddMine(p: LinkNode, ghost fd: int, now: U64)
      requires Valid() && KeyOf(p.remote.mac) !in sockets.fds
      requires IsZero(p.remote.mac) || p.remote.mac == me.mac
      modifies list, (set n | n in list.ns)`id
      ensures Valid() && State() == Receive(old(State()), old(p.Value()), fd, now)
      ensures list.ns == old(list.ns) && sockets.Repr() == old(sockets.Repr())
    {
      ReceiveMine(State(), p.Value(), fd, now);
      Refresh(p, now);
    }

    /** A socket and a record for a MAC that had none. */
    method AddNew(p: LinkNode, fd: int, now: U64, ghost net: Net)
      requires Valid() && KeyOf(p.remote.mac) !in sockets.fds
      requires net == Net(me, [Rec(p.Value().(linkweight := Wrap32(p.linkweight + 1), id := now), fd)] + list.recs,
                          list.size + 1, sockets.fds[KeyOf(p.remote.mac) := fd])
      modifies list, p, sockets.Repr()
      ensures Pushed(p, old(list.ns), net)
      ensures forall o {:trigger o in sockets.Repr()} :: o in sockets.Repr() ==> o in old(sockets.Repr()) || fresh(o)
    {
      RecordsOutside(sockets, list, [p]);
      ghost var n := p.Value();
      AddSocket(p.remote.mac, fd);
      assert p.Value() == n;
      PushRecord(p, Wrap32(p.linkweight + 1), now, fd, net);
    }

    /** The branch for a MAC that has the socket in s. */
    method AddKnown(p: LinkNode, s: Element, fd: int, now: U64) returns (pushed: bool)
      requires Valid() && KeyOf(p.remote.mac) in sockets.fds && sockets.Entry(s, KeyOf(p.remote.mac))
      modifies list, p, sockets.Repr()
      ensures pushed == Pushes(old(State()), old(p.Value()))
      ensures pushed ==> Pushed(p, old(list.ns), Receive(old(State()), old(p.Value()), fd, now))
      ensures !pushed ==> Valid() && State() == Receive(old(State()), old(p.Value()), fd, now)
      ensures !pushed ==> list.ns == old(list.ns) && p.next == old(p.next)
      ensures sockets.Repr() == old(sockets.Repr())
    {
      var finder, i := list.InList(p.local, p.remote);
      pushed := finder == null;
      if pushed {
        ReceiveKnown(State(), p.Value(), fd, now, Distance(p));
        AddFurther(p, s, fd, now, WithRecord(Rec(p.Value().(linkweight := Distance(p), id := now), fd)),
                   Receive(State(), p.Value(), fd, now));
      }
    }

    /** A further record for a MAC that has a socket; the socket of the nearer gateway stays. */
    method AddFurther(p: LinkNode, s: Element, fd: int, now: U64, ghost net: Net, ghost goal: Net)
      requires Valid() && KeyOf(p.remote.mac) in sockets.fds && sockets.Entry(s, KeyOf(p.remote.mac))
      requires net == WithRecord(Rec(p.Value().(linkweight := Distance(p), id := now), fd))
      requires goal == if Distance(p) < Lowest(list.recs, p.remote.mac)
                       then net.(fds := net.fds[KeyOf(p.remote.mac) := fd]) else net
      modifies list, p, sockets.Repr()
      ensures Pushed(p, old(list.ns), goal)
      ensures sockets.Repr() == old(sockets.Repr())
    {
      ghost var key, ns := KeyOf(p.remote.mac), list.ns;
      var nearer := PushKnown(p, now, fd, net);
      if nearer { TakeOver(p, s, fd, key, ns, net); }
    }

    // ----- add_members

    /** Before a push the loop of add_members stands in the packet, at the records todo, which will come to o. */
    ghost predicate InPacket(ptr: LinkNode?, todo: seq<LinkNode>, fd: int, now: U64, o: Outcome)
      reads list, (set n | n in list.ns), set n | n in todo
      reads sockets, sockets.Repr(), sockets.entries.Values`value
    {
      && Valid() && Todo(ptr, todo, list.ns)
      && Membership.AddMembers(State(), Values(todo), fd, now) == o
    }

    /** After one it has strayed into the list, before its i-th record. */
    ghost predicate InList(ptr: LinkNode?, i: nat, fd: int, now: U64, o: Outcome)
      reads list, set n | n in list.ns
      reads sockets, sockets.Repr(), sockets.entries.Values`value
    {
      && Valid() && i <= |list.ns| && ptr == (if i < |list.ns| then list.ns[i] else null)
      && Revisit(State(), i, fd, now) == o
    }

    /** One turn of the loop at a record of the packet. */
    method PacketTurn(ptr: LinkNode, fd: int, now: U64, ghost todo: seq<LinkNode>, ghost o: Outcome)
      returns (next: LinkNode?, pushed: bool)
      requires todo != [] && InPacket(ptr, todo, fd, now, o)
      modifies list, ptr, (set n | n in list.ns), sockets.Repr()
      ensures if pushed then InList(next, 1, fd, now, o) else InPacket(next, todo[1..], fd, now, o)
      ensures Within(list.ns, old(list.ns), todo) && Within(todo[1..], todo, todo)
      ensures forall o {:trigger o in sockets.Repr()} :: o in sockets.Repr() ==> o in old(sockets.Repr()) || fresh(o)
    {
      assert todo[0] in todo && ptr == todo[0];
      pushed := ReceiveTodo(ptr, fd, now, todo);
      next := ptr.next;
      assert pushed ==> ptr == list.ns[0];
    }

    /** add_member_connect for the first of the records todo: the others stay. */
    method ReceiveTodo(ptr: LinkNode, fd: int, now: U64, ghost todo: seq<LinkNode>) returns (pushed: bool)
      requires Valid() && todo != [] && Todo(ptr, todo, list.ns)
      modifies list, ptr, (set n | n in list.ns), sockets.Repr()
      ensures Valid() && pushed == Pushes(old(State()), old(Values(todo))[0])
      ensures State() == Receive(old(State()), old(Values(todo))[0], fd, now)
      ensures list.ns == if pushed then [ptr] + old(list.ns) else old(list.ns)
      ensures Values(todo[1..]) == old(Values(todo))[1..]
      ensures !pushed ==> Todo(ptr.next, todo[1..], list.ns)
      ensures forall o {:trigger o in sockets.Repr()} :: o in sockets.Repr() ==> o in old(sockets.Repr()) || fresh(o)
    {
      RecordsOutside(sockets, list, todo);
      assert todo[0] in todo && ptr == todo[0];
      pushed := AddMemberConnect(ptr, fd, now);
      forall k | 1 <= k < |todo|
        ensures todo[k].next == if k + 1 < |todo| then todo[k + 1] else null
        ensures todo[k].Value() == old(todo[k].Value())
      {
        assert todo[k] in todo && old(todo[k].next) == if k + 1 < |todo| then todo[k + 1] else null;
      }
      if !pushed { TodoRest(ptr.next, todo, list.ns); }
    }

    /** One turn of the loop at the i-th record of the list. */
    method ListTurn(ptr: LinkNode, fd: int, now: U64, ghost i: nat, ghost o: Outcome)
      returns (next: LinkNode?, pushed: bool)
      requires i < |list.ns| && InList(ptr, i, fd, now, o)
      modifies list, (set n | n in list.ns), sockets.Repr()
      ensures list.ns == old(list.ns)
      ensures if pushed then list.Looped() && o == Endless else InList(next, i + 1, fd, now, o)
      ensures forall o {:trigger o in sockets.Repr()} :: o in sockets.Repr() ==> o in old(sockets.Repr()) || fresh(o)
    {
      assert list.ns[i].Value() == list.recs[i].node;
      pushed := AddMemberConnect(ptr, fd, now);
      next := ptr.next;
      if !pushed { assert list.ns[i].next == if i + 1 < |list.ns| then list.ns[i + 1] else null; }
    }

    /** Where the loop stands. */
    ghost predicate Walking(ptr: LinkNode?, strayed: bool, i: nat, todo: seq<LinkNode>, fd: int, now: U64, o: Outcome)
      reads list, (set n | n in list.ns), set n | n in todo
      reads sockets, sockets.Repr(), sockets.entries.Values`value
    {
      if strayed then InList(ptr, i, fd, now, o) else InPacket(ptr, todo, fd, now, o)
    }

    /** One turn of the loop, wherever it stands. */
    method Turn(ptr: LinkNode, strayed: bool, fd: int, now: U64,
                ghost i: nat, ghost todo: seq<LinkNode>, ghost o: Outcome)
      returns (next: LinkNode?, strayed': bool, looped: bool, ghost i': nat, ghost todo': seq<LinkNode>)
      requires Walking(ptr, strayed, i, todo, fd, now, o)
      modifies list, (set n | n in todo), (set n | n in list.ns), sockets.Repr()
      ensures if looped then list.Looped() && o == Endless else Walking(next, strayed', i', todo', fd, now, o)
      ensures !looped && strayed ==> strayed' && i' == i + 1 <= |list.ns| == |old(list.ns)|
      ensures !looped && !strayed && !strayed' ==> |todo'| < |todo|
      ensures Within(list.ns, old(list.ns), todo) && Within(todo', todo, todo)
      ensures forall o {:trigger o in sockets.Repr()} :: o in sockets.Repr() ==> o in old(sockets.Repr()) || fresh(o)
    {
      looped, strayed', i', todo' := false, strayed, i + 1, todo;
      if strayed {
        next, looped := ListTurn(ptr, fd, now, i, o);
      } else {
        assert todo[0] in todo && ptr == todo[0];
        next, strayed' := PacketTurn(ptr, fd, now, todo, o);
        i', todo' := 1, todo[1..];
      }
    }

    /** add_members for the fresh records of a packet. Where it returns it does what the model says; where the code
        would go round for ever, the list has become a ring, and this method stops and says so. */
    method AddMembers(first: LinkNode?, fd: int, now: U64, ghost ps: seq<LinkNode>) returns (ended: bool)
      requires Valid() && Todo(first, ps, list.ns)
      modifies list, (set n | n in ps), (set n | n in list.ns), sockets.Repr()
      ensures var o := Membership.AddMembers(old(State()), old(Values(ps)), fd, now);
              if ended then Valid() && o == Returns(State()) else o == Endless && list.Looped()
      ensures forall o {:trigger o in sockets.Repr()} :: o in sockets.Repr() ==> o in old(sockets.Repr()) || fresh(o)
    {
      ghost var o := Membership.AddMembers(State(), Values(ps), fd, now);
      var ptr, strayed, looped := first, false, false;
      ghost var i, todo := 0, ps;
      while ptr != null && !looped
        invariant if looped then list.Looped() && o == Endless else Walking(ptr, strayed, i, todo, fd, now, o)
        invariant Within(list.ns, old(list.ns), ps) && Within(todo, ps, ps)
        invariant forall o {:trigger o in sockets.Repr()} :: o in sockets.Repr() ==>
                    o in old(sockets.Repr()) || fresh(o)
        decreases !looped, !strayed, if strayed then |list.ns| - i else |todo|
      {
        ptr, strayed, looped, i, todo := Turn(ptr, strayed, fd, now, i, todo, o);
      }
      return !looped;
    }

    // ----- delete_members

    /** delete_members, for the MAC of a record that may itself be on the list; i says which record goes. */
    method DeleteMembers(link: LinkNode) returns (ghost i: nat)
      requires Valid()
      modifies list, (set n | n in list.ns), sockets.Repr()
      ensures Valid() && State() == Delete(old(State()), old(link.remote.mac))
      ensures i == FirstOf(old(list.recs), old(link.remote.mac))
      ensures i < |old(list.ns)| ==> ListSame(old(list.ns)[..i] + old(list.ns)[i + 1..],
                                              old(list.recs)[..i] + old(list.recs)[i + 1..], old(list.size) - 1)
      ensures i == |old(list.ns)| ==> ListSame(old(list.ns), old(list.recs), old(list.size))
      ensures forall o {:trigger o in sockets.Repr()} :: o in sockets.Repr() ==> o in old(sockets.Repr()) || fresh(o)
    {
      var curr, prev;
      curr, prev, i := list.FindFirst(link.remote.mac);
      if curr != null {
        assert curr.Value() == list.recs[i].node;
        RemoveRecord(curr, prev, i);
      }
    }

    /** The socket goes, then the record. */
    method RemoveRecord(curr: LinkNode, prev: LinkNode?, ghost i: nat)
      requires Valid() && i < |list.ns| && curr == list.ns[i] && prev == if i == 0 then null else list.ns[i - 1]
      modifies list, (set n | n in list.ns), sockets.Repr()
      ensures Valid() && sockets.fds == old(sockets.fds) - {KeyOf(old(curr.remote.mac))}
      ensures ListSame(old(list.ns)[..i] + old(list.ns)[i + 1..],
                       old(list.recs)[..i] + old(list.recs)[i + 1..], old(list.size) - 1)
      ensures forall o {:trigger o in sockets.Repr()} :: o in sockets.Repr() ==> o in old(sockets.Repr()) || fresh(o)
    {
      DropSocket(curr.remote.mac);
      UnlinkRecord(curr, prev, i);
    }

    // ----- removeExpiredMembers

    /** delete_members for the i-th of the records there were when the sweep began; what lies ahead is not touched. */
    method DeleteVisited(ptr: LinkNode, ghost i: nat, ghost ns: seq<LinkNode>, ghost recs: seq<Rec>)
      requires Valid() && i < |ns| && ptr == ns[i] && Ahead(list.ns, list.recs, ns, recs, i)
      modifies list, (set n | n in list.ns), sockets.Repr()
      ensures Valid() && Ahead(list.ns, list.recs, ns, recs, i + 1)
      ensures State() == Delete(old(State()), recs[i].RemoteMac())
      ensures Shrunk(list.ns, old(list.ns))
      ensures forall o {:trigger o in sockets.Repr()} :: o in sockets.Repr() ==> o in old(sockets.Repr()) || fresh(o)
    {
      ghost var d := |ns| - |list.ns|;
      assert list.ns[i - d].Value() == list.recs[i - d].node && list.recs[i - d] == recs[i];
      ghost var was, wasRecs := list.ns, list.recs;
      ghost var k := DeleteMembers(ptr);
      AheadAfter(was, wasRecs, ns, recs, i, k);
    }

    /** One turn of the loop in removeExpiredMembers. */
    method Visit(ptr: LinkNode, timeout: int, now: U64, ghost i: nat, ghost ns: seq<LinkNode>, ghost recs: seq<Rec>)
      returns (next: LinkNode?)
      requires Valid() && i < |ns| && ptr == ns[i] && Ahead(list.ns, list.recs, ns, recs, i)
      modifies list, (set n | n in list.ns), sockets.Repr()
      ensures Valid() && Ahead(list.ns, list.recs, ns, recs, i + 1)
      ensures State() == Visited(old(State()), recs[i], now, timeout)
      ensures next == if i + 1 < |ns| then ns[i + 1] else null
      ensures Shrunk(list.ns, old(list.ns))
      ensures forall o {:trigger o in sockets.Repr()} :: o in sockets.Repr() ==> o in old(sockets.Repr()) || fresh(o)
    {
      ghost var d := |ns| - |list.ns|;
      assert list.ns[i - d].Value() == list.recs[i - d].node;
      assert list.ns[i - d].next == if i - d + 1 < |list.ns| then list.ns[i - d + 1] else null;
      next := ptr.next;
      if now - ptr.id > timeout * 1000 { DeleteVisited(ptr, i, ns, recs); }
    }

    /** The sweep stands before the i-th record, and what is left of it leads to the goal. */
    ghost predicate Sweeping(i: nat, ns: seq<LinkNode>, recs: seq<Rec>, timeout: int, now: U64, goal: Net)
      reads list, set n | n in list.ns
      reads sockets, sockets.Repr(), sockets.entries.Values`value
    {
      Valid() && Ahead(list.ns, list.recs, ns, recs, i) && SweepFrom(State(), recs[i..], now, timeout) == goal
    }

    method SweepNext(ptr: LinkNode, timeout: int, now: U64, ghost i: nat, ghost ns: seq<LinkNode>, ghost recs: seq<Rec>,
                     ghost goal: Net)
      returns (next: LinkNode?)
      requires Sweeping(i, ns, recs, timeout, now, goal) && i < |ns| && ptr == ns[i]
      modifies list, (set n | n in list.ns), sockets.Repr()
      ensures Sweeping(i + 1, ns, recs, timeout, now, goal)
      ensures next == if i + 1 < |ns| then ns[i + 1] else null
      ensures Shrunk(list.ns, old(list.ns))
      ensures forall o {:trigger o in sockets.Repr()} :: o in sockets.Repr() ==> o in old(sockets.Repr()) || fresh(o)
    {
      assert recs[i..][0] == recs[i] && recs[i..][1..] == recs[i + 1..];
      next := Visit(ptr, timeout, now, i, ns, recs);
    }

    /** The loop of removeExpiredMembers. */
    method SweepAll(timeout: int, now: U64, ghost ns: seq<LinkNode>, ghost recs: seq<Rec>, ghost goal: Net)
      requires Sweeping(0, ns, recs, timeout, now, goal) && list.ns == ns
      modifies list, (set n | n in list.ns), sockets.Repr()
      ensures Sweeping(|ns|, ns, recs, timeout, now, goal)
      ensures forall o {:trigger o in sockets.Repr()} :: o in sockets.Repr() ==> o in old(sockets.Repr()) || fresh(o)
    {
      ghost var i := 0;
      var ptr := list.head;
      while ptr != null
        invariant i <= |ns| && ptr == (if i < |ns| then ns[i] else null)
        invariant Sweeping(i, ns, recs, timeout, now, goal)
        invariant Shrunk(list.ns, old(list.ns))
        invariant forall o {:trigger o in sockets.Repr()} :: o in sockets.Repr() ==>
                    o in old(sockets.Repr()) || fresh(o)
        decreases |ns| - i
      {
        ptr := SweepNext(ptr, timeout, now, i, ns, recs, goal);
        i := i + 1;
      }
    }

    /** removeExpiredMembers. */
    method RemoveExpiredMembers(timeout: int, now: U64)
      requires Valid()
      modifies list, (set n | n in list.ns), sockets.Repr()
      ensures Valid() && State() == Sweep(old(State()), now, timeout)
      ensures forall o {:trigger o in sockets.Repr()} :: o in sockets.Repr() ==> o in old(sockets.Repr()) || fresh(o)
    {
      ghost var ns, recs := list.ns, list.recs;
      assert recs[0..] == recs;
      SweepAll(timeout, now, ns, recs, Sweep(State(), now, timeout));
    }

    // ----- TCPHandle and create_link_packet

    /** Both handshake branches of TCPHandle up to the answer: a new peer, one hop away, with the MAC passed. */
    method AddPeer(source: ProxyInfo, mac: Mac, fd: int, now: U64)
      requires Valid() && KeyOf(source.mac) !in sockets.fds
      modifies list, sockets.Repr()
      ensures Valid() && State() == Hello(old(State()), source, mac, fd, now)
      ensures list.ns != [] && fresh(list.ns[0]) && list.ns == [list.ns[0]] + old(list.ns)
      ensures forall o {:trigger o in sockets.Repr()} :: o in sockets.Repr() ==> o in old(sockets.Repr()) || fresh(o)
    {
      ghost var s := State();
      AddSocket(source.mac, fd);
      var p := new LinkNode(Node(me, source.(mac := mac), 1, now), null);
      PushRecord(p, 1, now, fd, Hello(s, source, mac, fd, now));
    }

    /** The list is cut after its head, and the head encoded for the peer. */
    method Answer(buffer: array<Byte>, host: Host)
      requires Valid() && list.head != null && buffer.Length == 54 && host.Valid()
      modifies list, list.head, buffer, host`typ
      ensures Valid() && State() == Reply(old(State())) && host.Valid()
      ensures list.recs != [] && buffer[..] == Encode(ReplyOf(State()))
    {
      CutAfterHead();
      SendHead(buffer, host);
    }

    method CutAfterHead()
      requires Valid() && list.head != null
      modifies list, list.head
      ensures Valid() && State() == Reply(old(State())) && list.head == old(list.head) && |list.ns| == 1
    {
      RecordsOutside(sockets, list, list.ns);
      list.CutAfterHead();
    }

    method SendHead(buffer: array<Byte>, host: Host)
      requires Valid() && |list.ns| == 1 && buffer.Length == 54 && host.Valid()
      modifies buffer, host`typ
      ensures Valid() && host.Valid() && list.recs != [] && buffer[..] == Encode(ReplyOf(State()))
    {
      BufferOutside(sockets, buffer, host);
      EncodeReply(buffer, host);
    }

    method EncodeReply(buffer: array<Byte>, host: Host)
      requires list.Valid() && |list.ns| == 1 && buffer.Length == 54 && host.Valid()
      modifies buffer, host`typ
      ensures host.Valid() && buffer[..] == Encode(ReplyOf(State()))
    {
      var pkt := new LinkPacket(Header(PKT_LINKSTATE, 50), list.size % 0x1_0000, me, list.head);
      ghost var sent := HtonLinkstate(pkt, buffer, host, list.ns);
      assert sent.nodes == [list.recs[0].node] by { assert list.ns[0].Value() == list.recs[0].node; }
    }

    /** The packet that comes back after a first one: the sender joins, then its records are received. */
    method HandleBack(first: LinkNode, source: ProxyInfo, fd: int, now: U64, ghost ps: seq<LinkNode>)
      returns (ended: bool)
      requires Valid() && Todo(first, ps, list.ns) && KeyOf(source.mac) !in sockets.fds
      modifies list, (set n | n in ps), (set n | n in list.ns), sockets.Repr()
      ensures var h := Hello(old(State()), source, source.mac, fd, now);
              var o := Membership.AddMembers(h, old(Values(ps)), fd, now);
              if ended then Valid() && o == Returns(State()) else o == Endless && list.Looped()
    {
      RecordsOutside(sockets, list, ps);
      AddPeer(source, source.mac, fd, now);
      assert Todo(first, ps, list.ns);
      ended := AddMembers(first, fd, now, ps);
    }

    /** A first packet: its record is completed with this proxy's MAC, the sender joins, and the reply is made. */
    method HandleFirst(first: LinkNode, source: ProxyInfo, fd: int, now: U64, buffer: array<Byte>, host: Host)
      requires Valid() && first !in list.ns && KeyOf(source.mac) !in sockets.fds && buffer.Length == 54 && host.Valid()
      modifies list, first, (set n | n in list.ns), sockets.Repr(), buffer, host`typ
      ensures Valid() && host.Valid()
      ensures State() == Reply(Hello(old(State()), source, old(first.local.mac), fd, now))
      ensures list.recs != [] && buffer[..] == Encode(ReplyOf(State()))
    {
      RecordsOutside(sockets, list, [first]);
      BufferOutside(sockets, buffer, host);
      var mac := first.local.mac;
      first.remote := first.remote.(mac := me.mac);
      AddPeer(source, mac, fd, now);
      Answer(buffer, host);
    }

    /** TCPHandle for a link-state packet; sending the reply is left to the caller. */
    method HandleLinkstate(pkt: LinkPacket, fd: int, now: U64, buffer: array<Byte>, host: Host, ghost ps: seq<LinkNode>)
      returns (ended: bool, answered: bool)
      requires Valid() && pkt.list != null && Todo(pkt.list, ps, list.ns) && buffer.Length == 54 && host.Valid()
      modifies list, (set n | n in ps), (set n | n in list.ns), sockets.Repr(), buffer, host`typ
      ensures var o := Handle(old(State()), old(pkt.numNeighbors), old(pkt.source), old(Values(ps)), fd, now);
              if ended then Valid() && o == Returns(State()) else o == Endless && list.Looped()
      ensures answered <==> && KeyOf(old(pkt.source.mac)) !in old(sockets.fds)
                            && !IsZero(old(pkt.list.remote.mac)) && old(pkt.numNeighbors) == 1
      ensures answered ==> host.Valid() && list.recs != [] && buffer[..] == Encode(ReplyOf(State()))
    {
      ended, answered := true, false;
      var s := sockets.Find(pkt.source.mac);
      var zero := CompMacZero(pkt.list.remote.mac);
      if s != null {
        ended := AddMembers(pkt.list, fd, now, ps);
      } else if zero != 0 {
        ended := HandleBack(pkt.list, pkt.source, fd, now, ps);
      } else if pkt.numNeighbors == 1 {
        assert ps[0] in ps;
        HandleFirst(pkt.list, pkt.source, fd, now, buffer, host);
        answered := true;
      }
    }

    /** create_link_packet; nodeSize is the size of a record in memory without its `next`. */
    method CreateLinkPacket(nodeSize: nat) returns (pkt: LinkPacket?)
      requires Valid()
      ensures pkt == null <==> list.head == null
      ensures pkt != null ==> fresh(pkt) && pkt.list == list.head && Nodes(pkt.list, list.ns, null)
      ensures pkt != null ==>
                Link(pkt.head, pkt.numNeighbors, pkt.source, Values(list.ns)) == LinkOf(State(), nodeSize)
    {
      if list.head == null { return null; }
      var head := Header(PKT_LINKSTATE, HeaderLength(nodeSize, list.size));
      pkt := new LinkPacket(head, list.size % 0x1_0000, me, list.head);
      assert Values(list.ns) == NodesOf(list.recs);
    }
  }

  ghost predicate Within(now: seq<LinkNode>, was: seq<LinkNode>, ps: seq<LinkNode>) {
    forall n {:trigger n in now} :: n in now ==> n in was || n in ps
  }

  /** Records of a packet that are linked, different, and not on the list. */
  ghost predicate Todo(ptr: LinkNode?, todo: seq<LinkNode>, ns: seq<LinkNode>)
    reads set n | n in todo
  {
    Nodes(ptr, todo, null) && NoDup(todo) && forall n {:trigger n in todo} :: n in todo ==> n !in ns
  }

  lemma TodoRest(ptr: LinkNode?, todo: seq<LinkNode>, ns: seq<LinkNode>)
    requires todo != [] && NoDup(todo) && forall n {:trigger n in todo} :: n in todo ==> n !in ns
    requires ptr == if |todo| > 1 then todo[1] else null
    requires forall k {:trigger todo[k].next} :: 1 <= k < |todo| ==>
               todo[k].next == if k + 1 < |todo| then todo[k + 1] else null
    ensures Todo(ptr, todo[1..], ns)
  {
    var rest := todo[1..];
    forall k | 0 <= k < |rest| ensures rest[k].next == if k + 1 < |rest| then rest[k + 1] else null {
      assert rest[k] == todo[k + 1];
    }
    forall n | n in rest ensures n !in ns { assert n in todo; }
  }

  /** From the i-th on, the list is still as it was when it was ns and recs. */
  ghost predicate Ahead(now: seq<LinkNode>, nowRecs: seq<Rec>, ns: seq<LinkNode>, recs: seq<Rec>, i: nat) {
    && |now| == |nowRecs| && |ns| == |recs| && |now| <= |ns|
    && var d := |ns| - |now|;
       && d <= i <= |ns|
       && forall j {:trigger ns[j]} {:trigger recs[j]} :: i <= j < |ns| ==>
            now[j - d] == ns[j] && nowRecs[j - d] == recs[j]
  }

  ghost predicate Shrunk(now: seq<LinkNode>, was: seq<LinkNode>) {
    forall n {:trigger n in now} :: n in now ==> n in was
  }

  lemma AheadAfter(now: seq<LinkNode>, nowRecs: seq<Rec>, ns: seq<LinkNode>, recs: seq<Rec>, i: nat, k: nat)
    requires i < |ns| && Ahead(now, nowRecs, ns, recs, i) && k <= i - (|ns| - |now|)
    ensures Ahead(now, nowRecs, ns, recs, i + 1)
    ensures Ahead(now[..k] + now[k + 1..], nowRecs[..k] + nowRecs[k + 1..], ns, recs, i + 1)
    ensures Shrunk(now[..k] + now[k + 1..], now)
  {
  }

  /** The reply is understood: its length stands for the one record it has. */
  lemma ReplyUnderstood(sent: Link, buffer: seq<Byte>)
    requires sent.head.length == 50 && |sent.nodes| == 1 && buffer == Encode(sent)
    ensures LengthField(buffer) == 50 && Decode(buffer) == sent
  {
    LinkRoundTrip(sent, buffer);
  }
}
