/** One pass of the server's `select` loop (chatserver.c, `main`): the client
    sockets 3..maxsd that are ready are serviced in ascending order, the
    listening socket is skipped, and afterwards a pending connection is
    accepted. What `select`, `recvpkt` and `accept` return are inputs: the
    ready set, the packet (or the failure) each ready client yields, and the
    accepted descriptor (-1 when `accept` fails). */
module EventLoop {
  import opened Wrappers
  import opened Bytes
  import opened Protocol
  import opened Rooms
  import opened Registry

  /** Descriptors 0, 1 and 2 are the standard streams; the scan starts
      after them. */
  const FIRST_CLIENT := 3

  /** The `switch (pkt->type)`: the join request is split at its first NUL
      into group and member name, a relayed text is the C string at the
      start of the payload, and any other type falls through untouched. */
  function Dispatch(t: Table, sock: int, p: Packet): (r: Table)
    ensures p.kind > USER_TEXT ==> r == t
    ensures p.kind == LIST_GROUPS || p.kind == USER_TEXT ==> r.groups == t.groups
    ensures p.kind == LEAVE_GROUP ==> r.outbox == t.outbox
    ensures t.outbox <= r.outbox
  {
    if p.kind == LIST_GROUPS then List(t, sock)
    else if p.kind == JOIN_GROUP then Join(t, sock, FirstTwo(p.text).0, FirstTwo(p.text).1)
    else if p.kind == LEAVE_GROUP then Leave(t, sock)
    else if p.kind == USER_TEXT then Relay(t, sock, CPrefix(p.text))
    else t
  }

  /** One ready client: a failed `recvpkt` makes the server drop the member
      on that socket (`leavegroup`) and clear the socket from the live set;
      a packet is dispatched. */
  function Service(t: Table, live: set<int>, sock: int, got: Option<Packet>): (r: (Table, set<int>))
    ensures got.None? ==> r.1 == live - {sock} && r.0.outbox == t.outbox
    ensures got.Some? ==> r.1 == live
    ensures t.outbox <= r.0.outbox
  {
    match got
    case None => (Leave(t, sock), live - {sock})
    case Some(p) => (Dispatch(t, sock, p), live)
  }

  predicate Serviced(ready: set<int>, servsock: int, s: int) {
    s in ready && s != servsock
  }

  /** Every ready client in `from..maxsd` has an outcome of `recvpkt`. */
  predicate Covered(ready: set<int>, received: map<int, Option<Packet>>, servsock: int, from: int, maxsd: int) {
    forall s :: Serviced(ready, servsock, s) && from <= s <= maxsd ==> s in received
  }

  /** The `for (sock = from; sock <= maxsd; sock++)` loop over the clients. */
  function Services(t: Table, live: set<int>, ready: set<int>, received: map<int, Option<Packet>>,
                    servsock: int, sock: int, maxsd: int): (r: (Table, set<int>))
    requires Covered(ready, received, servsock, sock, maxsd)
    ensures t.outbox <= r.0.outbox && r.1 <= live
    ensures sock > maxsd ==> r == (t, live)
    decreases maxsd - sock
  {
    if sock > maxsd then (t, live)
    else if !Serviced(ready, servsock, sock) then Services(t, live, ready, received, servsock, sock + 1, maxsd)
    else
      var (t', live') := Service(t, live, sock, received[sock]);
      Services(t', live', ready, received, servsock, sock + 1, maxsd)
  }

  /** The accept step: when the listening socket is ready, a new descriptor
      joins the live set and raises `maxsd` if it is larger; a failed
      `accept` ends the server (None). */
  function Accepted(live: set<int>, maxsd: int, servsock: int, ready: set<int>, csd: int): (r: Option<(set<int>, int)>)
    ensures servsock !in ready ==> r == Some((live, maxsd))
    ensures servsock in ready && csd != -1 ==>
      r.Some? && r.value.0 == live + {csd} && r.value.1 >= maxsd && r.value.1 >= csd
      && (r.value.1 == maxsd || r.value.1 == csd)
    ensures r.None? <==> servsock in ready && csd == -1
  {
    if servsock !in ready then Some((live, maxsd))
    else if csd == -1 then None
    else Some((live + {csd}, if csd > maxsd then csd else maxsd))
  }

  /** What the C code needs to stay inside its buffers while servicing `p`:
      the listing and the relayed text fit a packet buffer, and the join
      request and the text hold the NULs the server reads up to. */
  predicate Safe(t: Table, sock: int, p: Packet) {
    && (p.kind == LIST_GROUPS ==> |ListingOf(t.groups)| <= MAXPKTLEN)
    && (p.kind == JOIN_GROUP ==> HasTwoFields(p.text))
    && (p.kind == USER_TEXT ==> |CPrefix(p.text)| < |p.text| && RelayFits(t.groups, sock, CPrefix(p.text)))
  }

  /** Every packet of the round is serviced safely in the state it meets. */
  predicate RoundSafe(t: Table, ready: set<int>, received: map<int, Option<Packet>>,
                      servsock: int, sock: int, maxsd: int)
    requires Covered(ready, received, servsock, sock, maxsd)
    decreases maxsd - sock
  {
    if sock > maxsd then true
    else if !Serviced(ready, servsock, sock) then RoundSafe(t, ready, received, servsock, sock + 1, maxsd)
    else
      && (received[sock].Some? ==> Safe(t, sock, received[sock].value))
      && RoundSafe(Service(t, {}, sock, received[sock]).0, ready, received, servsock, sock + 1, maxsd)
  }

  /** The sockets of `from..maxsd` whose read failed in this round. */
  function Failed(ready: set<int>, received: map<int, Option<Packet>>, servsock: int, from: int, maxsd: int): set<int>
  {
    set s | s in ready && s in received && s != servsock && from <= s <= maxsd && received[s].None?
  }

  // ------------------------------------------------------------ properties

  /** Every kind of request keeps the registry invariant and the capacity
      bound. */
  lemma DispatchKeepsInvariants(t: Table, sock: int, p: Packet)
    requires Consistent(t.groups)
    ensures Consistent(Dispatch(t, sock, p).groups)
    ensures WithinCapacity(t.groups) ==> WithinCapacity(Dispatch(t, sock, p).groups)
  {
    if p.kind == JOIN_GROUP {
      JoinKeepsConsistent(t.groups, sock, FirstTwo(p.text).0, FirstTwo(p.text).1);
      if WithinCapacity(t.groups) {
        JoinKeepsCapacity(t.groups, sock, FirstTwo(p.text).0, FirstTwo(p.text).1);
      }
    } else if p.kind == LEAVE_GROUP {
      LeaveKeepsConsistent(t.groups, sock);
      if WithinCapacity(t.groups) {
        LeaveKeepsCapacity(t.groups, sock);
      }
    }
  }

  /** A whole round keeps the registry invariant and the capacity bound, only
      appends to what was sent, and removes from the live set exactly the
      clients whose read failed. */
  lemma {:induction false} ServicesKeepInvariants(t: Table, live: set<int>, ready: set<int>,
                                                 received: map<int, Option<Packet>>,
                                                 servsock: int, sock: int, maxsd: int)
    requires Covered(ready, received, servsock, sock, maxsd)
    requires Consistent(t.groups)
    ensures var (t', live') := Services(t, live, ready, received, servsock, sock, maxsd);
      && Consistent(t'.groups)
      && (WithinCapacity(t.groups) ==> WithinCapacity(t'.groups))
      && t.outbox <= t'.outbox
      && live' == live - Failed(ready, received, servsock, sock, maxsd)
    decreases maxsd - sock
  {
    if sock > maxsd {
      assert Failed(ready, received, servsock, sock, maxsd) == {};
    } else {
      var (t1, live1) :=
        if Serviced(ready, servsock, sock) then Service(t, live, sock, received[sock]) else (t, live);
      if Serviced(ready, servsock, sock) {
        match received[sock]
        case None =>
          LeaveKeepsConsistent(t.groups, sock);
          if WithinCapacity(t.groups) {
            LeaveKeepsCapacity(t.groups, sock);
          }
        case Some(p) =>
          DispatchKeepsInvariants(t, sock, p);
      }
      ServicesKeepInvariants(t1, live1, ready, received, servsock, sock + 1, maxsd);
      var rest := Failed(ready, received, servsock, sock + 1, maxsd);
      if Serviced(ready, servsock, sock) && received[sock].None? {
        assert Failed(ready, received, servsock, sock, maxsd) == rest + {sock};
      } else {
        assert Failed(ready, received, servsock, sock, maxsd) == rest;
      }
    }
  }

  /** No request but a join made on socket `s` itself gives `s` a member. */
  lemma DispatchAddsNoSock(t: Table, sock: int, p: Packet, s: int)
    requires !HasSock(t.groups, s) && (p.kind == JOIN_GROUP ==> sock != s)
    ensures !HasSock(Dispatch(t, sock, p).groups, s)
  {
    if p.kind == JOIN_GROUP {
      JoinAddsOnlyItsSock(t.groups, sock, FirstTwo(p.text).0, FirstTwo(p.text).1, s);
    } else if p.kind == LEAVE_GROUP {
      LeaveAddsNoSock(t.groups, sock, s);
    }
  }

  /** Removing one member, or adding one on another socket, keeps `s` on at
      most one member. */
  lemma DispatchKeepsSockUnique(t: Table, sock: int, p: Packet, s: int)
    requires SockUnique(t.groups, s) && (p.kind == JOIN_GROUP ==> sock != s)
    ensures SockUnique(Dispatch(t, sock, p).groups, s)
  {
    if p.kind == JOIN_GROUP {
      JoinKeepsSockUnique(t.groups, sock, FirstTwo(p.text).0, FirstTwo(p.text).1, s);
    } else if p.kind == LEAVE_GROUP {
      LeaveKeepsSockUnique(t.groups, sock, s);
    }
  }

  /** A client whose read failed has no member left when the round ends,
      provided it spoke through at most one member: the round runs
      `leavegroup` for it, and no later request can join on its socket. */
  lemma {:induction false} FailedClientLeaves(t: Table, live: set<int>, ready: set<int>,
                                             received: map<int, Option<Packet>>,
                                             servsock: int, sock: int, maxsd: int, s: int)
    requires Covered(ready, received, servsock, sock, maxsd)
    requires s in Failed(ready, received, servsock, sock, maxsd) && SockUnique(t.groups, s)
    ensures !HasSock(Services(t, live, ready, received, servsock, sock, maxsd).0.groups, s)
    decreases maxsd - sock
  {
    if Serviced(ready, servsock, sock) {
      var (t1, live1) := Service(t, live, sock, received[sock]);
      if sock == s {
        assert t1.groups == LeftGroups(t.groups, s);
        LeaveTwice(t.groups, s);
        GoneStaysGone(t1, live1, ready, received, servsock, sock + 1, maxsd, s);
      } else {
        match received[sock] {
          case None => LeaveKeepsSockUnique(t.groups, sock, s);
          case Some(p) => DispatchKeepsSockUnique(t, sock, p, s);
        }
        assert s in Failed(ready, received, servsock, sock + 1, maxsd);
        FailedClientLeaves(t1, live1, ready, received, servsock, sock + 1, maxsd, s);
      }
    } else {
      assert s in Failed(ready, received, servsock, sock + 1, maxsd);
      FailedClientLeaves(t, live, ready, received, servsock, sock + 1, maxsd, s);
    }
  }

  /** Once socket `s` has no member, servicing other sockets gives it none. */
  lemma {:induction false} GoneStaysGone(t: Table, live: set<int>, ready: set<int>,
                                         received: map<int, Option<Packet>>,
                                         servsock: int, sock: int, maxsd: int, s: int)
    requires Covered(ready, received, servsock, sock, maxsd)
    requires !HasSock(t.groups, s) && s < sock
    ensures !HasSock(Services(t, live, ready, received, servsock, sock, maxsd).0.groups, s)
    decreases maxsd - sock
  {
    if sock <= maxsd {
      var (t1, live1) :=
        if Serviced(ready, servsock, sock) then Service(t, live, sock, received[sock]) else (t, live);
      if Serviced(ready, servsock, sock) {
        match received[sock]
        case None => LeaveAddsNoSock(t.groups, sock, s);
        case Some(p) => DispatchAddsNoSock(t, sock, p, s);
      }
      GoneStaysGone(t1, live1, ready, received, servsock, sock + 1, maxsd, s);
    }
  }

  // ---------------------------------------------------------------- state

  /** The server loop's own state: the registry, the listening socket, the
      live descriptor set and the largest descriptor seen. */
  class Server {
    const reg: Registry
    const servsock: int
    var live: set<int>
    var maxsd: int

    ghost predicate Valid()
      reads this, reg, reg.groups
    {
      && reg.Valid()
      && servsock in live
      && (forall s :: s in live ==> s <= maxsd)
    }

    /** `maxsd = servsock` and a live set holding only the listening socket. */
    constructor (reg: Registry, servsock: int)
      requires reg.Valid()
      ensures this.reg == reg && this.servsock == servsock
      ensures live == {servsock} && maxsd == servsock
      ensures Valid()
    {
      this.reg := reg;
      this.servsock := servsock;
      live := {servsock};
      maxsd := servsock;
    }

    /** One `select` round: service the ready clients, then accept. Returns
        false when `accept` failed and the server exits. */
    method Step(ready: set<int>, received: map<int, Option<Packet>>, csd: int) returns (running: bool)
      requires Valid() && ready <= live
      requires Covered(ready, received, servsock, FIRST_CLIENT, maxsd)
      requires RoundSafe(reg.State(), ready, received, servsock, FIRST_CLIENT, maxsd)
      modifies this, reg, reg.groups
      ensures var (t, lv) := Services(old(reg.State()), old(live), ready, received, servsock, FIRST_CLIENT, old(maxsd));
        && reg.State() == t
        && match Accepted(lv, old(maxsd), servsock, ready, csd)
           case None => !running && live == lv && maxsd == old(maxsd)
           case Some(next) => running && live == next.0 && maxsd == next.1
      ensures reg.Valid() && servsock in live
      ensures running ==> Valid()
    {
      var sock := FIRST_CLIENT;
      while sock <= maxsd
        invariant FIRST_CLIENT <= sock && maxsd == old(maxsd)
        invariant Covered(ready, received, servsock, sock, maxsd)
        invariant reg.Valid() && servsock in live && live <= old(live)
        invariant RoundSafe(reg.State(), ready, received, servsock, sock, maxsd)
        invariant Services(old(reg.State()), old(live), ready, received, servsock, FIRST_CLIENT, maxsd)
               == Services(reg.State(), live, ready, received, servsock, sock, maxsd)
        decreases maxsd - sock
      {
        if Serviced(ready, servsock, sock) {
          var got := received[sock];
          if got.None? {
            var _ := reg.LeaveGroup(sock);
            live := live - {sock};
          } else {
            Serve(sock, got.value);
          }
        }
        sock := sock + 1;
      }
      if servsock in ready {
        if csd == -1 {
          return false;
        }
        live := live + {csd};
        if csd > maxsd {
          maxsd := csd;
        }
      }
      return true;
    }

    /** Dispatch one packet from `sock` to the registry operation its type
        names. */
    method Serve(sock: int, p: Packet)
      requires reg.Valid() && Safe(reg.State(), sock, p)
      modifies reg, reg.groups
      ensures reg.Valid()
      ensures reg.State() == Dispatch(old(reg.State()), sock, p)
    {
      if p.kind == LIST_GROUPS {
        var _ := reg.ListGroups(sock);
      } else if p.kind == JOIN_GROUP {
        var gname := CPrefix(p.text);
        var mname := CPrefix(AfterCStr(p.text));
        var _ := reg.JoinGroup(sock, gname, mname);
      } else if p.kind == LEAVE_GROUP {
        var _ := reg.LeaveGroup(sock);
      } else if p.kind == USER_TEXT {
        var _ := reg.RelayMsg(sock, CPrefix(p.text));
      }
    }
  }
}
