/** The server's group table in place (chatserver.c): the `group` array that
    `initgroups` allocates and the operations that read and update it. Each
    `sendpkt` of these operations appends to `outbox`; every method is proved
    equal to the function of the same name in `Rooms`. */
module Registry {
  import opened Wrappers
  import opened Bytes
  import opened Protocol
  import opened Rooms

  /** The first half of `relaymsg`: `sender\0text\0` written into a packet
      buffer of MAXPKTLEN bytes. */
  method RelayPayload(sender: Str, text: Str) returns (payload: Str)
    requires IsCStr(sender) && IsCStr(text) && |sender| + |text| + 2 <= MAXPKTLEN
    ensures payload == TwoFields(sender, text)
  {
    var pktbufr := new Byte[MAXPKTLEN];
    var bufrptr := PutCStr(pktbufr, 0, sender);
    bufrptr := PutCStr(pktbufr, bufrptr, text);
    payload := pktbufr[..bufrptr];
    FieldsOfPair(sender, text);
  }

  class Registry {
    /** `group[0 .. ngroups-1]`. */
    const groups: array<Group>
    /** The packets sent so far, in order. */
    var outbox: seq<Send>

    ghost function State(): Table
      reads this, groups
    {
      Table(groups[..], outbox)
    }

    ghost predicate Valid()
      reads this, groups
    {
      Consistent(groups[..])
    }

    /** `initgroups` on the (name, capacity) pairs of the configuration file. */
    constructor (config: seq<(Str, int)>)
      ensures groups[..] == Initial(config) && outbox == []
      ensures Valid()
      ensures fresh(groups)
    {
      var gs := new Group[|config|];
      for grid := 0 to |config|
        invariant forall j :: 0 <= j < grid ==> gs[j] == Group(CPrefix(config[j].0), config[j].1, 0, [])
      {
        gs[grid] := Group(CPrefix(config[grid].0), config[grid].1, 0, []);
      }
      groups := gs;
      outbox := [];
      new;
      InitialConsistent(config);
    }

    /** `findgroup`: the scan stops at the first group of that name. */
    method FindGroup(name: Str) returns (grid: int)
      ensures grid == GroupIndex(groups[..], name)
    {
      for g := 0 to groups.Length
        invariant forall j :: 0 <= j < g ==> groups[j].name != name
      {
        if groups[g].name == name {
          return g;
        }
      }
      return -1;
    }

    /** `findmemberbyname` and `findmemberbysock`: the outer loop runs over
        the groups and the inner one walks a group's list from its head. */
    method FindMember(k: Key) returns (r: Option<Loc>)
      ensures r == Locate(groups[..], k)
    {
      for g := 0 to groups.Length
        invariant forall h, i :: 0 <= h < g && 0 <= i < |groups[h].mems| ==> !Matches(groups[h].mems[i], k)
      {
        var mems := groups[g].mems;
        for i := 0 to |mems|
          invariant forall j :: 0 <= j < i ==> !Matches(mems[j], k)
        {
          if Matches(mems[i], k) {
            return Some(Loc(g, i));
          }
        }
      }
      return None;
    }

    /** `listgroups`: render every group into a packet buffer of MAXPKTLEN
        bytes and send it. The listing must fit the buffer. */
    method ListGroups(sock: int) returns (r: int)
      requires Valid() && |ListingOf(groups[..])| <= MAXPKTLEN
      modifies this
      ensures State() == List(old(State()), sock)
      ensures r == 1
    {
      var pktbufr := new Byte[MAXPKTLEN];
      var bufrptr := 0;
      for grid := 0 to groups.Length
        invariant bufrptr == |ListingOf(groups[..grid])| <= pktbufr.Length
        invariant pktbufr[..bufrptr] == ListingOf(groups[..grid])
        invariant outbox == old(outbox)
      {
        ListingOfPrefix(groups[..], grid);
        ListingOfPrefixLength(groups[..], grid + 1);
        assert groups[..][..grid + 1] == groups[..grid + 1] && groups[..][..grid] == groups[..grid];
        var g := groups[grid];
        var before := pktbufr[..bufrptr];
        bufrptr := PutCStr(pktbufr, bufrptr, g.name);
        bufrptr := PutCStr(pktbufr, bufrptr, Decimal(g.capa));
        bufrptr := PutCStr(pktbufr, bufrptr, Decimal(g.occu));
        assert pktbufr[..bufrptr] == before + g.name + [NUL] + Decimal(g.capa) + [NUL] + Decimal(g.occu) + [NUL];
      }
      assert groups[..groups.Length] == groups[..];
      assert pktbufr[..bufrptr] == ListingOf(old(groups[..]));
      outbox := outbox + [Send(sock, Reply(LIST_GROUPS, pktbufr[..bufrptr]))];
      return 1;
    }

    /** `joingroup(sock, gname, mname)`: reject with a reason, or link a new
        member at the head of the group's list and raise its occupancy.
        Returns 1 on admission and 0 on rejection. */
    method JoinGroup(sock: int, gname: Str, mname: Str) returns (r: int)
      requires Valid() && IsCStr(gname) && IsCStr(mname)
      modifies this, groups
      ensures Valid()
      ensures State() == Join(old(State()), sock, gname, mname)
      ensures r == (if JoinVerdict(old(groups[..]), gname, mname).Admitted? then 1 else 0)
    {
      ghost var gs := groups[..];
      ghost var v := JoinVerdict(gs, gname, mname);
      JoinKeepsConsistent(gs, sock, gname, mname);
      var grid := FindGroup(gname);
      if grid == -1 {
        assert v == NoSuchGroup;
        outbox := outbox + [Send(sock, Reply(JOIN_REJECTED, NO_SUCH_GROUP))];
        return 0;
      }
      var memb := FindMember(ByName(mname));
      if memb.Some? {
        assert v == NameTaken;
        outbox := outbox + [Send(sock, Reply(JOIN_REJECTED, NAME_EXISTS))];
        return 0;
      }
      if groups[grid].capa == groups[grid].occu {
        assert v == RoomFull;
        outbox := outbox + [Send(sock, Reply(JOIN_REJECTED, ROOM_FULL))];
        return 0;
      }
      assert v == Admitted(grid);
      var g := groups[grid];
      groups[grid] := g.(mems := [Member(mname, sock, grid)] + g.mems);
      groups[grid] := groups[grid].(occu := g.occu + 1);
      assert groups[..] == JoinedGroups(gs, sock, gname, mname);
      outbox := outbox + [Send(sock, Reply(JOIN_ACCEPTED, []))];
      return 1;
    }

    /** `leavegroup(sock)`: unlink the member on that socket from the list of
        the group it records, and lower that group's occupancy. Returns 0
        when no member speaks through `sock`. */
    method LeaveGroup(sock: int) returns (r: int)
      requires Valid()
      modifies groups
      ensures Valid()
      ensures State() == Leave(old(State()), sock)
      ensures r == OnSock(old(groups[..]), sock)
    {
      ghost var gs := groups[..];
      LeaveKeepsConsistent(gs, sock);
      var memb := FindMember(BySock(sock));
      if memb.None? {
        return 0;
      }
      var l := memb.value;
      var grid := groups[l.grid].mems[l.at].grid;
      assert grid == l.grid by {
        assert InRange(gs, l.grid, l.at);
      }
      var g := groups[grid];
      // Unlinking from the doubly linked list, whether at its head, in its
      // middle or at its tail, leaves the list without that one member.
      groups[grid] := g.(mems := RemoveAt(g.mems, l.at));
      groups[grid] := groups[grid].(occu := g.occu - 1);
      assert groups[..] == LeftGroups(gs, sock);
      return 1;
    }

    /** The second half of `relaymsg`: walk the sender's list from its head
        and send the payload to every member on another socket. */
    method SendToOthers(mems: seq<Member>, sock: int, payload: Str)
      modifies this
      ensures outbox == old(outbox) + Fanout(mems, sock, payload)
    {
      for i := 0 to |mems|
        invariant outbox == old(outbox) + Fanout(mems[..i], sock, payload)
      {
        FanoutSnoc(mems, i, sock, payload);
        if mems[i].sock != sock {
          outbox := outbox + [Send(mems[i].sock, Reply(USER_TEXT, payload))];
        }
      }
      assert mems[..|mems|] == mems;
    }

    /** `relaymsg(sock, text)`: build `sender\0text\0` in a packet buffer of
        MAXPKTLEN bytes and send it to every other member of the sender's
        group, walking the list from its head. Returns 0 when no member
        speaks through `sock`. The payload must fit the buffer. */
    method RelayMsg(sock: int, text: Str) returns (r: int)
      requires Valid() && IsCStr(text) && RelayFits(groups[..], sock, text)
      modifies this
      ensures State() == Relay(old(State()), sock, text)
      ensures r == OnSock(groups[..], sock)
    {
      ghost var gs := groups[..];
      var sender := FindMember(BySock(sock));
      if sender.None? {
        return 0;
      }
      var l := sender.value;
      var s := groups[l.grid].mems[l.at];
      assert s.grid == l.grid by {
        assert InRange(gs, l.grid, l.at);
      }
      var payload := RelayPayload(s.name, text);
      var mems := groups[s.grid].mems;
      assert Relayed(gs, sock, text) == Fanout(mems, sock, payload);
      SendToOthers(mems, sock, payload);
      return 1;
    }
  }
}
