/** The group table of the chat server (chatserver.c) as a value: what every
    lookup finds, what a join or a leave turns the table into, and which
    packets the server sends in answer. The class `Registry.Registry` runs
    the same operations in place and is proved against these functions. */
module Rooms {
  import opened Wrappers
  import opened Bytes
  import opened Protocol

  /** A member: its name, the socket it speaks through and the index of its
      group. */
  datatype Member = Member(name: Str, sock: int, grid: int)

  /** A group: its name, its capacity `capa`, its occupancy `occu` and its
      member list, head first (the source links members into a list and
      inserts at the head). */
  datatype Group = Group(name: Str, capa: int, occu: int, mems: seq<Member>)

  /** Where a member stands: the index of its group and its position in that
      group's list, 0 being the head. */
  datatype Loc = Loc(grid: nat, at: nat)

  /** What a member lookup compares: the name (`findmemberbyname`) or the
      socket (`findmemberbysock`). */
  datatype Key = ByName(name: Str) | BySock(sock: int)

  /** One `sendpkt` call of the server: the socket and the packet. */
  datatype Send = Send(sock: int, pkt: Packet)

  /** Everything the registry operations read or change: the group table
      and the packets sent so far. */
  datatype Table = Table(groups: seq<Group>, outbox: seq<Send>)

  predicate Matches(m: Member, k: Key) {
    match k
    case ByName(n) => m.name == n
    case BySock(s) => m.sock == s
  }

  predicate InRange(gs: seq<Group>, g: int, i: int) {
    0 <= g < |gs| && 0 <= i < |gs[g].mems|
  }

  /** The invariant the server keeps: each group's occupancy is the length
      of its list, each member records the group it is in, names are C
      strings, and no two members anywhere share a name. */
  ghost predicate Consistent(gs: seq<Group>) {
    && (forall g :: 0 <= g < |gs| ==> IsCStr(gs[g].name) && gs[g].occu == |gs[g].mems|)
    && (forall g, i :: InRange(gs, g, i) ==> gs[g].mems[i].grid == g && IsCStr(gs[g].mems[i].name))
    && UniqueNames(gs)
  }

  ghost predicate UniqueNames(gs: seq<Group>) {
    forall g, i, h, j ::
      InRange(gs, g, i) && InRange(gs, h, j) && gs[g].mems[i].name == gs[h].mems[j].name ==> g == h && i == j
  }

  /** No group holds more members than its capacity. */
  ghost predicate WithinCapacity(gs: seq<Group>) {
    forall g :: 0 <= g < |gs| ==> gs[g].occu <= gs[g].capa
  }

  ghost predicate NameInUse(gs: seq<Group>, name: Str) {
    exists g, i :: InRange(gs, g, i) && gs[g].mems[i].name == name
  }

  /** `initgroups` on the (name, capacity) pairs read from the configuration:
      the groups in that order, each name as `strdup` copies it, empty. */
  function Initial(config: seq<(Str, int)>): (gs: seq<Group>)
    ensures |gs| == |config|
    ensures forall g :: 0 <= g < |gs| ==>
      gs[g] == Group(CPrefix(config[g].0), config[g].1, 0, [])
  {
    seq(|config|, g requires 0 <= g < |config| => Group(CPrefix(config[g].0), config[g].1, 0, []))
  }

  /** A fresh table already keeps the invariant, and keeps the capacity
      bound exactly when no capacity is negative. */
  lemma InitialConsistent(config: seq<(Str, int)>)
    ensures Consistent(Initial(config))
    ensures WithinCapacity(Initial(config)) <==> forall g :: 0 <= g < |config| ==> config[g].1 >= 0
  {
  }

  /** `findgroup`: the index of the first group with that name, or -1. */
  function GroupIndex(gs: seq<Group>, name: Str): (r: int)
    ensures -1 <= r < |gs|
    ensures r >= 0 ==> gs[r].name == name && forall j :: 0 <= j < r ==> gs[j].name != name
    ensures r == -1 <==> forall j :: 0 <= j < |gs| ==> gs[j].name != name
  {
    if gs == [] then -1
    else if gs[0].name == name then 0
    else
      var r := GroupIndex(gs[1..], name);
      if r == -1 then -1 else r + 1
  }

  /** The position of the first member of a list that matches. */
  function IndexIn(mems: seq<Member>, k: Key): (r: Option<nat>)
    ensures r.Some? ==> r.value < |mems| && Matches(mems[r.value], k)
    ensures r.Some? ==> forall j :: 0 <= j < r.value ==> !Matches(mems[j], k)
    ensures r.None? ==> forall j :: 0 <= j < |mems| ==> !Matches(mems[j], k)
  {
    if mems == [] then None
    else if Matches(mems[0], k) then Some(0)
    else match IndexIn(mems[1..], k)
      case None => None
      case Some(j) => Some(j + 1)
  }

  /** `findmemberbyname` and `findmemberbysock`: the first member that
      matches, scanning the groups in index order and each list from its
      head; None for the NULL they return when there is none. */
  function Locate(gs: seq<Group>, k: Key): (r: Option<Loc>)
    ensures r.Some? ==> InRange(gs, r.value.grid, r.value.at) && Matches(gs[r.value.grid].mems[r.value.at], k)
    ensures r.Some? ==> forall g, i :: InRange(gs, g, i) && (g < r.value.grid || (g == r.value.grid && i < r.value.at))
                                   ==> !Matches(gs[g].mems[i], k)
    ensures r.None? ==> forall g, i :: InRange(gs, g, i) ==> !Matches(gs[g].mems[i], k)
  {
    if gs == [] then None
    else match IndexIn(gs[0].mems, k)
      case Some(i) => Some(Loc(0, i))
      case None =>
        match Locate(gs[1..], k)
        case None => None
        case Some(l) =>
          assert forall g, i :: InRange(gs[1..], g, i) ==> gs[1..][g] == gs[g + 1];
          Some(Loc(l.grid + 1, l.at))
  }

  /** A name lookup finds something exactly when the name is in use. */
  lemma LocateByName(gs: seq<Group>, name: Str)
    ensures Locate(gs, ByName(name)).Some? <==> NameInUse(gs, name)
  {
    match Locate(gs, ByName(name))
    case Some(l) =>
      assert InRange(gs, l.grid, l.at) && gs[l.grid].mems[l.at].name == name;
    case None =>
  }

  // ---------------------------------------------------------------- join

  /** How `joingroup` decides, checking in this order: the group must exist,
      the member name must be unused in every group, and the group must not
      be full (`capa == occu`). */
  datatype Verdict = NoSuchGroup | NameTaken | RoomFull | Admitted(grid: nat)

  function JoinVerdict(gs: seq<Group>, gname: Str, mname: Str): (v: Verdict)
    ensures v == NoSuchGroup <==> forall g :: 0 <= g < |gs| ==> gs[g].name != gname
    ensures v == NameTaken <==> GroupIndex(gs, gname) >= 0 && NameInUse(gs, mname)
    ensures v == RoomFull <==>
      GroupIndex(gs, gname) >= 0 && !NameInUse(gs, mname) && gs[GroupIndex(gs, gname)].capa == gs[GroupIndex(gs, gname)].occu
    ensures v.Admitted? ==>
      v.grid == GroupIndex(gs, gname) && !NameInUse(gs, mname) && gs[v.grid].capa != gs[v.grid].occu
  {
    var g := GroupIndex(gs, gname);
    LocateByName(gs, mname);
    if g == -1 then NoSuchGroup
    else if Locate(gs, ByName(mname)).Some? then NameTaken
    else if gs[g].capa == gs[g].occu then RoomFull
    else Admitted(g)
  }

  const NO_SUCH_GROUP: Str := Ascii("no such group")
  const NAME_EXISTS: Str := Ascii("member name already exists")
  const ROOM_FULL: Str := Ascii("room is full")

  /** The reply `joingroup` sends: JOIN_ACCEPTED with length 0, or
      JOIN_REJECTED with the reason, of length `strlen(errmsg)`. */
  function JoinReply(v: Verdict): (r: Packet)
    ensures r.lent == |r.text|
    ensures r.kind == JOIN_ACCEPTED <==> v.Admitted?
    ensures r.kind == JOIN_ACCEPTED || r.kind == JOIN_REJECTED
    ensures r.text == [] <==> v.Admitted?
    ensures !v.Admitted? ==> IsCStr(r.text)
  {
    ReasonsAreCStrings();
    match v
    case NoSuchGroup => Reply(JOIN_REJECTED, NO_SUCH_GROUP)
    case NameTaken => Reply(JOIN_REJECTED, NAME_EXISTS)
    case RoomFull => Reply(JOIN_REJECTED, ROOM_FULL)
    case Admitted(_) => Reply(JOIN_ACCEPTED, [])
  }

  /** The group table after `joingroup(sock, gname, mname)`. */
  function JoinedGroups(gs: seq<Group>, sock: int, gname: Str, mname: Str): (r: seq<Group>)
    ensures |r| == |gs| && forall g :: 0 <= g < |gs| ==> r[g].name == gs[g].name && r[g].capa == gs[g].capa
  {
    match JoinVerdict(gs, gname, mname)
    case Admitted(g) =>
      gs[g := gs[g].(occu := gs[g].occu + 1, mems := [Member(mname, sock, g)] + gs[g].mems)]
    case _ => gs
  }

  /** `joingroup` answers the joiner, and nobody else, exactly once. */
  function Join(t: Table, sock: int, gname: Str, mname: Str): (r: Table)
    ensures |r.outbox| == |t.outbox| + 1 && r.outbox[..|t.outbox|] == t.outbox
    ensures r.outbox[|t.outbox|].sock == sock
    ensures r.outbox[|t.outbox|].pkt.kind == JOIN_ACCEPTED || r.outbox[|t.outbox|].pkt.kind == JOIN_REJECTED
  {
    Table(JoinedGroups(t.groups, sock, gname, mname),
          t.outbox + [Send(sock, JoinReply(JoinVerdict(t.groups, gname, mname)))])
  }

  /** A rejected join changes no group, and its reply carries the reason of
      the first rule that failed, without a terminating NUL. */
  lemma JoinRejected(gs: seq<Group>, sock: int, gname: Str, mname: Str)
    requires !JoinVerdict(gs, gname, mname).Admitted?
    ensures JoinedGroups(gs, sock, gname, mname) == gs
    ensures JoinReply(JoinVerdict(gs, gname, mname)).kind == JOIN_REJECTED
    ensures var reason := JoinReply(JoinVerdict(gs, gname, mname)).text; reason != [] && IsCStr(reason)
    ensures GroupIndex(gs, gname) == -1 ==> JoinReply(JoinVerdict(gs, gname, mname)).text == NO_SUCH_GROUP
    ensures GroupIndex(gs, gname) >= 0 && NameInUse(gs, mname) ==>
              JoinReply(JoinVerdict(gs, gname, mname)).text == NAME_EXISTS
    ensures GroupIndex(gs, gname) >= 0 && !NameInUse(gs, mname) ==>
              JoinReply(JoinVerdict(gs, gname, mname)).text == ROOM_FULL
  {
    ReasonsAreCStrings();
  }

  /** The three reasons are non-empty texts without a NUL. */
  lemma ReasonsAreCStrings()
    ensures NO_SUCH_GROUP != [] && IsCStr(NO_SUCH_GROUP)
    ensures NAME_EXISTS != [] && IsCStr(NAME_EXISTS)
    ensures ROOM_FULL != [] && IsCStr(ROOM_FULL)
  {
  }

  /** A successful join puts exactly one new member, with that name, socket
      and group, at the head of the group's list, raises only that group's
      occupancy, and replies JOIN_ACCEPTED with length 0. */
  lemma JoinAdmits(gs: seq<Group>, sock: int, gname: Str, mname: Str)
    requires JoinVerdict(gs, gname, mname).Admitted?
    ensures var g := GroupIndex(gs, gname); var gs' := JoinedGroups(gs, sock, gname, mname);
      && |gs'| == |gs|
      && gs'[g].mems == [Member(mname, sock, g)] + gs[g].mems
      && gs'[g].occu == gs[g].occu + 1
      && gs'[g].name == gs[g].name && gs'[g].capa == gs[g].capa
      && (forall h :: 0 <= h < |gs| && h != g ==> gs'[h] == gs[h])
    ensures JoinReply(JoinVerdict(gs, gname, mname)) == Packet(JOIN_ACCEPTED, 0, [])
  {
  }

  /** Joining keeps the invariant: the new name was free, the new member
      records its group, and the occupancy follows the list. */
  lemma JoinKeepsConsistent(gs: seq<Group>, sock: int, gname: Str, mname: Str)
    requires Consistent(gs) && IsCStr(mname)
    ensures Consistent(JoinedGroups(gs, sock, gname, mname))
  {
    var v := JoinVerdict(gs, gname, mname);
    if v.Admitted? {
      PushKeepsConsistent(gs, v.grid, Member(mname, sock, v.grid));
    }
  }

  /** A member whose name nobody has, put at the head of the group it
      records, keeps the invariant when the occupancy goes up by one. */
  lemma PushKeepsConsistent(gs: seq<Group>, g: nat, m: Member)
    requires Consistent(gs) && g < |gs| && m.grid == g && IsCStr(m.name) && !NameInUse(gs, m.name)
    ensures Consistent(gs[g := gs[g].(occu := gs[g].occu + 1, mems := [m] + gs[g].mems)])
  {
    var gs' := gs[g := gs[g].(occu := gs[g].occu + 1, mems := [m] + gs[g].mems)];
    // Each member of the new table is the new one or an old one moved by
    // at most one place.
    forall h, j | InRange(gs', h, j)
      ensures gs'[h].mems[j] == (if h == g && j == 0 then m else gs[h].mems[if h == g then j - 1 else j])
      ensures !(h == g && j == 0) ==> InRange(gs, h, if h == g then j - 1 else j)
    {
    }
  }

  /** Joining keeps every group within its capacity: a full group turns the
      request away. */
  lemma JoinKeepsCapacity(gs: seq<Group>, sock: int, gname: Str, mname: Str)
    requires WithinCapacity(gs)
    ensures WithinCapacity(JoinedGroups(gs, sock, gname, mname))
  {
  }

  // --------------------------------------------------------------- leave

  function RemoveAt(mems: seq<Member>, i: nat): (r: seq<Member>)
    requires i < |mems|
    ensures |r| == |mems| - 1
    ensures forall j :: 0 <= j < |r| ==> r[j] == mems[if j < i then j else j + 1]
  {
    mems[..i] + mems[i + 1..]
  }

  /** The group table after `leavegroup(sock)`: the first member found on
      that socket is unlinked from its group and the occupancy lowered; with
      no such member nothing changes. */
  function LeftGroups(gs: seq<Group>, sock: int): (r: seq<Group>)
    ensures |r| == |gs| && forall g :: 0 <= g < |gs| ==> r[g].name == gs[g].name && r[g].capa == gs[g].capa
  {
    match Locate(gs, BySock(sock))
    case None => gs
    case Some(l) =>
      gs[l.grid := gs[l.grid].(occu := gs[l.grid].occu - 1, mems := RemoveAt(gs[l.grid].mems, l.at))]
  }

  /** `leavegroup` sends nothing. */
  function Leave(t: Table, sock: int): (r: Table)
    ensures r.outbox == t.outbox && |r.groups| == |t.groups|
  {
    Table(LeftGroups(t.groups, sock), t.outbox)
  }

  /** What `leavegroup` and `relaymsg` return: 1 when a member speaks
      through `sock`, 0 when none does. */
  function OnSock(gs: seq<Group>, sock: int): (r: int)
    ensures r == 0 <==> forall g, i :: InRange(gs, g, i) ==> gs[g].mems[i].sock != sock
    ensures r == 0 ==> LeftGroups(gs, sock) == gs
    ensures r == 1 || r == 0
  {
    if Locate(gs, BySock(sock)).Some? then 1 else 0
  }

  ghost predicate HasSock(gs: seq<Group>, sock: int) {
    exists g, i :: InRange(gs, g, i) && gs[g].mems[i].sock == sock
  }

  /** At most one member speaks through `sock`. */
  ghost predicate SockUnique(gs: seq<Group>, sock: int) {
    forall g, i, h, j ::
      (InRange(gs, g, i) && InRange(gs, h, j) && gs[g].mems[i].sock == sock && gs[h].mems[j].sock == sock)
      ==> g == h && i == j
  }

  /** Removing a member keeps the members around it, and moves those after it
      one place toward the head; its group keeps its name and capacity and
      has one occupant less. */
  lemma LeftMembers(gs: seq<Group>, sock: int)
    requires Locate(gs, BySock(sock)).Some?
    ensures var l := Locate(gs, BySock(sock)).value; var gs' := LeftGroups(gs, sock);
      && |gs'| == |gs|
      && gs'[l.grid].name == gs[l.grid].name && gs'[l.grid].capa == gs[l.grid].capa
      && gs'[l.grid].occu == gs[l.grid].occu - 1
      && |gs'[l.grid].mems| == |gs[l.grid].mems| - 1
      && (forall h :: 0 <= h < |gs| && h != l.grid ==> gs'[h] == gs[h])
      && (forall h, j :: InRange(gs', h, j) ==>
            var k := if h == l.grid && j >= l.at then j + 1 else j;
            InRange(gs, h, k) && gs'[h].mems[j] == gs[h].mems[k] && (h != l.grid || k != l.at))
  {
  }

  /** Leaving keeps the invariant. */
  lemma LeaveKeepsConsistent(gs: seq<Group>, sock: int)
    requires Consistent(gs)
    ensures Consistent(LeftGroups(gs, sock))
  {
    if Locate(gs, BySock(sock)).Some? {
      LeftMembers(gs, sock);
    }
  }

  /** Leaving keeps every group within its capacity. */
  lemma LeaveKeepsCapacity(gs: seq<Group>, sock: int)
    requires WithinCapacity(gs)
    ensures WithinCapacity(LeftGroups(gs, sock))
  {
  }

  /** When one member at most speaks through `sock`, none is left after a
      leave, so a second leave returns 0 and changes nothing. */
  lemma LeaveTwice(gs: seq<Group>, sock: int)
    requires SockUnique(gs, sock)
    ensures !HasSock(LeftGroups(gs, sock), sock)
    ensures OnSock(LeftGroups(gs, sock), sock) == 0
    ensures LeftGroups(LeftGroups(gs, sock), sock) == LeftGroups(gs, sock)
  {
    if Locate(gs, BySock(sock)).Some? {
      LeftMembers(gs, sock);
    }
  }

  /** A join made on another socket gives `s` no member. */
  lemma JoinAddsOnlyItsSock(gs: seq<Group>, sock: int, gname: Str, mname: Str, s: int)
    requires !HasSock(gs, s) && sock != s
    ensures !HasSock(JoinedGroups(gs, sock, gname, mname), s)
  {
    var gs' := JoinedGroups(gs, sock, gname, mname);
    var v := JoinVerdict(gs, gname, mname);
    if v.Admitted? {
      forall h, j | InRange(gs', h, j)
        ensures gs'[h].mems[j].sock != s
      {
        if h == v.grid && j > 0 {
          assert gs'[h].mems[j] == gs[h].mems[j - 1];
        } else if h != v.grid {
          assert gs'[h].mems[j] == gs[h].mems[j];
        }
      }
    }
  }

  /** A leave gives no socket a member. */
  lemma LeaveAddsNoSock(gs: seq<Group>, sock: int, s: int)
    requires !HasSock(gs, s)
    ensures !HasSock(LeftGroups(gs, sock), s)
  {
    if Locate(gs, BySock(sock)).Some? {
      LeftMembers(gs, sock);
    }
  }

  /** A leave keeps `s` on at most one member. */
  lemma LeaveKeepsSockUnique(gs: seq<Group>, sock: int, s: int)
    requires SockUnique(gs, s)
    ensures SockUnique(LeftGroups(gs, sock), s)
  {
    if Locate(gs, BySock(sock)).Some? {
      LeftMembers(gs, sock);
    }
  }

  /** A join on another socket gives `s` no second member. */
  lemma JoinKeepsSockUnique(gs: seq<Group>, sock: int, gname: Str, mname: Str, s: int)
    requires SockUnique(gs, s) && sock != s
    ensures SockUnique(JoinedGroups(gs, sock, gname, mname), s)
  {
    var gs' := JoinedGroups(gs, sock, gname, mname);
    var v := JoinVerdict(gs, gname, mname);
    if v.Admitted? {
      var g := v.grid;
      assert gs'[g].mems == [Member(mname, sock, g)] + gs[g].mems;
      forall h, j | InRange(gs', h, j) && !(h == g && j == 0)
        ensures InRange(gs, h, if h == g then j - 1 else j)
        ensures gs'[h].mems[j] == gs[h].mems[if h == g then j - 1 else j]
      {
      }
    }
  }

  /** The member that leaves frees its name for a later join. */
  lemma LeaveFreesName(gs: seq<Group>, sock: int)
    requires Consistent(gs) && Locate(gs, BySock(sock)).Some?
    ensures var l := Locate(gs, BySock(sock)).value;
      !NameInUse(LeftGroups(gs, sock), gs[l.grid].mems[l.at].name)
  {
    LeftMembers(gs, sock);
  }

  /** A leave undoes a join made on a socket that had no member: the table is
      the one before the join. */
  lemma LeaveUndoesJoin(gs: seq<Group>, sock: int, gname: Str, mname: Str)
    requires !HasSock(gs, sock)
    ensures LeftGroups(JoinedGroups(gs, sock, gname, mname), sock) == gs
  {
    var v := JoinVerdict(gs, gname, mname);
    if v.Admitted? {
      var g := v.grid;
      var gs' := JoinedGroups(gs, sock, gname, mname);
      assert gs'[g].mems == [Member(mname, sock, g)] + gs[g].mems;
      assert forall h :: 0 <= h < |gs| && h != g ==> gs'[h] == gs[h];
      LocateFirst(gs', sock, g);
      assert RemoveAt(gs'[g].mems, 0) == gs[g].mems;
      var left := LeftGroups(gs', sock);
      forall h | 0 <= h < |gs|
        ensures left[h] == gs[h]
      {
      }
    } else {
      assert forall g, i :: InRange(gs, g, i) ==> gs[g].mems[i].sock != sock;
    }
  }

  /** A member on `sock` at the head of group `g`, with no member on `sock`
      in an earlier group, is the one the socket lookup finds. */
  lemma LocateFirst(gs: seq<Group>, sock: int, g: nat)
    requires g < |gs| && gs[g].mems != [] && gs[g].mems[0].sock == sock
    requires forall h, i :: InRange(gs, h, i) && h < g ==> gs[h].mems[i].sock != sock
    ensures Locate(gs, BySock(sock)) == Some(Loc(g, 0))
  {
    assert InRange(gs, g, 0);
  }

  // ------------------------------------------------------------- listing

  function EntryOf(g: Group): Entry {
    Entry(g.name, Decimal(g.capa), Decimal(g.occu))
  }

  function Entries(gs: seq<Group>): (es: seq<Entry>)
    ensures |es| == |gs| && forall g :: 0 <= g < |gs| ==> es[g] == EntryOf(gs[g])
  {
    seq(|gs|, g requires 0 <= g < |gs| => EntryOf(gs[g]))
  }

  /** The payload `listgroups` builds: for each group in index order, its
      name, its capacity and its occupancy in decimal, each NUL-terminated. */
  function ListingOf(gs: seq<Group>): Str {
    Listing(Entries(gs))
  }

  /** `listgroups` changes no group and answers the asker, and nobody else,
      with one LIST_GROUPS packet. */
  function List(t: Table, sock: int): (r: Table)
    ensures r.groups == t.groups
    ensures |r.outbox| == |t.outbox| + 1 && r.outbox[..|t.outbox|] == t.outbox
    ensures r.outbox[|t.outbox|].sock == sock && r.outbox[|t.outbox|].pkt.kind == LIST_GROUPS
  {
    Table(t.groups, t.outbox + [Send(sock, Reply(LIST_GROUPS, ListingOf(t.groups)))])
  }

  /** The listing of the first k+1 groups extends that of the first k by the
      three fields of group k. */
  lemma ListingOfPrefix(gs: seq<Group>, k: nat)
    requires k < |gs|
    ensures ListingOf(gs[..k + 1]) ==
      ListingOf(gs[..k]) + gs[k].name + [NUL] + Decimal(gs[k].capa) + [NUL] + Decimal(gs[k].occu) + [NUL]
  {
    assert Entries(gs[..k + 1]) == Entries(gs[..k]) + [EntryOf(gs[k])];
    ListingAppend(Entries(gs[..k]), EntryOf(gs[k]));
  }

  /** The listing of a prefix of the table is a prefix of the listing. */
  lemma ListingOfPrefixLength(gs: seq<Group>, k: nat)
    requires k <= |gs|
    ensures |ListingOf(gs[..k])| <= |ListingOf(gs)|
    decreases |gs| - k
  {
    if k < |gs| {
      ListingOfPrefix(gs, k);
      ListingOfPrefixLength(gs, k + 1);
    } else {
      assert gs[..k] == gs;
    }
  }

  // ---------------------------------------------------------------- relay

  /** The USER_TEXT packets the relay loop sends for a member list, in list
      order: one to every member whose socket is not the sender's. */
  function Fanout(mems: seq<Member>, sock: int, payload: Str): (r: seq<Send>)
    ensures |r| <= |mems|
  {
    if mems == [] then []
    else
      var last := mems[|mems| - 1];
      Fanout(mems[..|mems| - 1], sock, payload)
        + (if last.sock == sock then [] else [Send(last.sock, Reply(USER_TEXT, payload))])
  }

  /** One more member of the list adds at most its own packet. */
  lemma FanoutSnoc(mems: seq<Member>, i: nat, sock: int, payload: Str)
    requires i < |mems|
    ensures Fanout(mems[..i + 1], sock, payload) ==
      Fanout(mems[..i], sock, payload) + (if mems[i].sock == sock then [] else [Send(mems[i].sock, Reply(USER_TEXT, payload))])
  {
    assert mems[..i + 1][..i] == mems[..i];
  }

  /** The fan-out reaches exactly the members of the list on other sockets,
      always with the same packet. */
  lemma {:induction false} FanoutReaches(mems: seq<Member>, sock: int, payload: Str, s: Send)
    ensures s in Fanout(mems, sock, payload) <==>
      s.pkt == Reply(USER_TEXT, payload) && s.sock != sock && exists m :: m in mems && m.sock == s.sock
  {
    if mems != [] {
      var init := mems[..|mems| - 1];
      FanoutReaches(init, sock, payload, s);
      assert mems == init + [mems[|mems| - 1]];
      if s.pkt == Reply(USER_TEXT, payload) && s.sock != sock && (exists m :: m in mems && m.sock == s.sock) {
        var m :| m in mems && m.sock == s.sock;
        if m !in init {
          assert m == mems[|mems| - 1];
        }
      }
    }
  }

  /** Whom `relaymsg(sock, text)` sends to: with no member on `sock`
      nobody; otherwise `sender\0text\0` to the sender's group. */
  function Relayed(gs: seq<Group>, sock: int, text: Str): seq<Send>
  {
    match Locate(gs, BySock(sock))
    case None => []
    case Some(l) => Fanout(gs[l.grid].mems, sock, TwoFields(gs[l.grid].mems[l.at].name, text))
  }

  /** `sender\0text\0` fits in a packet buffer of MAXPKTLEN bytes. */
  predicate RelayFits(gs: seq<Group>, sock: int, text: Str) {
    match Locate(gs, BySock(sock))
    case None => true
    case Some(l) => |gs[l.grid].mems[l.at].name| + |text| + 2 <= MAXPKTLEN
  }

  /** `relaymsg` changes no group and only adds to what was sent. */
  function Relay(t: Table, sock: int, text: Str): (r: Table)
    ensures r.groups == t.groups && t.outbox <= r.outbox
  {
    Table(t.groups, t.outbox + Relayed(t.groups, sock, text))
  }

  /** A relay from a socket without a member sends nothing. Otherwise its
      packets go exactly to the members of the sender's group on other
      sockets, never back to the sender's socket, each carrying the sender's
      name and the text. */
  lemma RelayReaches(gs: seq<Group>, sock: int, text: Str, s: Send)
    ensures Locate(gs, BySock(sock)).None? ==> Relayed(gs, sock, text) == []
    ensures Locate(gs, BySock(sock)).Some? ==>
      var l := Locate(gs, BySock(sock)).value;
      (s in Relayed(gs, sock, text) <==>
        && s.pkt == Reply(USER_TEXT, TwoFields(gs[l.grid].mems[l.at].name, text))
        && s.sock != sock
        && exists m :: m in gs[l.grid].mems && m.sock == s.sock)
  {
    match Locate(gs, BySock(sock))
    case None =>
    case Some(l) =>
      FanoutReaches(gs[l.grid].mems, sock, TwoFields(gs[l.grid].mems[l.at].name, text), s);
  }
}
