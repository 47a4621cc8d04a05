/** The chat client (chatclient.c): how it reads the group listing, builds
    its join request, reads the server's verdict, decides when to quit, and
    turns keyboard lines into packets and relayed packets into a sender and
    a message. Keyboard lines arrive as parameters; what the client prints is
    left out. */
module Client {
  import opened Wrappers
  import opened Bytes
  import opened Protocol
  import Rooms
  import Linker

  /** The bytes of `QUIT_STRING`, "/end". */
  const QUIT: Str := Ascii("/end")

  // -------------------------------------------------------------- listing

  /** The (name, capacity, occupancy) triples `showgroups` visits: three
      consecutive C strings at a time, until the end of the payload. A field
      without a terminator runs to the end. */
  function ParseListing(s: Str): seq<Entry>
    decreases |s|
  {
    if s == [] then []
    else
      var r1 := AfterCStr(s);
      var r2 := AfterCStr(r1);
      [Entry(CPrefix(s), CPrefix(r1), CPrefix(r2))] + ParseListing(AfterCStr(r2))
  }

  /** `tptr + strlen(tptr)` as a position in the payload: the first NUL at or
      after `p`, or the end of the payload when there is none. */
  function NulFrom(text: Str, p: nat): (q: nat)
    requires p <= |text|
    ensures p <= q <= |text|
    decreases |text| - p
  {
    if p == |text| || text[p] == NUL then p else NulFrom(text, p + 1)
  }

  /** The C string at position `p` ends at `NulFrom(text, p)`. */
  lemma {:induction false} NulFromCPrefix(text: Str, p: nat)
    requires p <= |text|
    ensures text[p..NulFrom(text, p)] == CPrefix(text[p..])
    decreases |text| - p
  {
    if p < |text| && text[p] != NUL {
      NulFromCPrefix(text, p + 1);
      assert text[p..][1..] == text[p + 1..];
      assert text[p..NulFrom(text, p)] == [text[p]] + text[p + 1..NulFrom(text, p + 1)];
    }
  }

  /** Every field of the payload ends with a NUL inside it, three fields to
      a line, so that `showgroups` never reads past the `lent` bytes: the
      triples it visits, rendered again, are exactly the payload (a field
      without its NUL would gain one). */
  predicate IsListing(s: Str) {
    Listing(ParseListing(s)) == s
  }

  /** `p + strlen(p) + 1` as a position in the payload: the position after
      the C string that starts at `p` and its terminator, or the end of the
      payload when the string is not terminated. */
  function Skip(text: Str, p: nat): (q: nat)
    requires p <= |text|
    ensures p <= q <= |text| && (p < |text| ==> p < q)
  {
    var n := NulFrom(text, p);
    if n < |text| then n + 1 else |text|
  }

  lemma SkipAfter(text: Str, p: nat)
    requires p <= |text|
    ensures text[Skip(text, p)..] == AfterCStr(text[p..])
  {
    NulFromCPrefix(text, p);
  }

  /** One line of `showgroups` at position `p`: the name, capacity and
      occupancy strings there, and the position after them. */
  function LineAt(text: Str, p: nat): (r: (Entry, nat))
    requires p < |text|
    ensures p < r.1 <= |text|
  {
    var t1 := Skip(text, p);
    var t2 := Skip(text, t1);
    (Entry(text[p..NulFrom(text, p)], text[t1..NulFrom(text, t1)], text[t2..NulFrom(text, t2)]), Skip(text, t2))
  }

  /** The lines `showgroups` reads from position `p` on. */
  function ParseFrom(text: Str, p: nat): seq<Entry>
    requires p <= |text|
    decreases |text| - p
  {
    if p == |text| then []
    else
      var (e, q) := LineAt(text, p);
      [e] + ParseFrom(text, q)
  }

  /** Reading from position `p` is reading the rest of the payload. */
  lemma {:induction false} ParseFromSuffix(text: Str, p: nat)
    requires p <= |text|
    ensures ParseFrom(text, p) == ParseListing(text[p..])
    decreases |text| - p
  {
    if p < |text| {
      var t1 := Skip(text, p);
      var t2 := Skip(text, t1);
      SkipAfter(text, p);
      SkipAfter(text, t1);
      SkipAfter(text, t2);
      NulFromCPrefix(text, p);
      NulFromCPrefix(text, t1);
      NulFromCPrefix(text, t2);
      ParseFromSuffix(text, Skip(text, t2));
    }
  }

  /** One pass of the `showgroups` loop reads one line of the listing. */
  lemma ParseFromStep(text: Str, p: nat, es: seq<Entry>)
    requires p < |text|
    ensures es + ParseFrom(text, p) == (es + [LineAt(text, p).0]) + ParseFrom(text, LineAt(text, p).1)
  {
    assert ParseFrom(text, p) == [LineAt(text, p).0] + ParseFrom(text, LineAt(text, p).1);
  }

  /** `showgroups(lent, text)`: walk `tptr` through the payload, taking
      three C strings per line. */
  method ShowGroups(lent: int, text: Str) returns (es: seq<Entry>)
    requires lent == |text| && IsListing(text)
    ensures es == ParseListing(text)
  {
    ghost var shown := ParseListing(text);
    var tptr := 0;
    es := [];
    ParseFromStart(text);
    while tptr < lent
      invariant 0 <= tptr <= |text|
      invariant es + ParseFrom(text, tptr) == shown
      decreases |text| - tptr
    {
      var r := LineAt(text, tptr);
      ParseFromStep(text, tptr, es);
      es := es + [r.0];
      tptr := r.1;
    }
    ParseFromEnd(text, es);
  }

  /** Before the loop nothing is shown and the whole payload is left. */
  lemma ParseFromStart(text: Str)
    ensures [] + ParseFrom(text, 0) == ParseListing(text)
  {
    ParseFromSuffix(text, 0);
    assert text[0..] == text;
  }

  /** At the end of the payload nothing is left to show. */
  lemma ParseFromEnd(text: Str, es: seq<Entry>)
    ensures es + ParseFrom(text, |text|) == es
  {
  }

  /** A listing starts with the three fields of its first entry. */
  lemma ListingCons(es: seq<Entry>)
    requires es != []
    ensures Listing(es) == es[0].name + [NUL] + (es[0].capa + [NUL] + (es[0].occu + [NUL] + Listing(es[1..])))
  {
    var e := es[0];
    assert EntryFields(es) == [e.name, e.capa, e.occu] + EntryFields(es[1..]);
    FieldsAppend([e.name, e.capa, e.occu], EntryFields(es[1..]));
    assert Fields([e.name, e.capa, e.occu]) == e.name + [NUL] + (e.capa + [NUL] + (e.occu + [NUL])) by {
      assert [e.name, e.capa, e.occu][1..] == [e.capa, e.occu];
      FieldsOfPair(e.capa, e.occu);
    }
  }

  /** One line of three C strings parses as one entry, then the rest. */
  lemma ParseLine(a: Str, b: Str, c: Str, rest: Str)
    requires IsCStr(a) && IsCStr(b) && IsCStr(c)
    ensures ParseListing(a + [NUL] + (b + [NUL] + (c + [NUL] + rest))) == [Entry(a, b, c)] + ParseListing(rest)
  {
    SplitCStr(a, b + [NUL] + (c + [NUL] + rest));
    SplitCStr(b, c + [NUL] + rest);
    SplitCStr(c, rest);
  }

  lemma HeadTail<T>(s: seq<T>)
    requires s != []
    ensures [s[0]] + s[1..] == s
  {
  }

  /** A listing of entries whose fields are C strings parses back into the
      same entries: `showgroups` inverts `listgroups`. */
  lemma {:induction false} ParseListingOfListing(es: seq<Entry>)
    requires forall i :: 0 <= i < |es| ==> IsCStr(es[i].name) && IsCStr(es[i].capa) && IsCStr(es[i].occu)
    ensures ParseListing(Listing(es)) == es
    ensures IsListing(Listing(es))
  {
    if es != [] {
      var e, rest := es[0], Listing(es[1..]);
      ListingCons(es);
      ParseLine(e.name, e.capa, e.occu, rest);
      ParseListingOfListing(es[1..]);
      assert Entry(e.name, e.capa, e.occu) == e;
      HeadTail(es);
    }
  }

  /** What the client reads from the server's listing is the server's table:
      each group's name, and its capacity and occupancy as decimal text. */
  lemma ShowsServerTable(gs: seq<Rooms.Group>)
    requires Rooms.Consistent(gs)
    ensures ParseListing(Rooms.ListingOf(gs)) == Rooms.Entries(gs)
    ensures |ParseListing(Rooms.ListingOf(gs))| == |gs|
    ensures IsListing(Rooms.ListingOf(gs))
  {
    var es := Rooms.Entries(gs);
    forall i | 0 <= i < |es|
      ensures IsCStr(es[i].name) && IsCStr(es[i].capa) && IsCStr(es[i].occu)
    {
      assert es[i] == Rooms.EntryOf(gs[i]);
    }
    ParseListingOfListing(es);
  }

  /** End to end: the LIST_GROUPS packet `listgroups` sends arrives as a
      listing the client reads whole, one entry per group of the server. */
  lemma ListingOnWire(gs: seq<Rooms.Group>, rest: Str)
    requires Rooms.Consistent(gs) && |Rooms.ListingOf(gs)| <= MAXPKTLEN
    ensures var l := Rooms.ListingOf(gs);
      var got := Linker.Decode(Linker.Frame(LIST_GROUPS, |l|, l) + rest);
      && got == Some(Reply(LIST_GROUPS, l))
      && IsListing(got.value.text)
      && ParseListing(got.value.text) == Rooms.Entries(gs)
  {
    var l := Rooms.ListingOf(gs);
    Linker.ReplyOnWire(LIST_GROUPS, l, rest);
    ShowsServerTable(gs);
  }

  // ---------------------------------------------------------------- input

  /** `strncmp(a, b, n) == 0` on the C strings `a` and `b`: the first `n`
      bytes agree, where a string that has ended agrees only with one that
      has ended too. */
  function StrNEq(a: Str, b: Str, n: nat): bool
  {
    if n == 0 then true
    else if a == [] || b == [] then a == [] && b == []
    else a[0] == b[0] && StrNEq(a[1..], b[1..], n - 1)
  }

  /** Comparing a C string with `strlen(q)` bytes of `q` asks whether it
      starts with `q`. */
  lemma {:induction false} StrNEqPrefix(s: Str, q: Str)
    requires IsCStr(s) && IsCStr(q)
    ensures StrNEq(s, q, |q|) <==> q <= s
  {
    if q != [] && s != [] {
      StrNEqPrefix(s[1..], q[1..]);
    }
  }

  /** The line `fgets` left in the buffer with its last byte (the newline)
      cut off: `bufr[strlen(bufr) - 1] = '\0'`. */
  function Chomp(line: Str): (r: Str)
    requires IsCStr(line) && |line| > 0
    ensures IsCStr(r) && |r| == |line| - 1 && line == r + [line[|line| - 1]]
  {
    line[..|line| - 1]
  }

  /** The group-name and nickname prompts end the client on an empty line or
      one that starts with "/end". */
  predicate EndsClient(s: Str)
    requires IsCStr(s)
  {
    s == [] || StrNEq(s, QUIT, |QUIT|)
  }

  lemma EndsClientMeans(s: Str)
    requires IsCStr(s)
    ensures EndsClient(s) <==> s == [] || QUIT <= s
  {
    StrNEqPrefix(s, QUIT);
  }

  // ----------------------------------------------------------------- join

  /** `joinagroup`'s request: `gname\0mname\0` built in `bufr`, and its
      length `bufrptr - bufr`. */
  method BuildJoinRequest(gname: Str, mname: Str) returns (payload: Str, bufrlen: int)
    requires IsCStr(gname) && IsCStr(mname) && |gname| + |mname| + 2 <= MAXPKTLEN
    ensures payload == TwoFields(gname, mname) && bufrlen == |payload|
    ensures bufrlen == |gname| + |mname| + 2
  {
    var bufr := new Byte[MAXPKTLEN];
    var bufrptr := PutCStr(bufr, 0, gname);
    bufrptr := PutCStr(bufr, bufrptr, mname);
    bufrlen := bufrptr;
    payload := bufr[..bufrlen];
    FieldsOfPair(gname, mname);
  }

  /** The server recovers both names from the request by splitting at the
      first NUL, and each of its fields ends inside the payload. */
  lemma JoinRequestSplits(gname: Str, mname: Str)
    requires IsCStr(gname) && IsCStr(mname)
    ensures HasTwoFields(TwoFields(gname, mname))
    ensures FirstTwo(TwoFields(gname, mname)) == (gname, mname)
  {
    FirstTwoOfFields(gname, mname);
  }

  /** The request, framed by `sendpkt` and read back by `recvpkt` on the
      server, is a JOIN_GROUP packet whose length is the payload's and whose
      two names the server splits out unchanged. */
  lemma JoinRequestOnWire(gname: Str, mname: Str, rest: Str)
    requires IsCStr(gname) && IsCStr(mname) && |gname| + |mname| + 2 <= MAXPKTLEN
    ensures var req := TwoFields(gname, mname);
      && Linker.Decode(Linker.Frame(JOIN_GROUP, |req|, req) + rest) == Some(Reply(JOIN_GROUP, req))
      && HasTwoFields(req) && FirstTwo(req) == (gname, mname)
  {
    var req := TwoFields(gname, mname);
    Linker.DecodeFrame(JOIN_GROUP, |req|, req, rest);
    assert req[..|req|] == req;
    JoinRequestSplits(gname, mname);
  }

  /** How a call of `joinagroup` ends: it returns a value, or the whole
      client exits with a status. */
  datatype Outcome = Returns(code: int) | Exits(status: int)

  /** The reply check: no packet or a type other than JOIN_ACCEPTED and
      JOIN_REJECTED exits with status 1; otherwise 1 is returned on
      acceptance and 0 on rejection. */
  function JoinReplyOutcome(reply: Option<Packet>): (o: Outcome)
    ensures o == Returns(1) <==> reply.Some? && reply.value.kind == JOIN_ACCEPTED
    ensures o == Returns(0) <==> reply.Some? && reply.value.kind == JOIN_REJECTED
    ensures o.Exits? <==> reply.None? || reply.value.kind !in {JOIN_ACCEPTED, JOIN_REJECTED}
    ensures o.Exits? ==> o.status == 1
  {
    match reply
    case None => Exits(1)
    case Some(p) =>
      if p.kind != JOIN_ACCEPTED && p.kind != JOIN_REJECTED then Exits(1)
      else if p.kind == JOIN_REJECTED then Returns(0)
      else Returns(1)
  }

  /** Every reply the server can give to a join is one the client accepts,
      and it reads the verdict right: 1 exactly when it was admitted. */
  lemma ReadsServerVerdict(v: Rooms.Verdict)
    ensures JoinReplyOutcome(Some(Rooms.JoinReply(v))) == if v.Admitted? then Returns(1) else Returns(0)
  {
  }

  /** What one call of `joinagroup` sends and how it ends, given the
      server's listing reply, the two lines typed at the prompts (as `fgets`
      returned them) and the server's reply to the join request. A listing
      reply must be well formed: `showgroups` reads past a field without its
      terminating NUL. */
  datatype Session = Session(sent: seq<Packet>, shown: seq<Entry>, outcome: Outcome)

  function JoinAGroup(listed: Option<Packet>, groupLine: Str, nickLine: Str, reply: Option<Packet>): (r: Session)
    requires IsCStr(groupLine) && |groupLine| > 0 && IsCStr(nickLine) && |nickLine| > 0
    requires |groupLine| + |nickLine| <= MAXPKTLEN
    requires listed.Some? && listed.value.kind == LIST_GROUPS ==> IsListing(listed.value.text)
    ensures |r.sent| >= 1 && r.sent[0] == Packet(LIST_GROUPS, 0, [])
    ensures r.outcome.Returns? ==>
      && listed.Some? && listed.value.kind == LIST_GROUPS
      && !EndsClient(Chomp(groupLine)) && !EndsClient(Chomp(nickLine))
      && r.sent == [Packet(LIST_GROUPS, 0, []), Reply(JOIN_GROUP, TwoFields(Chomp(groupLine), Chomp(nickLine)))]
      && r.shown == ParseListing(listed.value.text)
      && r.outcome == JoinReplyOutcome(reply)
    ensures r.outcome == Exits(0) <==>
      listed.Some? && listed.value.kind == LIST_GROUPS && (EndsClient(Chomp(groupLine)) || EndsClient(Chomp(nickLine)))
  {
    var ask := Packet(LIST_GROUPS, 0, []);
    if listed.None? || listed.value.kind != LIST_GROUPS then Session([ask], [], Exits(1))
    else
      var shown := ParseListing(listed.value.text);
      var gname := Chomp(groupLine);
      if EndsClient(gname) then Session([ask], shown, Exits(0))
      else
        var mname := Chomp(nickLine);
        if EndsClient(mname) then Session([ask], shown, Exits(0))
        else
          var req := TwoFields(gname, mname);
          Session([ask, Reply(JOIN_GROUP, req)], shown, JoinReplyOutcome(reply))
  }

  // ----------------------------------------------------------------- chat

  /** A keyboard line while chatting: "/end" leaves the group with an empty
      LEAVE_GROUP; any other line goes out as USER_TEXT of length
      `strlen + 1`, terminator included. */
  function ChatPacket(line: Str): (p: Packet)
    requires IsCStr(line)
    ensures p.kind == LEAVE_GROUP <==> QUIT <= line
    ensures p.kind == LEAVE_GROUP ==> p == Packet(LEAVE_GROUP, 0, [])
    ensures p.kind != LEAVE_GROUP ==>
      p.kind == USER_TEXT && p.lent == |line| + 1 && p.text == line + [NUL] && CPrefix(p.text) == line
  {
    StrNEqPrefix(line, QUIT);
    SplitCStr(line, []);
    if StrNEq(line, QUIT, |QUIT|) then Packet(LEAVE_GROUP, 0, [])
    else Packet(USER_TEXT, |line| + 1, line + [NUL])
  }

  /** A received packet while chatting: anything but USER_TEXT, or no
      packet, ends the client; a text splits into sender and message at its
      first NUL. */
  function Display(got: Option<Packet>): (r: Option<(Str, Str)>)
    requires got.Some? && got.value.kind == USER_TEXT ==> HasTwoFields(got.value.text)
    ensures r.Some? <==> got.Some? && got.value.kind == USER_TEXT
    ensures r.Some? ==> r.value == FirstTwo(got.value.text)
  {
    match got
    case None => None
    case Some(p) => if p.kind != USER_TEXT then None else Some(FirstTwo(p.text))
  }

  /** The display inverts the server's relay payload. */
  lemma DisplayInvertsRelay(sender: Str, text: Str)
    requires IsCStr(sender) && IsCStr(text)
    ensures HasTwoFields(TwoFields(sender, text))
      && Display(Some(Reply(USER_TEXT, TwoFields(sender, text)))) == Some((sender, text))
  {
    FirstTwoOfFields(sender, text);
  }

  /** End to end: a chat line typed by a member is shown, with that member's
      name, by every client that receives the server's relay of it. */
  lemma ChatLineArrives(gs: seq<Rooms.Group>, sock: int, line: Str, s: Rooms.Send)
    requires Rooms.Consistent(gs) && IsCStr(line) && !(QUIT <= line)
    requires Rooms.Locate(gs, Rooms.BySock(sock)).Some?
    requires s in Rooms.Relayed(gs, sock, CPrefix(ChatPacket(line).text))
    ensures var l := Rooms.Locate(gs, Rooms.BySock(sock)).value;
      && s.pkt.kind == USER_TEXT && HasTwoFields(s.pkt.text)
      && Display(Some(s.pkt)) == Some((gs[l.grid].mems[l.at].name, line))
  {
    var l := Rooms.Locate(gs, Rooms.BySock(sock)).value;
    Rooms.RelayReaches(gs, sock, line, s);
    assert Rooms.InRange(gs, l.grid, l.at);
    DisplayInvertsRelay(gs[l.grid].mems[l.at].name, line);
  }

  /** The same, from the bytes on the receiving member's socket: the frame
      `sendpkt` writes for a relayed packet decodes to one the client shows
      with the sender's name and the line. */
  lemma ChatLineOnWire(gs: seq<Rooms.Group>, sock: int, line: Str, s: Rooms.Send, rest: Str)
    requires Rooms.Consistent(gs) && IsCStr(line) && !(QUIT <= line)
    requires Rooms.Locate(gs, Rooms.BySock(sock)).Some?
    requires Rooms.RelayFits(gs, sock, CPrefix(ChatPacket(line).text))
    requires s in Rooms.Relayed(gs, sock, CPrefix(ChatPacket(line).text))
    ensures s.pkt.lent == |s.pkt.text|
    ensures var l := Rooms.Locate(gs, Rooms.BySock(sock)).value;
      var got := Linker.Decode(Linker.Frame(s.pkt.kind, s.pkt.lent, s.pkt.text) + rest);
      && got == Some(s.pkt) && s.pkt.kind == USER_TEXT && HasTwoFields(s.pkt.text)
      && Display(got) == Some((gs[l.grid].mems[l.at].name, line))
  {
    var l := Rooms.Locate(gs, Rooms.BySock(sock)).value;
    var name := gs[l.grid].mems[l.at].name;
    Rooms.RelayReaches(gs, sock, line, s);
    assert Rooms.InRange(gs, l.grid, l.at);
    assert s.pkt == Reply(USER_TEXT, TwoFields(name, line));
    Linker.ReplyOnWire(USER_TEXT, TwoFields(name, line), rest);
    ChatLineArrives(gs, sock, line, s);
  }
}
