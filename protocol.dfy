/** The packet format shared by the server and the client (common.h), and the
    NUL-separated text fields that the payloads of the protocol are made of. */
module Protocol {
  import opened Bytes

  // Packet type tags.
  const LIST_GROUPS: Byte := 0
  const JOIN_GROUP: Byte := 1
  const LEAVE_GROUP: Byte := 2
  const USER_TEXT: Byte := 3
  const JOIN_REJECTED: Byte := 4
  const JOIN_ACCEPTED: Byte := 5

  // Buffer limits.
  const MAXNAMELEN := 256
  const MAXPKTLEN := 2048

  /** A packet: its type tag, its length field and its payload. With length 0
      the payload is empty (the source leaves `text` NULL). */
  datatype Packet = Packet(kind: Byte, lent: int, text: Str)

  /** The packet `sendpkt(sd, kind, strlen-or-size, payload)` puts on the wire
      when the length passed is the payload's size. */
  function Reply(kind: Byte, payload: Str): (p: Packet)
    ensures p.kind == kind && p.lent == |p.text| && p.text == payload
  {
    Packet(kind, |payload|, payload)
  }

  /** Consecutive NUL-terminated fields, as `strcpy(bufrptr, f); bufrptr +=
      strlen(bufrptr) + 1` lays them out. */
  function Fields(fs: seq<Str>): (r: Str)
  {
    if fs == [] then [] else fs[0] + [NUL] + Fields(fs[1..])
  }

  lemma {:induction false} FieldsAppend(a: seq<Str>, b: seq<Str>)
    ensures Fields(a + b) == Fields(a) + Fields(b)
  {
    if a != [] {
      assert (a + b)[0] == a[0] && (a + b)[1..] == a[1..] + b;
      FieldsAppend(a[1..], b);
    } else {
      assert a + b == b;
    }
  }

  lemma FieldsOfPair(a: Str, b: Str)
    ensures Fields([a, b]) == a + [NUL] + b + [NUL]
  {
    assert [a, b][1..] == [b];
    assert Fields([b]) == b + [NUL] + Fields([]);
  }

  /** The first two fields of a payload: the server splits a join request into
      group and member name this way, and the client a relayed text into
      sender and message. */
  function FirstTwo(s: Str): (r: (Str, Str))
    ensures IsCStr(r.0) && IsCStr(r.1)
    ensures r.0 <= s
  {
    (CPrefix(s), CPrefix(AfterCStr(s)))
  }

  /** Both fields that `FirstTwo` reads end inside the payload, so reading
      them in C stays within the buffer. */
  predicate HasTwoFields(s: Str) {
    |CPrefix(s)| < |s| && |CPrefix(AfterCStr(s))| < |AfterCStr(s)|
  }

  /** A payload of two fields splits back into those two fields. */
  lemma FirstTwoOfFields(a: Str, b: Str)
    requires IsCStr(a) && IsCStr(b)
    ensures HasTwoFields(Fields([a, b]))
    ensures FirstTwo(Fields([a, b])) == (a, b)
  {
    FieldsOfPair(a, b);
    assert Fields([a, b]) == a + [NUL] + (b + [NUL]);
    SplitCStr(a, b + [NUL]);
    assert b + [NUL] == b + [NUL] + [];
    SplitCStr(b, []);
  }

  /** Two NUL-terminated fields: the layout of the join request
      `gname\0mname\0` and of the relayed text `sender\0text\0`. */
  function TwoFields(a: Str, b: Str): (r: Str)
    ensures |r| == |a| + |b| + 2
  {
    FieldsOfPair(a, b);
    Fields([a, b])
  }

  /** One line of the group listing, as the server renders it. */
  datatype Entry = Entry(name: Str, capa: Str, occu: Str)

  function EntryFields(es: seq<Entry>): (r: seq<Str>)
    ensures |r| == 3 * |es|
  {
    if es == [] then [] else [es[0].name, es[0].capa, es[0].occu] + EntryFields(es[1..])
  }

  /** The listing payload: `name\0capa\0occu\0` for every entry in order. */
  function Listing(es: seq<Entry>): Str {
    Fields(EntryFields(es))
  }

  lemma {:induction false} EntryFieldsAppend(es: seq<Entry>, e: Entry)
    ensures EntryFields(es + [e]) == EntryFields(es) + [e.name, e.capa, e.occu]
  {
    if es != [] {
      assert (es + [e])[1..] == es[1..] + [e];
      EntryFieldsAppend(es[1..], e);
    }
  }

  /** Appending an entry appends its three fields to the listing. */
  lemma ListingAppend(es: seq<Entry>, e: Entry)
    ensures Listing(es + [e]) == Listing(es) + e.name + [NUL] + e.capa + [NUL] + e.occu + [NUL]
  {
    EntryFieldsAppend(es, e);
    FieldsAppend(EntryFields(es), [e.name, e.capa, e.occu]);
    assert Fields([e.occu]) == e.occu + [NUL] + Fields([]);
  }
}
