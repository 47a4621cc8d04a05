/** Packet framing over a byte stream (chatlinker.c): `readn` reads exactly n
    bytes, `recvpkt` reads one framed packet, `sendpkt` writes one. A frame is
    a one-byte type tag, the payload length as four bytes in network (big
    endian) order, then the payload bytes. */
module Linker {
  import opened Wrappers
  import opened Bytes
  import opened Protocol

  const LENGTH_BYTES := 4
  const HEADER_LEN := 1 + LENGTH_BYTES
  const TWO32 := 0x1_0000_0000

  function FromBigEndian32(b: Str): (r: nat)
    requires |b| == LENGTH_BYTES
    ensures r < TWO32
  {
    ((b[0] as int * 256 + b[1]) * 256 + b[2]) * 256 + b[3]
  }

  /** `htonl`: a 32-bit value as four bytes, most significant first. */
  function BigEndian32(x: nat): (r: Str)
    requires x < TWO32
    ensures |r| == LENGTH_BYTES && FromBigEndian32(r) == x
  {
    var b3, y := x % 256, x / 256;
    var b2, z := y % 256, y / 256;
    var b1, b0 := z % 256, z / 256;
    assert b0 < 256 by {
      assert y < 0x100_0000;
      assert z < 0x1_0000;
    }
    [b0, b1, b2, b3]
  }

  /** The bytes `sendpkt(sd, kind, len, buf)` writes: the tag, `htonl(len)`,
      and the first `len` bytes of `buf` when `len` is positive. */
  function Frame(kind: Byte, len: int, buf: Str): (r: Str)
    requires len > 0 ==> len <= |buf|
    ensures |r| >= HEADER_LEN && r[0] == kind
    ensures FromBigEndian32(r[1..HEADER_LEN]) == len % TWO32
    ensures r[HEADER_LEN..] == if len > 0 then buf[..len] else []
  {
    [kind] + BigEndian32(len % TWO32) + (if len > 0 then buf[..len] else [])
  }

  /** Lengths from here up do not fit the 32-bit `int` count of `readn`. */
  const INT_LIMIT := 0x8000_0000

  /** The count `readn` receives for a length `recvpkt` holds in a `long`:
      its parameter is a 32-bit `int`, so it gets the same low 32 bits read
      as two's complement, and a length of 2^31 or more arrives negative. */
  function ReadCount(len: nat): (r: int)
    requires len < TWO32
    ensures -INT_LIMIT <= r < INT_LIMIT && (len - r) % TWO32 == 0
    ensures r > 0 <==> 0 < len < INT_LIMIT
  {
    if len < INT_LIMIT then len else len - TWO32
  }

  /** What `recvpkt` makes of the bytes a peer sends: the packet, when the tag,
      the length and the payload `readn` is asked for are all there. A
      length whose count is not positive (0, or 2^31 and more) reads no
      payload: the text is then empty and whatever follows the header stays
      on the stream. */
  function Decode(bs: Str): (r: Option<Packet>)
    ensures r.Some? ==> && |bs| >= HEADER_LEN && bs[0] == r.value.kind
                        && r.value.lent == FromBigEndian32(bs[1..HEADER_LEN])
                        && r.value.text <= bs[HEADER_LEN..]
                        && (if ReadCount(r.value.lent) > 0 then |r.value.text| == r.value.lent else r.value.text == [])
  {
    if |bs| < HEADER_LEN then None
    else
      var n := FromBigEndian32(bs[1..HEADER_LEN]);
      if ReadCount(n) <= 0 then Some(Packet(bs[0], n, []))
      else if |bs| < HEADER_LEN + n then None
      else Some(Packet(bs[0], n, bs[HEADER_LEN..HEADER_LEN + n]))
  }

  /** The bytes a peer has sent, in the order the kernel hands them out. */
  function Concat(chunks: seq<Str>): Str {
    if chunks == [] then [] else chunks[0] + Concat(chunks[1..])
  }

  /** One end of a connection. The kernel hands out the bytes that arrived as
      `chunks`: one `read` returns at most the rest of the first chunk (any
      pattern of short reads is a way of cutting the stream into chunks), and
      once no chunk is left `read` returns `ending`: 0 when the peer closed
      the connection, -1 on an error. `written` records every byte written. */
  class Socket {
    var chunks: seq<Str>
    var ending: int
    var written: Str

    ghost predicate Valid()
      reads this
    {
      (forall i :: 0 <= i < |chunks| ==> chunks[i] != []) && (ending == 0 || ending == -1)
    }

    /** The bytes still to be read. */
    ghost function Incoming(): Str
      reads this
    {
      Concat(chunks)
    }

    constructor (chunks: seq<Str>, ending: int)
      requires forall i :: 0 <= i < |chunks| ==> chunks[i] != []
      requires ending == 0 || ending == -1
      ensures Valid() && this.chunks == chunks && this.ending == ending && written == []
    {
      this.chunks, this.ending, written := chunks, ending, [];
    }

    /** `read(sd, buf + at, n)`: copies between 1 and n bytes that have
        arrived, or returns 0 or -1 when nothing is left. */
    method Read(buf: array<Byte>, at: nat, n: int) returns (count: int)
      requires Valid() && n > 0 && at + n <= buf.Length
      modifies this, buf
      ensures Valid() && ending == old(ending) && written == old(written)
      ensures old(Incoming()) == [] ==> count == ending && Incoming() == [] && buf[..] == old(buf[..])
      ensures old(Incoming()) != [] ==>
        && 0 < count <= n && count <= |old(Incoming())|
        && Incoming() == old(Incoming())[count..]
        && buf[..] == old(buf[..at]) + old(Incoming())[..count] + old(buf[at + count..])
    {
      if chunks == [] {
        count := ending;
        return;
      }
      var head := chunks[0];
      count := if n < |head| then n else |head|;
      forall k | 0 <= k < count {
        buf[at + k] := head[k];
      }
      assert Concat(chunks) == head + Concat(chunks[1..]);
      if count == |head| {
        chunks := chunks[1..];
      } else {
        chunks := [head[count..]] + chunks[1..];
        assert Concat(chunks) == head[count..] + Concat(old(chunks)[1..]);
      }
    }

    /** `write(sd, data, |data|)`; the source ignores its result. */
    method Write(data: Str)
      modifies this
      ensures written == old(written) + data
      ensures chunks == old(chunks) && ending == old(ending)
    {
      written := written + data;
    }
  }

  /** `readn`: reads until exactly n bytes have arrived, across short reads;
      fails as soon as a read returns 0 or -1, however much came before. */
  method ReadN(sd: Socket, buf: array<Byte>, n: int) returns (ok: bool)
    requires sd.Valid() && n <= buf.Length
    modifies sd, buf
    ensures sd.Valid() && sd.ending == old(sd.ending) && sd.written == old(sd.written)
    ensures ok <==> n <= |old(sd.Incoming())|
    ensures ok && n > 0 ==> buf[..n] == old(sd.Incoming())[..n] && sd.Incoming() == old(sd.Incoming())[n..]
    ensures ok && n <= 0 ==> sd.Incoming() == old(sd.Incoming()) && buf[..] == old(buf[..])
    ensures !ok ==> sd.Incoming() == [] && buf[..|old(sd.Incoming())|] == old(sd.Incoming())
    ensures n > 0 ==> buf[n..] == old(buf[n..])
  {
    ghost var src := sd.Incoming();
    var toberead := n;
    var ptr := 0;
    while toberead > 0
      invariant sd.Valid() && sd.ending == old(sd.ending) && sd.written == old(sd.written)
      invariant 0 <= ptr && toberead == n - ptr && ptr <= |src|
      invariant if n > 0 then ptr <= n else ptr == 0
      invariant buf[..ptr] == src[..ptr]
      invariant forall i :: ptr <= i < buf.Length ==> buf[i] == old(buf[i])
      invariant sd.Incoming() == src[ptr..]
    {
      var byteread := sd.Read(buf, ptr, toberead);
      if byteread <= 0 {
        return false;
      }
      toberead := toberead - byteread;
      ptr := ptr + byteread;
    }
    return true;
  }

  /** A fresh buffer of `n` bytes filled by `readn`, as `recvpkt` does for
      each part of a frame: the next `n` bytes of the stream, or none when
      the stream ends first. */
  method ReadField(sd: Socket, n: nat) returns (r: Option<Str>)
    requires sd.Valid()
    modifies sd
    ensures sd.Valid() && sd.ending == old(sd.ending) && sd.written == old(sd.written)
    ensures r.Some? <==> n <= |old(sd.Incoming())|
    ensures r.Some? ==> r.value == old(sd.Incoming())[..n] && sd.Incoming() == old(sd.Incoming())[n..]
    ensures r.None? ==> sd.Incoming() == []
  {
    var buf := new Byte[n];
    var ok := ReadN(sd, buf, n);
    if !ok {
      return None;
    }
    if n == 0 {
      return Some([]);
    }
    assert buf[..] == buf[..n];
    return Some(buf[..]);
  }

  /** `recvpkt`: the type byte, the length field, then (only when the
      length is positive) the payload, read with the count `readn` gets;
      NULL when any of them is cut short. */
  method RecvPkt(sd: Socket) returns (pkt: Option<Packet>)
    requires sd.Valid()
    modifies sd
    ensures sd.Valid() && sd.ending == old(sd.ending) && sd.written == old(sd.written)
    ensures pkt == Decode(old(sd.Incoming()))
    ensures pkt.Some? ==> pkt.value.lent >= 0 && sd.Incoming() == old(sd.Incoming())[HEADER_LEN + |pkt.value.text|..]
    ensures pkt.None? ==> sd.Incoming() == []
  {
    ghost var src := sd.Incoming();
    var kind := ReadField(sd, 1);
    if kind.None? {
      return None;
    }
    var size := ReadField(sd, LENGTH_BYTES);
    if size.None? {
      return None;
    }
    assert size.value == src[1..HEADER_LEN];
    var lent := FromBigEndian32(size.value);
    var text: Str := [];
    if lent > 0 {
      var count := ReadCount(lent);
      if count > 0 {
        var body := ReadField(sd, count);
        if body.None? {
          return None;
        }
        assert body.value == src[HEADER_LEN..HEADER_LEN + lent];
        text := body.value;
      } else {
        // `readn` with a negative count reads nothing and reports success;
        // the buffer `malloc` returned is left as it was.
        var buf := new Byte[lent];
        var ok := ReadN(sd, buf, count);
        assert ok;
      }
    }
    pkt := Some(Packet(kind.value[0], lent, text));
  }

  /** `sendpkt`: writes the header, then the payload when `len` is positive. */
  method SendPkt(sd: Socket, kind: Byte, len: int, buf: Str)
    requires len > 0 ==> len <= |buf|
    modifies sd
    ensures sd.written == old(sd.written) + Frame(kind, len, buf)
    ensures sd.chunks == old(sd.chunks) && sd.ending == old(sd.ending)
  {
    var tmp := new Byte[HEADER_LEN];
    var siz := BigEndian32(len % TWO32);
    tmp[0] := kind;
    tmp[1], tmp[2], tmp[3], tmp[4] := siz[0], siz[1], siz[2], siz[3];
    sd.Write(tmp[..]);
    if len > 0 {
      sd.Write(buf[..len]);
    }
  }

  /** A received frame is the packet that was sent: the same type, the same
      length and the first `len` bytes of the sender's buffer, whatever
      bytes follow it on the stream, for every length `readn` can count. */
  lemma DecodeFrame(kind: Byte, len: int, buf: Str, rest: Str)
    requires 0 <= len < INT_LIMIT && len <= |buf|
    ensures Decode(Frame(kind, len, buf) + rest) == Some(Packet(kind, len, if len > 0 then buf[..len] else []))
  {
    var bs := Frame(kind, len, buf) + rest;
    assert bs[1..HEADER_LEN] == Frame(kind, len, buf)[1..HEADER_LEN];
    assert bs[HEADER_LEN..HEADER_LEN + len] == Frame(kind, len, buf)[HEADER_LEN..];
  }

  /** A packet sent with its payload's own length, as every `sendpkt` of the
      server and the client does, is received as that same packet. */
  lemma ReplyOnWire(kind: Byte, payload: Str, rest: Str)
    requires |payload| < INT_LIMIT
    ensures Decode(Frame(kind, |payload|, payload) + rest) == Some(Reply(kind, payload))
  {
    DecodeFrame(kind, |payload|, payload, rest);
    assert payload[..|payload|] == payload;
  }

  /** With length 0 nothing follows the header, and the packet read back has
      an empty payload. */
  lemma EmptyFrame(kind: Byte, buf: Str)
    ensures Frame(kind, 0, buf) == [kind, 0, 0, 0, 0]
    ensures Decode([kind, 0, 0, 0, 0]) == Some(Packet(kind, 0, []))
  {
    assert BigEndian32(0) == [0, 0, 0, 0];
    var bs: Str := [kind, 0, 0, 0, 0];
    assert bs[1..HEADER_LEN] == [0, 0, 0, 0];
    assert FromBigEndian32(bs[1..HEADER_LEN]) == 0;
    assert bs[HEADER_LEN..HEADER_LEN] == [];
  }

  /** `recvpkt` fails exactly when the type byte, the length field or the payload
      it asks `readn` for is cut short by the end of the stream. */
  lemma DecodeFailsOnShortInput(bs: Str)
    ensures |bs| < HEADER_LEN ==> Decode(bs) == None
    ensures |bs| >= HEADER_LEN ==>
              (Decode(bs) == None <==> |bs| - HEADER_LEN < FromBigEndian32(bs[1..HEADER_LEN]) < INT_LIMIT)
  {
  }

  /** A length of 2^31 or more, which `readn` receives as a negative count:
      `recvpkt` returns the header alone, and the payload bytes stay on the
      stream, to be read as the start of the next packet. */
  lemma LongLengthLeavesPayload(bs: Str)
    requires |bs| >= HEADER_LEN && FromBigEndian32(bs[1..HEADER_LEN]) >= INT_LIMIT
    ensures Decode(bs) == Some(Packet(bs[0], FromBigEndian32(bs[1..HEADER_LEN]), []))
  {
  }
}
