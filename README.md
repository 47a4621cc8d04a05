# ChatRoom in Dafny

A model of the core of a small TCP chat system written in C. It has three parts:

- a server (`chatserver.c`) that keeps a fixed table of chat groups and their members;
- the framing code both ends share (`chatlinker.c`);
- a client (`chatclient.c`).

The model covers these pieces, and the properties they promise are proved about it:

- **Group registry** (`Rooms`, `Registry`):
  - `Registry.Registry` is a class. It holds the group array that `initgroups` builds and the packets the server has sent.
  - Its methods scan, join, leave, list and relay in place, in the same order as `findgroup`, `findmember*`, `joingroup`, `leavegroup`, `listgroups` and `relaymsg`.
  - Each method is proved equal to a pure function over `seq<Group>` in `Rooms`.
  - The invariants hold across every operation:
    - occupancy equals list length;
    - occupancy stays within capacity;
    - member names are unique across all groups.
  - The join rejection order, the reason texts, head insertion and unlinking are stated and proved there.
- **Payloads** (`Protocol`, `Bytes`):
  - payloads are NUL-terminated text fields: C strings as the bytes before the first NUL, and `sprintf("%d")` as decimal digits;
  - round trips are proved for the join request, the group listing and the relayed text.
- **Framing** (`Linker`):
  - a `Socket` class models the kernel's short reads;
  - `ReadN`, `RecvPkt` and `SendPkt` are the loops of `readn`, `recvpkt` and `sendpkt`;
  - the frame is a type byte, a 4-byte big-endian length and the payload. With a length below 2^31 it decodes back to the packet that was sent. A longer length reaches `readn` as a negative `int` count, so its payload is not read and stays on the stream.
- **Server address** (`Address`):
  - the `host:port` text the server publishes;
  - the client's in-place split of that text at the first colon;
  - `strtoul(…, 0)` followed by the `unsigned short` cast, which turns the port text back into the port.
- **Event loop** (`EventLoop`):
  - one round of the server's `select` loop, as a pure function and as `Server.Step`;
  - ready clients from descriptor 3 to `maxsd` are serviced in ascending order, and the listening socket is skipped;
  - a failed read runs `leavegroup` and clears the socket from the live set;
  - unknown packet types are ignored;
  - a pending connection is accepted last.
- **Client** (`Client`):
  - `showgroups`, the join request and the reply check;
  - the quit test;
  - the chat line turned into a packet, and the display split, with end-to-end lemmas back to the server's functions.

The code writes the length field as `sizeof(long)` bytes. The model uses the 4 big-endian bytes of the 32-bit value that `htonl`/`ntohl` convert; see "Left out".

## Model

| member | source | states |
|---|---|---|
| Bytes.CPrefix | chatserver.c:338 | what `strdup`/`strcpy`/`strlen` see of a buffer: a NUL-free prefix of it, ending at the first NUL, and the whole buffer when it has none |
| Bytes.AfterCStr | chatserver.c:236 | `p + strlen(p) + 1`: the buffer is the C string, its NUL and this rest; it is strictly shorter than a non-empty buffer |
| Bytes.SplitCStr | chatserver.c:235-236 | splitting `a\0b` at the first NUL gives back `a` and `b` when `a` holds no NUL |
| Bytes.Decimal | chatserver.c:363-367 | `sprintf("%d")` gives a non-empty C string: the decimal digits, with a leading minus for a negative number |
| Bytes.Digits | chatserver.c:363-367 | the digits `%d` prints for a natural number: at least one, all decimal digits, and no leading 0 unless the number is 0 |
| Bytes.PutCStr | chatserver.c:359-360 | writing a string and its NUL at `bufrptr` leaves the bytes before and after untouched and advances the position by `strlen + 1` |
| Protocol.FirstTwoOfFields | chatserver.c:235-236 | a `a\0b\0` payload, with `a` and `b` NUL-free, has both fields terminated inside it and splits back to `(a, b)` |
| Protocol.FirstTwo | chatserver.c:235-236 | `gname = text; mname = gname + strlen(gname) + 1`: two C strings, the first a prefix of the payload |
| Protocol.TwoFields | chatserver.c:488-493 | two NUL-terminated fields, as in the relay payload `sender\0text\0` and the join request: `|a| + |b| + 2` bytes long |
| Protocol.ListingAppend | chatserver.c:356-369 | each further group appends exactly `name\0capa\0occu\0` to the listing |
| Linker.BigEndian32 | chatlinker.c:225 | `htonl`: four bytes, most significant first, that decode back to the same 32-bit value |
| Linker.FromBigEndian32 | chatlinker.c:198 | `ntohl` of the four length bytes, read as an unsigned 32-bit value: always below 2^32 |
| Linker.Frame | chatlinker.c:217-231 | the bytes `sendpkt` writes: the type byte, then the length modulo 2^32 in network order, then exactly `len` payload bytes (none when `len` is 0) |
| Linker.ReadCount | chatlinker.c:209 | the `long` length handed to `readn`'s `int n`: the same value modulo 2^32, within the 32-bit `int` range, and positive exactly for lengths 1 to 2^31 - 1 |
| Linker.Decode | chatlinker.c:176-215 | what `recvpkt` makes of a stream: a packet whose type is the first byte and whose length is the header's length field; when `readn`'s count is positive the text is the `lent` bytes after the header, and otherwise (length 0, or 2^31 and more) it is empty and nothing after the header is read (when it fails: `DecodeFailsOnShortInput`) |
| Linker.Socket.Read | chatlinker.c:162 | a `read`: between 1 and `n` bytes taken from the front of the stream, or 0/-1 once the stream is exhausted; the destination beyond the bytes read is untouched |
| Linker.Socket.Write | chatlinker.c:227-231 | a `write`: the bytes are appended to what the connection has been sent, and the incoming stream is untouched |
| Linker.ReadN | chatlinker.c:151-172 | `readn` succeeds exactly when `n` bytes are available, leaves exactly those bytes in the buffer and consumes them; if fewer than `n` arrive before a read returns 0 or -1, it fails and everything that was available has been consumed |
| Linker.ReadField | chatlinker.c:187-212 | a buffer of `n` bytes filled by `readn`: exactly the next `n` bytes of the stream, which are consumed, or none once the stream ends first |
| Linker.RecvPkt | chatlinker.c:175-214 | `recvpkt` returns the decoded packet at the front of the stream and consumes exactly its header and the payload bytes `readn` was asked for (none when the count is not positive), or returns NULL when the type, the length or that payload is incomplete |
| Linker.SendPkt | chatlinker.c:217-232 | `sendpkt` appends exactly the frame of (type, length, first `len` bytes of the buffer) to the connection |
| Linker.DecodeFrame | chatlinker.c:175-232 | for every length below 2^31, reading a frame written by `sendpkt(t, len, buf)` gives type `t`, length `len` and the first `len` bytes of `buf`, whatever follows it on the stream |
| Linker.ReplyOnWire | chatlinker.c:176-232 | a packet sent with the payload's own length, below 2^31, as `listgroups`, `relaymsg` and `joingroup` send, is read back by `recvpkt` as exactly that packet, whatever follows it |
| Linker.EmptyFrame | chatlinker.c:201-214 | with length 0 the frame is the 5 header bytes and decodes to an empty payload |
| Linker.DecodeFailsOnShortInput | chatlinker.c:188-212 | decoding fails exactly when the header is incomplete, or the length field is below 2^31 and there are fewer payload bytes than it |
| Linker.LongLengthLeavesPayload | chatlinker.c:200-211 | a length field of 2^31 or more gives the header alone, with an empty text, whatever follows; `RecvPkt` then leaves the payload bytes on the stream |
| Address.Target | chatlinker.c:72 | `sprintf("%s:%d")` of the host name and port is a C string |
| Address.IndexOf | chatlinker.c:112 | `index(s, c)` finds the first position of `c` within the C string, or none when `c` does not occur in it |
| Address.FoundInCPrefix | chatlinker.c:112 | the colon `index` finds lies inside the C string, and the bytes before it are a colon-free C string |
| Address.SplitTarget | chatlinker.c:109-115 | the host and port texts: none exactly when the C string has no colon; otherwise the colon-free C string before the first colon, and the C string of the bytes after that colon |
| Address.StrToUL | chatlinker.c:118 | `strtoul` with base 0 (hexadecimal after `0x`, octal after `0`, decimal otherwise) saturates at `ULONG_MAX` |
| Address.ReadTarget | chatlinker.c:102-115 | terminating the link text in `linktrgt` and overwriting its first colon with NUL yields the host before the colon and the port text after it, or none without a colon |
| Address.SplitInBuffer | chatlinker.c:112-113 | overwriting the colon of the terminated link text with NUL leaves the host as the C string at the start and the port text as the C string after it |
| Address.PortNumber | chatlinker.c:118 | `(unsigned short) strtoul(servport, NULL, 0)` is below 65536 |
| Address.PortRoundTrip | chatlinker.c:118 | the decimal port text the server wrote reads back (base 0, so a leading 0 selects octal) as the same port |
| Address.PortZero | chatlinker.c:118 | the port text `0` reads back as port 0 |
| Address.TargetRoundTrip | chatlinker.c:112-118 | the target formatted at line 72 splits back into the same host and port text, and the port text into the same port, when the host has no colon |
| Address.SplitOfTarget | chatlinker.c:112-113 | the target formatted at line 72 splits at the colon that follows a colon-free host |
| Rooms.Initial | chatserver.c:328-342 | `initgroups` makes one group per configured pair, in order: the name as `strdup` copies it, the capacity, occupancy 0 and no members |
| Rooms.InitialConsistent | chatserver.c:328-342 | the fresh table keeps the registry invariant, and keeps occupancy within capacity exactly when no capacity is negative |
| Rooms.GroupIndex | chatserver.c:59-69 | `findgroup`: the index of the first group with that name, or -1 exactly when no group has it |
| Rooms.IndexIn | chatserver.c:82-86 | the first member of a list, from its head, that matches, or none |
| Rooms.Locate | chatserver.c:72-109 | `findmemberbyname`/`findmemberbysock`: the first matching member, scanning groups in index order and each list from its head, or none when no member matches |
| Rooms.LocateByName | chatserver.c:393-396 | the name lookup finds a member exactly when some member anywhere has that name |
| Rooms.JoinVerdict | chatserver.c:384-409 | rejection in order: no group of that name, then the name in use in any group, then a full group; admission otherwise |
| Rooms.JoinedGroups | chatserver.c:384-431 | a join never adds, removes, renames or resizes a group; `JoinRejected` and `JoinAdmits` state what it does change |
| Rooms.Join | chatserver.c:378-435 | `joingroup` appends exactly one reply, JOIN_ACCEPTED or JOIN_REJECTED, addressed to the joiner |
| Rooms.JoinRejected | chatserver.c:384-409 | a rejected join changes no group and replies JOIN_REJECTED with the reason of the first failed rule, a non-empty text without a NUL |
| Rooms.JoinAdmits | chatserver.c:411-434 | a successful join puts exactly one member (name, socket, group) at the head of that group's list, raises only that group's occupancy, and replies JOIN_ACCEPTED with length 0 |
| Rooms.JoinReply | chatserver.c:385-433 | `joingroup`'s reply: JOIN_ACCEPTED exactly for an admitted member, with length 0; otherwise JOIN_REJECTED with a non-empty C-string reason (`no such group`, `member name already exists`, `room is full`) and length `strlen(errmsg)` |
| Rooms.JoinKeepsConsistent | chatserver.c:393-431 | a join keeps occupancy equal to list length, each member's group index right, and member names unique |
| Rooms.JoinKeepsCapacity | chatserver.c:404-431 | a join never takes a group above its capacity |
| Rooms.RemoveAt | chatserver.c:448-456 | unlinking a member leaves the list one shorter, with the members before it in place and those after it moved up by one |
| Rooms.LeftGroups | chatserver.c:443-467 | a leave never adds, removes, renames or resizes a group; `LeftMembers` states what it does change |
| Rooms.Leave | chatserver.c:438-468 | `leavegroup` sends nothing and keeps every group |
| Rooms.OnSock | chatserver.c:443-467 | `leavegroup` and `relaymsg` return 0 exactly when no member is on the socket, and a leave then changes nothing |
| Rooms.LeftMembers | chatserver.c:443-462 | a leave removes exactly the member found and nothing else: other groups are untouched, the rest of its list keeps its order, its group keeps its name and capacity, and its occupancy drops by one |
| Rooms.LeaveKeepsConsistent | chatserver.c:438-468 | a leave keeps the registry invariant |
| Rooms.LeaveKeepsCapacity | chatserver.c:462 | a leave keeps occupancy within capacity |
| Rooms.LeaveTwice | chatserver.c:443-445 | with at most one member on the socket, after a leave none is left, so a second leave returns 0 and changes nothing |
| Rooms.LeaveFreesName | chatserver.c:438-468 | the name of the member who left is then free in every group |
| Rooms.LeaveUndoesJoin | chatserver.c:411-462 | a join from a socket with no member, followed by a leave on that socket, restores the table |
| Rooms.LocateFirst | chatserver.c:72-109 | the new head of a group's list is what `findmemberbysock` finds when no earlier group has a member on that socket |
| Rooms.JoinAddsOnlyItsSock | chatserver.c:418-427 | a join gives a member only to its own socket |
| Rooms.LeaveAddsNoSock | chatserver.c:448-456 | a leave gives no socket a member |
| Rooms.LeaveKeepsSockUnique | chatserver.c:448-456 | a leave keeps any socket on at most one member |
| Rooms.JoinKeepsSockUnique | chatserver.c:418-427 | a join on another socket keeps a socket on at most one member |
| Rooms.Entries | chatserver.c:356-369 | the listing takes each group in index order with its capacity and occupancy in decimal |
| Rooms.ListingOf | chatserver.c:356-370 | the listing payload; no contract of its own: `Client.ShowsServerTable` proves the client reads it back as one entry per group |
| Rooms.List | chatserver.c:347-375 | `listgroups` changes no group and appends exactly one LIST_GROUPS packet, addressed to the asker |
| Rooms.ListingOfPrefix | chatserver.c:356-369 | rendering group `k` appends `name\0capa\0occu\0` to the listing of the groups before it |
| Rooms.ListingOfPrefixLength | chatserver.c:350-370 | the bytes written for the first groups never exceed the whole listing, so a listing that fits the buffer is written within it |
| Rooms.Fanout | chatserver.c:496-502 | the relay loop sends at most one packet per member |
| Rooms.FanoutSnoc | chatserver.c:496-502 | one more member of the list adds exactly its own packet, or none when it is on the sender's socket |
| Rooms.FanoutReaches | chatserver.c:496-502 | the relay loop sends exactly to the members on other sockets, always the same USER_TEXT packet |
| Rooms.Relayed | chatserver.c:480-502 | the packets of one relay; no contract of its own: `Rooms.RelayReaches` states whom they reach |
| Rooms.Relay | chatserver.c:471-505 | `relaymsg` changes no group and only appends packets |
| Rooms.RelayReaches | chatserver.c:480-502 | an unregistered sender sends nothing; otherwise `sender\0text\0` goes to exactly the members of the sender's group on other sockets |
| Registry.Registry.constructor | chatserver.c:320-342 | the array holds the initial table and nothing has been sent |
| Registry.Registry.FindGroup | chatserver.c:59-69 | the loop returns the first index with that name, or -1 |
| Registry.Registry.FindMember | chatserver.c:72-109 | the nested loops return the first match in group order and list order, or none |
| Registry.Registry.ListGroups | chatserver.c:347-375 | the packet buffer holds the listing and one LIST_GROUPS packet of exactly that length is sent; the table is unchanged |
| Registry.Registry.JoinGroup | chatserver.c:378-435 | the table and the outbox become those of the pure join; the invariant is kept; 1 is returned on admission and 0 on rejection |
| Registry.Registry.LeaveGroup | chatserver.c:438-468 | the table becomes that of the pure leave (unlink from the group the member records, one less occupant); the invariant is kept; the return value says whether a member was found |
| Registry.Registry.RelayMsg | chatserver.c:471-505 | the outbox grows by exactly the pure relay's packets, in list order; the table is unchanged |
| Registry.RelayPayload | chatserver.c:488-493 | the buffer built for a relay holds exactly `sender\0text\0` |
| Registry.Registry.SendToOthers | chatserver.c:496-502 | the loop over the sender's list appends exactly the fan-out packets, in list order |
| EventLoop.Dispatch | chatserver.c:229-245 | unknown types change nothing; listing and text requests change no group; a leave sends nothing; packets are only appended |
| EventLoop.Service | chatserver.c:185-249 | a failed read removes the socket from the live set and sends nothing; a packet keeps the live set; packets are only appended |
| EventLoop.Services | chatserver.c:178-251 | the loop over descriptors only appends packets and never adds to the live set; past `maxsd` it does nothing |
| EventLoop.Accepted | chatserver.c:257-295 | with the listening socket ready, an accepted descriptor joins the live set and `maxsd` becomes the larger of the two; a failed accept ends the server; otherwise nothing changes |
| EventLoop.DispatchKeepsInvariants | chatserver.c:229-245 | every request type keeps the registry invariant and the capacity bound |
| EventLoop.ServicesKeepInvariants | chatserver.c:178-251 | a round keeps the invariant and the capacity bound, only appends packets, and removes from the live set exactly the clients whose read failed |
| EventLoop.DispatchAddsNoSock | chatserver.c:229-245 | only a join made on a socket gives that socket a member |
| EventLoop.DispatchKeepsSockUnique | chatserver.c:229-245 | requests from other sockets keep a socket on at most one member |
| EventLoop.FailedClientLeaves | chatserver.c:192-221 | a client whose read failed, and that had at most one member, has none when the round ends |
| EventLoop.GoneStaysGone | chatserver.c:178-251 | once a socket has no member, servicing the later sockets of the round gives it none |
| EventLoop.Server.constructor | chatserver.c:153-158 | `maxsd` is the listening socket and the live set holds only it |
| EventLoop.Server.Step | chatserver.c:170-296 | the table, live set and `maxsd` after one round are those of the pure round followed by the accept step; the loop keeps running unless the accept failed; the invariants hold |
| EventLoop.Server.Serve | chatserver.c:229-245 | serving one packet calls the registry operation its type names, and the table becomes that of `Dispatch` |
| Client.IsListing | chatclient.c:26-35 | a payload `showgroups` walks without running past a field that lacks its NUL: the triples it visits render back to exactly the payload; no contract of its own: `Client.ShowsServerTable` and `Client.ListingOnWire` show the server's listing is one |
| Client.ParseListing | chatclient.c:20-39 | the triples `showgroups` visits; no contract of its own: `Client.ParseListingOfListing` proves it inverts the server's rendering |
| Client.Skip | chatclient.c:31 | `tptr + strlen(tptr) + 1` moves forward and stays within the payload, or reaches its end |
| Client.NulFrom | chatclient.c:30-35 | the position `strlen` stops at from `tptr`: never before `tptr` and never past the payload; `Client.NulFromCPrefix` states what lies between |
| Client.NulFromCPrefix | chatclient.c:31 | the bytes from `tptr` up to the first NUL are the C string that `strlen(tptr)` measures |
| Client.LineAt | chatclient.c:30-35 | one line of the listing moves the position forward and stays within the payload |
| Client.ParseFromSuffix | chatclient.c:26-38 | reading from a position is parsing the rest of the payload |
| Client.ShowGroups | chatclient.c:20-39 | walking `tptr` until `lent` bytes are used yields exactly the parsed (name, capacity, occupancy) triples |
| Client.ParseListingOfListing | chatclient.c:26-38 | the triples parse back from a listing exactly as they were rendered |
| Client.ParseLine | chatclient.c:30-35 | three NUL-terminated strings at the front of the listing are read as one entry, followed by the entries of the rest |
| Client.ShowsServerTable | chatclient.c:26-38 | the client reads the server's listing as one entry per group: its name, capacity and occupancy |
| Client.ListingOnWire | chatclient.c:52-69 | the listing the server frames (chatserver.c:373) reaches the client as the LIST_GROUPS packet it expects, well formed and parsed into one entry per group |
| Client.StrNEq | chatclient.c:78 | `strncmp(a, b, n) == 0`; no contract of its own: `Client.StrNEqPrefix` states what it decides |
| Client.StrNEqPrefix | chatclient.c:78 | `strncmp(s, q, strlen(q)) == 0` holds exactly when `s` starts with `q` |
| Client.Chomp | chatclient.c:73-74 | the line with its last byte cut off: one byte shorter, and still a C string |
| Client.EndsClient | chatclient.c:77-78 | the quit test at the prompts; no contract of its own: `Client.EndsClientMeans` states it |
| Client.EndsClientMeans | chatclient.c:77-82 | a prompt line ends the client exactly when it is empty or starts with "/end" |
| Client.BuildJoinRequest | chatclient.c:100-106 | the buffer holds `gname\0mname\0` and the length sent is `|gname| + |mname| + 2` |
| Client.JoinRequestSplits | chatclient.c:100-106 | the server splits the request back into the same group and member names |
| Client.JoinRequestOnWire | chatclient.c:106 | the framed request reaches the server as a JOIN_GROUP packet of the same length, from which it recovers both names |
| Client.JoinReplyOutcome | chatclient.c:109-135 | 1 exactly for JOIN_ACCEPTED and 0 exactly for JOIN_REJECTED; no packet or any other type exits with status 1 |
| Client.ReadsServerVerdict | chatclient.c:115-135 | any reply the server gives to a join is accepted by the client, which returns 1 exactly when the join was admitted |
| Client.JoinAGroup | chatclient.c:42-136 | a call that returns has sent LIST_GROUPS and then the join request of the two trimmed lines, has shown the parsed listing, and returns the reply check; it exits with 0 exactly when a prompt line asks to quit |
| Client.ChatPacket | chatclient.c:216-225 | a line starting with "/end" becomes LEAVE_GROUP with length 0; any other line becomes USER_TEXT of length `strlen + 1`, which includes the NUL |
| Client.Display | chatclient.c:192-207 | only a USER_TEXT packet is displayed, split at its first NUL into sender and message |
| Client.DisplayInvertsRelay | chatclient.c:207 | the display recovers the sender and text of the server's relay payload |
| Client.ChatLineArrives | chatclient.c:207 | every packet the server relays for a member's chat line is shown by the receiving client with that member's name and that line |
| Client.ChatLineOnWire | chatclient.c:192-207 | a member's chat line, relayed by the server, framed by `sendpkt` and read by `recvpkt`, is shown by the receiver with that member's name and that line |

## Left out

- Sockets and readiness (`select`, `accept`, `getpeername`, `gethostbyaddr`, `close`, the `FD_*` macros) are operating-system I/O. `Server.Step` takes the ready set, the outcome of `recvpkt` for each ready client, and the accepted descriptor as inputs.
- Socket creation, `bind`/`listen`/`connect`, the host-name calls, and `symlink`/`readlink` service discovery are foreign calls. Only the `host:port` text is modelled; the link text is a parameter of `Address.ReadTarget`.
- The `cleanup` signal handler and `unlink` are asynchronous process control.
- The `fopen`/`fscanf` reading of the configuration file is file I/O. `Rooms.Initial` and the `Registry` constructor take the parsed (name, capacity) pairs.
- Terminal input and all printing are user interface. This covers the server's admin log and the client's prompts, listing table and messages. Keyboard lines are parameters.
- Allocation failures (`calloc`/`malloc` returning NULL) are not modelled.
- Linker.Frame: the 1-byte type is followed by the 4-byte big-endian length that `htonl`/`ntohl` convert. On a 64-bit host the code actually sends `sizeof(long)` bytes of length: it writes 9 bytes out of an 8-byte `tmp` buffer, and reads 8.
- Linker.Frame: `Packet.lent` is a `long`, and the model's length is the 32-bit value the conversion keeps.
- Linker.FromBigEndian32: reads the length as an unsigned 32-bit value, as `ntohl` returns it into the 8-byte `long` of a 64-bit host, so `recvpkt` sees any length of 2^31 or more as positive. Such a length reaches `readn` as a negative count (`Linker.ReadCount`), which reads nothing.
- Linker.Decode: for a length of 2^31 or more, the text of the packet is the uninitialised buffer `malloc` returned; the model gives it an empty text. The server then serves the packet by its type, and the payload bytes are read as the next header.
- Linker.Socket.Write: every `write` is taken to succeed in full. `sendpkt` ignores what `write` returns (chatlinker.c:227, 231), so a short write or an error goes unnoticed. A write to a reset peer raises SIGPIPE, which the server does not catch (it sets handlers only for SIGTERM and SIGINT, chatserver.c:142-143), and that ends the process. Linker.SendPkt and the round trips over the wire (`Linker.ReplyOnWire`, `Client.ListingOnWire`, `Client.JoinRequestOnWire`, `Client.ChatLineOnWire`) rest on this.
- Registry.Registry.ListGroups: requires the listing to fit the `MAXPKTLEN` packet buffer, because the C code does not check it and overruns the buffer.
- Registry.Registry.RelayMsg: requires `sender\0text\0` to fit the `MAXPKTLEN` packet buffer, for the same reason.
- Client.BuildJoinRequest: requires `gname\0mname\0` to fit `bufr`. Two long keyboard lines would overrun it in the C code.
- EventLoop.Server.Step: requires every packet of the round to be serviced within the C code's buffers (`RoundSafe`):
  - the listing and relay payloads fit;
  - a join request holds two NUL-terminated names;
  - a text holds a NUL.

  The C code does not check these and reads or writes past its buffers otherwise. That includes a payload of length 0, whose `text` is NULL.
- EventLoop.Server.Step: the packets are inputs, so no `Linker.Socket` is read inside the round. `Linker.RecvPkt` states what each of them is.
- Address.ReadTarget: requires the link text to be shorter than `MAXNAMELEN`. `readlink` can fill all 256 bytes, and then `linktrgt[bytecnt]` writes past the buffer.
- Address.ReadTarget: a text without a colon yields no address. The C code dereferences the NULL that `index` returns.
- Address.PortNumber: `strtoul` is modelled without leading white space, sign or `errno`. The text it reads is always the decimal port the server wrote.
- Client.Chomp: requires a non-empty line, as `fgets` returns it. End of input at the prompts is not captured: there `fgets` returns NULL and leaves `bufr` as it was (uninitialised at the first prompt, the trimmed group name at the second), and the code chomps that again. Only a line that starts with a NUL byte is empty, and `bufr[strlen(bufr) - 1]` then writes before the buffer. A last line without a newline loses its last real character, as in the code.
- Client.JoinAGroup: requires a LIST_GROUPS reply to be a well-formed listing (`IsListing`). With a field that lacks its NUL, `showgroups` reads past the payload.
- Client.Display: requires a USER_TEXT packet to hold two NUL-terminated fields (`HasTwoFields`). Otherwise, and for a payload of length 0 whose `text` is NULL, `strlen` at chatclient.c:207 reads past it.
- Client.ParseListing, Bytes.AfterCStr and Protocol.FirstTwo are total: a field without a terminator runs to the end of the payload, where the C code reads past it. `EventLoop.Dispatch` applies `FirstTwo` to any JOIN_GROUP payload, and `EventLoop.Server.Step` requires both terminators to be there (`Safe`). `Client.ShowGroups` and `Client.JoinAGroup` require `IsListing`, and `Client.Display` requires `HasTwoFields`.
- The client's outer loops (rejoining after a rejection, and the `select` between keyboard and socket) are not modelled as loops. Each event they handle is a function: `JoinAGroup`, `ChatPacket`, `Display`.
- The member lists are doubly linked in the code; here they are sequences and the `prev`/`next` pointers are left out. Head insertion and unlinking keep their effect on the order.
- Rooms.LeftGroups: unlinks from the group where the member was found. The code uses the group recorded in the member; the two agree under the registry invariant (`Registry.Registry.LeaveGroup` reads the recorded one).
- Occupancy is an unbounded integer. A negative configured capacity is never equal to the occupancy, so such a group admits without limit, and a 32-bit `occu` would eventually wrap.
- Nothing stops a second JOIN_GROUP from a socket that already has a member. "One member per socket" is therefore a hypothesis of `Rooms.LeaveTwice` and `EventLoop.FailedClientLeaves`, not an invariant.
- The JOIN_REJECTED reason is sent with length `strlen`, so no NUL is sent (`Rooms.JoinRejected`). The client prints it with `%s` from a buffer of exactly that length. That printing is not modelled.
- `maxsd` is never lowered when a client disconnects, and the model keeps that.
