# X-Plane UDP dataref wire logic, in Dafny

This project models the byte-level protocol logic of a small Python client
for X-Plane's UDP dataref interface:

- **Beacon discovery** (`find_xp` in libhelper.py). A multicast datagram is
  decoded against X-Plane's `becn_struct`:
  - the `BECN\0` header;
  - the `<BBiiIH` fixed fields at bytes 5..20;
  - the NUL-terminated hostname from byte 21;
  - the RakNet port in the last two bytes.
  The version gate (major 1, minor 2, host id 1) then picks the first
  acceptable beacon.
- **Request frames** (`XPDataRefs.subscribe` / `unsubscribe` in
  xpadvance.py). The `<4sxii400s` frame is 413 bytes: a 4-byte command, a
  zero byte, `i32` frequency, `i32` index and a 400-byte channel field. It is
  addressed to the discovered host's IP and port.
- **Response decoding and dispatch** (`XPDataRefs.read_udp`). An `RREF`
  datagram yields the `<if` pair at bytes 5..12. The handler is called with
  the subscription's own channel: the caller's callback, or
  `default_handler` when none was given.

Everything is a pure function over byte sequences (`seq<Byte>`, `Byte` =
0..255). Receiving is a fold over the finite list of datagrams received so
far, in arrival order:

- `Beacon.Listen` gives `Listening`, `Found(host)` or `Raised`;
- `Response.Dispatch` gives the handler calls made, and whether the loop died.

Files:

- `wire.dfy`: little-endian `H`/`I`/`i` fields, the `Ns` field, the NUL split.
- `beacon.dfy`: libhelper.py.
- `request.dfy`: the request frames of xpadvance.py.
- `response.dfy`: the receive side of xpadvance.py.

Behaviour of the code worth knowing, all modelled as written:

- A channel longer than 400 bytes is silently cut to its first 400 bytes by
  `struct`'s `400s`. No error is raised.
- A beacon-headed datagram shorter than 21 bytes makes `struct.unpack` raise.
  Nothing catches it, so `find_xp` raises (`Raised`).
- An `RREF` datagram shorter than 13 bytes makes `struct.unpack` raise
  inside `read_udp`. This ends the receive loop (`crashed`).
- A receive timeout during discovery does not end it. The code prints and
  keeps listening, which is `Listening` here.

## Model

| member | source | states |
|---|---|---|
| `Wire.ReadU16` | libhelper.py:66 | `<H` reads a value in [0, 2^16) whose low byte is the first byte and high byte the second |
| `Wire.ReadU32` | libhelper.py:61-62 | `<I` reads a value in [0, 2^32) whose base-256 digits, lowest first, are the four bytes in order |
| `Wire.ReadI32` | libhelper.py:61-62 | `<i` reads a value in [-2^31, 2^31); it is negative exactly when the top bit of the last byte is set, and it agrees with `<I` modulo 2^32 |
| `Wire.U16Bytes` | libhelper.py:66 | packing a `u16` gives 2 bytes that `<H` reads back as the same value |
| `Wire.U32Bytes` | libhelper.py:61-62 | packing a `u32` gives 4 bytes that `<I` reads back as the same value |
| `Wire.I32Bytes` | xpadvance.py:45-48 | packing an `i32` gives 4 bytes that `<i` reads back as the same value |
| `Wire.U32BytesOfRead` | libhelper.py:61-62 | the other direction: every 4 bytes are the packing of what `<I` reads from them |
| `Wire.U16BytesOfRead` | libhelper.py:66 | every 2 bytes are the packing of what `<H` reads from them |
| `Wire.I32BytesOfRead` | xpadvance.py:45-48 | every 4 bytes are the packing of what `<i` reads from them |
| `Wire.FixedBytes` | xpadvance.py:40 | the `Ns` field is exactly n bytes: byte i is the input's byte i when there is one, and 0 otherwise |
| `Wire.UpToNul` | libhelper.py:64-65 | `split(b'\x00')[0]` is a prefix of its input with no zero byte, and it stops at the end or just before a zero byte |
| `Wire.UpToNulOfTerminated` | libhelper.py:64-65 | a NUL-free name followed by a zero byte and anything else splits back to exactly the name |
| `Beacon.DecodeBeacon` | libhelper.py:41-66 | not a beacon iff the first five bytes are not `BECN\0`; an unpack error iff the header matches and the packet is shorter than 21 bytes; otherwise the fields lie in their ranges (bytes, `i32`, `u32`, `u16`), and the hostname is a NUL-free prefix of the bytes from offset 21 that ends at the packet's end or just before a zero byte |
| `Beacon.DecodeBeaconLayout` | libhelper.py:46-66 | for every parsed packet: bytes 5..20 are the packing of major, minor, host id, version, role and port as `<BBiiIH`; the hostname is copied from byte 21 and followed by a zero byte or the end; the last two bytes are the packing of the RakNet port, wherever the name ends |
| `Beacon.HasMagic` | libhelper.py:41-43 | the header check holds iff the packet has at least five bytes and they are `B`, `E`, `C`, `N`, 0 |
| `Beacon.Listen` | libhelper.py:37-78 | still listening only if every datagram was passed over; otherwise the result is the verdict on some datagram received that was not passed over |
| `Beacon.ListenKeepsListening` | libhelper.py:37-78 | `find_xp` keeps listening exactly as long as every datagram lacks the header or fails the (1, 2, 1) gate |
| `Beacon.ListenFirstDecisiveWins` | libhelper.py:37-78 | the first datagram that is not ignored decides the outcome: host info from its fields and sender, or an exception; datagrams before and after it do not matter |
| `Beacon.ListenAppend` | libhelper.py:38-78 | over two runs of datagrams, the second run counts only if the first left the listener still listening |
| `Beacon.EncodeBeacon` | libhelper.py:48-59 | a `becn_struct` beacon is 21 fixed bytes, the hostname, its zero byte, any filler and the 2-byte RakNet port |
| `Beacon.BeaconRoundTrip` | libhelper.py:48-66 | decoding a beacon built from any version tuple, fixed fields, NUL-free hostname, filler and RakNet port gives back every field: the RakNet port is read from the end whatever lies between it and the name |
| `Beacon.XPlaneBeacon` | libhelper.py:48-59 | the layout X-Plane 11.55 sends: version 1.2, host id 1, 523 bytes, with the hostname NUL-padded to the 500-byte name field |
| `Beacon.ListenGate` | libhelper.py:68-78 | a parsed beacon with (major, minor, host id) = (1, 2, 1) ends listening with its host info; any other tuple is passed over and listening continues with the rest |
| `Beacon.DiscoverRoundTrip` | libhelper.py:61-78 | a version 1.2, host id 1 beacon received from an address, with any filler after the name, makes discovery return host info with that address and the encoded fields |
| `Beacon.DiscoverTestHost` | libhelper.py:37-78 | a non-beacon datagram, then a PlaneMaker beacon (host id 2), then a "TESTHOST" X-Plane beacon (port 49000, version 115502, role 1, RakNet 49001): discovery returns the last one's fields |
| `Beacon.UnterminatedNameRunsToEnd` | libhelper.py:64-66 | when the name field holds no NUL, the hostname runs to the end of the packet and so contains the two bytes also read as the RakNet port |
| `Beacon.MinimalBeaconRaknetIsPort` | libhelper.py:46-66 | in a 21-byte beacon, the RakNet port is the `port` field and the hostname is empty |
| `Request.PackRequest` | xpadvance.py:45-48 | packing succeeds iff frequency and index fit in 32 signed bits; the frame is 413 bytes with a zero byte at offset 4 |
| `Request.UnpackRequest` | xpadvance.py:45-48 | the inverse layout: any 413-byte frame unpacks, to a 4-byte command, a 400-byte channel field and in-range frequency and index; any other length does not |
| `Request.PackRequestLayout` | xpadvance.py:33-48 | bytes 0..3 hold the command field, byte 4 is 0, bytes 5..8 hold frequency and bytes 9..12 index as `<i`, and bytes 13..412 hold the channel field |
| `Request.RequestRoundTrip` | xpadvance.py:45-48 | unpacking a packed frame gives back frequency and index exactly, and command and channel cut or zero-padded to their widths |
| `Request.UnpackThenPack` | xpadvance.py:45-48 | every 413-byte frame with a zero pad byte is the packing of what it unpacks to |
| `Request.ChannelFieldPadding` | xpadvance.py:40 | a channel of at most 400 bytes is copied and then zero-filled; one under 400 bytes with no NUL is recovered by splitting the field at the first NUL |
| `Request.ChannelTruncated` | xpadvance.py:45-48 | a channel over 400 bytes is cut silently: the frame equals the frame of its first 400 bytes |
| `Request.Subscribe` | xpadvance.py:45-51 | the subscribe datagram goes to the host's IP and port and unpacks to the command, frequency, index and channel; it fails iff frequency or index is outside 32 signed bits |
| `Request.Unsubscribe` | xpadvance.py:66-72 | the unsubscribe datagram goes to the host's IP and port and unpacks to frequency 0 with the same command, index and channel |
| `Request.UnsubscribeDiffersOnlyInFrequency` | xpadvance.py:62-69 | unsubscribe equals subscribe with frequency 0; against any subscribe frame it differs only in bytes 5..8, and not even there iff the frequency was 0 |
| `Response.DecodeResponse` | xpadvance.py:88-91 | passed over iff bytes 0..3 are not `RREF` (this covers the empty datagram); an unpack error iff `RREF` with fewer than 13 bytes; otherwise an in-range `i32` index and a 4-byte value |
| `Response.ResponseRoundTrip` | xpadvance.py:89-91 | for `RREF`, any byte 4, `<i` index, a 4-byte value and any trailing bytes, decoding returns exactly that index and value |
| `Response.PadByteIgnored` | xpadvance.py:91 | changing byte 4 never changes the decoding |
| `Response.HasRref` | xpadvance.py:88-90 | the header check holds iff the datagram has at least four bytes and they are `R`, `R`, `E`, `F` |
| `Response.HandlerFor` | xpadvance.py:92-99 | the default handler is chosen iff no callback was given; otherwise the given callback |
| `Response.Dispatch` | xpadvance.py:86-99 | no more calls than datagrams; every call gets the `RREF` header and the subscription's own channel, whatever index the frame carries; it goes to the callback if one was given and to the default handler otherwise |
| `Response.DispatchOne` | xpadvance.py:88-99 | a single datagram makes one call with its index and bytes 9..12, or no call, or ends the loop |
| `Response.DispatchAppend` | xpadvance.py:86-104 | the loop over two runs makes the first run's calls then the second's, unless the first run ended the loop |
| `Response.DispatchPerDatagram` | xpadvance.py:86-104 | unless a datagram ends the loop, the handler is called exactly once per `RREF` datagram and never for another, in arrival order |
| `Response.DispatchCrashes` | xpadvance.py:88-91 | the loop dies iff some datagram is an `RREF` datagram shorter than 13 bytes |
| `Response.NoiseThenReading` | xpadvance.py:86-99 | a non-`RREF` datagram followed by a reading for index 3 calls the handler exactly once, with that reading |
| `Response.ReadUdp` | xpadvance.py:84-104 | `read_udp` fails before receiving iff frequency or index is outside 32 signed bits; otherwise it sends an `RREF` subscribe frame to the host and then runs the receive loop over the inbox |

## Left out

- Sockets are left out, as OS I/O: socket creation, `SO_REUSEADDR`, multicast
  group `239.255.1.1` port 49707, the Windows/other bind branch, `sendto` and
  `recvfrom`. A received datagram is a parameter: bytes plus sender address.
  A sent one is a result: address, port and bytes.
- Timeouts are left out, as timing: `settimeout`, the print on
  `socket.timeout` and listening again. A finite run of datagrams that
  leaves discovery undecided is `Listening`.
- The `find_xp(self, wait)` argument quirk when called as `find_xp(wait)`
  concerns only the timeout value.
- Concurrency and timing are left out: one thread per subscription, the
  keep-alive loop in the `__main__` block, and the 10 ms sleep on an empty
  datagram. An empty datagram makes no call.
- Console output is left out: the `print`-based handlers, the sample callback
  and both `__main__` blocks.
- Beacon.DecodeBeacon: the hostname is kept as bytes, and its UTF-8 decoding
  (which may raise on invalid UTF-8) is not modelled.
- Response.DecodeResponse: the `f` value is kept as its 4 raw bytes. There is
  no floating-point interpretation.
- X-Plane may send several `<if` pairs in one `RREF` datagram. The code reads
  only the first, and so does the model.
- The default argument `frequency=10` of `subscribe` is not modelled.
  `read_udp` always passes its own frequency.
- `read_udp` never calls `unsubscribe`, and `unsubscribe` sends a frame on
  every call. There is no subscription state to model beyond the frames.
- Response.Dispatch: the handler is assumed to return. A callback that
  raises ends `read_udp` just as a short `RREF` frame does; the model does
  not record handler failures, so `DispatchPerDatagram` holds only for
  handlers that return.
