/** Discovery of a running X-Plane host from its multicast beacon
    (`find_xp` in libhelper.py), with the socket stripped off: a beacon is
    decoded from the datagram's bytes, and listening is a fold over the
    datagrams received, in order. */
module Beacon {
  import opened Wire

  /** `b"BECN\x00"`. */
  const Magic: seq<Byte> := [0x42, 0x45, 0x43, 0x4E, 0]

  /** The 5-byte header plus the 16 bytes of `<BBiiIH`. */
  const FixedSize := 21

  /** Width of `computer_name` in X-Plane's `becn_struct`. */
  const NameFieldSize := 500

  /** Every field a beacon carries, before the version gate. */
  datatype BeaconFields = BeaconFields(
    major: int,
    minor: int,
    hostId: int,
    version: int,
    role: int,
    port: int,
    hostname: seq<Byte>,
    raknetPort: int)

  /** What one datagram is to the listener: not a beacon at all, a beacon
      header on a datagram too short for `struct.unpack` (which raises), or
      a decoded beacon. */
  datatype BeaconParse = NotBeacon | UnpackError | Parsed(fields: BeaconFields)

  /** The record `find_xp` returns; the hostname stays as bytes. */
  datatype HostInfo = HostInfo(
    ip: string,
    port: int,
    hostname: seq<Byte>,
    version: int,
    role: int,
    raknetPort: int)

  /** One received datagram together with the sender's address. */
  datatype Datagram = Datagram(payload: seq<Byte>, sender: string)

  /** The state of `find_xp` after a finite run of datagrams: still
      listening, returned host info, or raised out of the loop. */
  datatype Discovery = Listening | Found(host: HostInfo) | Raised

  /** `packet[0:5] == b"BECN\x00"`; a slice of a shorter packet is shorter
      than the magic and so never equal to it. */
  predicate HasMagic(p: seq<Byte>)
    ensures HasMagic(p) <==>
              && |p| >= 5
              && p[0] == 'B' as int && p[1] == 'E' as int && p[2] == 'C' as int && p[3] == 'N' as int
              && p[4] == 0
  {
    |p| >= 5 && p[..5] == Magic
  }

  function DecodeBeacon(p: seq<Byte>): (r: BeaconParse)
    ensures r.NotBeacon? <==> !HasMagic(p)
    ensures r.UnpackError? <==> HasMagic(p) && |p| < FixedSize
    ensures r.Parsed? ==>
      && 0 <= r.fields.major < 0x100 && 0 <= r.fields.minor < 0x100
      && IsI32(r.fields.hostId) && IsI32(r.fields.version)
      && IsU32(r.fields.role) && IsU16(r.fields.port) && IsU16(r.fields.raknetPort)
    ensures r.Parsed? ==> r.fields.hostname <= p[FixedSize..] && 0 !in r.fields.hostname
    ensures r.Parsed? && FixedSize + |r.fields.hostname| < |p| ==> p[FixedSize + |r.fields.hostname|] == 0
  {
    if !HasMagic(p) then NotBeacon
    else if |p| < FixedSize then UnpackError
    else Parsed(BeaconFields(
      p[5],
      p[6],
      ReadI32(p, 7),
      ReadI32(p, 11),
      ReadU32(p, 15),
      ReadU16(p, 19),
      UpToNul(p[FixedSize..]),
      ReadU16(p, |p| - 2)))
  }

  /** The gate: beacon version 1.2 from X-Plane itself (host id 1). */
  predicate Accepted(f: BeaconFields)
  {
    f.major == 1 && f.minor == 2 && f.hostId == 1
  }

  /** Host info is assembled from the beacon and the sender's address. */
  function ToHostInfo(f: BeaconFields, ip: string): HostInfo
  {
    HostInfo(ip, f.port, f.hostname, f.version, f.role, f.raknetPort)
  }

  /** A datagram the loop passes over: no beacon header, or a beacon that
      fails the gate. */
  predicate Ignored(p: seq<Byte>)
  {
    var d := DecodeBeacon(p);
    d.NotBeacon? || (d.Parsed? && !Accepted(d.fields))
  }

  /** What `find_xp` does on a datagram that is not ignored. */
  function Verdict(d: Datagram): Discovery
    requires !Ignored(d.payload)
  {
    match DecodeBeacon(d.payload)
    case UnpackError => Raised
    case Parsed(f) => Found(ToHostInfo(f, d.sender))
  }

  /** The `while not beacon_data` loop of `find_xp` over the datagrams
      received, in arrival order. */
  function Listen(ds: seq<Datagram>): (r: Discovery)
    ensures r.Listening? ==> forall d :: d in ds ==> Ignored(d.payload)
    ensures !r.Listening? ==> exists d :: d in ds && !Ignored(d.payload) && r == Verdict(d)
  {
    if |ds| == 0 then Listening
    else if Ignored(ds[0].payload) then
      assert forall d :: d in ds ==> d == ds[0] || d in ds[1..];
      Listen(ds[1..])
    else Verdict(ds[0])
  }

  /** Listening goes on exactly as long as every datagram is ignored. */
  lemma ListenKeepsListening(ds: seq<Datagram>)
    ensures Listen(ds).Listening? <==> forall i :: 0 <= i < |ds| ==> Ignored(ds[i].payload)
  {
  }

  /** The first datagram that is not ignored decides the outcome; the
      datagrams before it do not affect it and the ones after it are never
      looked at. */
  lemma {:induction false} ListenFirstDecisiveWins(ds: seq<Datagram>, k: nat)
    requires k < |ds| && !Ignored(ds[k].payload)
    requires forall j :: 0 <= j < k ==> Ignored(ds[j].payload)
    ensures Listen(ds) == Verdict(ds[k])
  {
    if k > 0 {
      assert Ignored(ds[0].payload);
      forall j | 0 <= j < k - 1
        ensures Ignored(ds[1..][j].payload)
      {
        assert ds[1..][j] == ds[j + 1];
      }
      ListenFirstDecisiveWins(ds[1..], k - 1);
    }
  }

  /** Listening over two runs of datagrams: the second run matters only
      when the first left the listener still listening. */
  lemma {:induction false} ListenAppend(a: seq<Datagram>, b: seq<Datagram>)
    ensures Listen(a + b) == if Listen(a).Listening? then Listen(b) else Listen(a)
  {
    if |a| == 0 {
      assert a + b == b;
    } else {
      assert (a + b)[0] == a[0];
      assert (a + b)[1..] == a[1..] + b;
      ListenAppend(a[1..], b);
    }
  }

  /** Every field a parsed beacon reports sits where the decoder read it:
      bytes 5..20 are the packing of the fixed fields, the hostname is
      copied from byte 21 up to a zero byte or the end, and the last two
      bytes are the packing of the RakNet port. */
  lemma DecodeBeaconLayout(p: seq<Byte>)
    requires DecodeBeacon(p).Parsed?
    ensures var f := DecodeBeacon(p).fields;
      && p[5..FixedSize] == [f.major, f.minor] + I32Bytes(f.hostId) + I32Bytes(f.version)
                            + U32Bytes(f.role) + U16Bytes(f.port)
      && p[FixedSize..FixedSize + |f.hostname|] == f.hostname
      && (FixedSize + |f.hostname| < |p| ==> p[FixedSize + |f.hostname|] == 0)
      && p[|p| - 2..] == U16Bytes(f.raknetPort)
  {
  }

  /** A beacon laid out like `becn_struct`: header, version tuple, fixed
      fields, the NUL-free hostname and its terminating zero byte, any
      filler, and the RakNet port as the last two bytes. */
  function EncodeBeacon(major: Byte, minor: Byte, hostId: int, version: int, role: int, port: int,
                        hostname: seq<Byte>, filler: seq<Byte>, raknetPort: int): (p: seq<Byte>)
    requires IsI32(hostId) && IsI32(version) && IsU32(role) && IsU16(port) && IsU16(raknetPort)
    requires 0 !in hostname
    ensures |p| == FixedSize + |hostname| + 1 + |filler| + 2
  {
    Magic + [major, minor] + I32Bytes(hostId) + I32Bytes(version) + U32Bytes(role) + U16Bytes(port)
    + hostname + [0] + filler + U16Bytes(raknetPort)
  }

  /** Decoding an encoded beacon gives back every field, whatever the
      filler between the hostname's zero byte and the RakNet port. */
  lemma BeaconRoundTrip(major: Byte, minor: Byte, hostId: int, version: int, role: int, port: int,
                        hostname: seq<Byte>, filler: seq<Byte>, raknetPort: int)
    requires IsI32(hostId) && IsI32(version) && IsU32(role) && IsU16(port) && IsU16(raknetPort)
    requires 0 !in hostname
    ensures DecodeBeacon(EncodeBeacon(major, minor, hostId, version, role, port, hostname, filler, raknetPort))
         == Parsed(BeaconFields(major, minor, hostId, version, role, port, hostname, raknetPort))
  {
    var fixed := Magic + [major, minor] + I32Bytes(hostId) + I32Bytes(version) + U32Bytes(role) + U16Bytes(port);
    var tail := filler + U16Bytes(raknetPort);
    var p := EncodeBeacon(major, minor, hostId, version, role, port, hostname, filler, raknetPort);
    assert |fixed| == FixedSize;
    assert p == fixed + (hostname + [0] + tail);
    assert p[..5] == Magic;
    ReadI32OfSlice(p, 7, I32Bytes(hostId));
    ReadI32OfSlice(p, 11, I32Bytes(version));
    ReadU32OfSlice(p, 15, U32Bytes(role));
    ReadU16OfSlice(p, 19, U16Bytes(port));
    ReadU16OfSlice(p, |p| - 2, U16Bytes(raknetPort));
    assert p[FixedSize..] == hostname + [0] + tail;
    UpToNulOfTerminated(hostname, tail);
  }

  /** The layout X-Plane 11.55 sends: version 1.2, host id 1, and the
      hostname NUL-padded to the 500-byte `computer_name` field. */
  function XPlaneBeacon(version: int, role: int, port: int, hostname: seq<Byte>, raknetPort: int): (p: seq<Byte>)
    requires IsI32(version) && IsU32(role) && IsU16(port) && IsU16(raknetPort)
    requires |hostname| < NameFieldSize && 0 !in hostname
    ensures |p| == FixedSize + NameFieldSize + 2
    ensures p[FixedSize..FixedSize + NameFieldSize] == FixedBytes(hostname, NameFieldSize)
  {
    var p := EncodeBeacon(1, 2, 1, version, role, port, hostname, Zeros(NameFieldSize - |hostname| - 1), raknetPort);
    assert p[FixedSize..FixedSize + NameFieldSize] == hostname + [0] + Zeros(NameFieldSize - |hostname| - 1);
    p
  }

  /** The gate on one parsed beacon: version 1.2 from host id 1 ends
      listening with its host info; any other tuple is passed over and
      listening goes on with the rest. */
  lemma ListenGate(d: Datagram, rest: seq<Datagram>)
    requires DecodeBeacon(d.payload).Parsed?
    ensures var f := DecodeBeacon(d.payload).fields;
      Listen([d] + rest)
      == if (f.major, f.minor, f.hostId) == (1, 2, 1) then Found(ToHostInfo(f, d.sender)) else Listen(rest)
  {
  }

  /** A beacon with version 1.2 and host id 1 received from `ip` makes
      `find_xp` return its fields with `ip` as the address. */
  lemma DiscoverRoundTrip(version: int, role: int, port: int, hostname: seq<Byte>, filler: seq<Byte>,
                          raknetPort: int, ip: string)
    requires IsI32(version) && IsU32(role) && IsU16(port) && IsU16(raknetPort)
    requires 0 !in hostname
    ensures Listen([Datagram(EncodeBeacon(1, 2, 1, version, role, port, hostname, filler, raknetPort), ip)])
         == Found(HostInfo(ip, port, hostname, version, role, raknetPort))
  {
    BeaconRoundTrip(1, 2, 1, version, role, port, hostname, filler, raknetPort);
  }

  /** `"TESTHOST"`. */
  const TestHost: seq<Byte> := [0x54, 0x45, 0x53, 0x54, 0x48, 0x4F, 0x53, 0x54]

  /** Stray datagrams and a beacon from another host type, then an X-Plane
      11.55 beacon for "TESTHOST": discovery returns the latter's fields. */
  lemma DiscoverTestHost(noise: seq<Byte>, other: seq<Byte>, ip: string)
    requires !HasMagic(noise)
    requires DecodeBeacon(other).Parsed? && DecodeBeacon(other).fields.hostId == 2
    ensures Listen([Datagram(noise, "a"), Datagram(other, "b"), Datagram(XPlaneBeacon(115502, 1, 49000, TestHost, 49001), ip)])
         == Found(HostInfo(ip, 49000, TestHost, 115502, 1, 49001))
  {
    var good := Datagram(XPlaneBeacon(115502, 1, 49000, TestHost, 49001), ip);
    var ds := [Datagram(noise, "a"), Datagram(other, "b"), good];
    BeaconRoundTrip(1, 2, 1, 115502, 1, 49000, TestHost, Zeros(NameFieldSize - |TestHost| - 1), 49001);
    ListenFirstDecisiveWins(ds, 2);
  }

  /** The hostname is cut at the first NUL only: when the name field holds
      none, the hostname runs to the end of the packet and takes in the two
      bytes that are also read as the RakNet port. */
  lemma UnterminatedNameRunsToEnd(p: seq<Byte>)
    requires HasMagic(p) && |p| >= FixedSize + 2 && 0 !in p[FixedSize..]
    ensures DecodeBeacon(p).Parsed?
    ensures DecodeBeacon(p).fields.hostname == p[FixedSize..]
    ensures DecodeBeacon(p).fields.hostname[|p| - FixedSize - 2..] == U16Bytes(DecodeBeacon(p).fields.raknetPort)
  {
  }

  /** In a beacon of exactly 21 bytes the "last two bytes" are the `port`
      field, so the RakNet port is read as the port. */
  lemma MinimalBeaconRaknetIsPort(p: seq<Byte>)
    requires HasMagic(p) && |p| == FixedSize
    ensures DecodeBeacon(p).Parsed?
    ensures DecodeBeacon(p).fields.raknetPort == DecodeBeacon(p).fields.port
    ensures DecodeBeacon(p).fields.hostname == []
  {
  }
}
