/** The receive side of `XPDataRefs.read_udp` (xpadvance.py): each datagram
    is checked for the `RREF` header, its first `<if` pair is unpacked, and
    the handler is called with the subscription's own channel. The endless
    receive loop is modelled as a fold over the datagrams received, in
    order, producing the handler calls it makes. */
module Response {
  import opened Wire
  import Beacon
  import Request

  /** `b'RREF'`. */
  const Rref: seq<Byte> := [0x52, 0x52, 0x45, 0x46]

  /** `data[5:13]` must hold 8 bytes for `struct.unpack('<if', ...)`. */
  const SampleEnd := 13

  /** One decoded reading; the `f` value is kept as its 4 raw bytes. */
  datatype Sample = Sample(index: int, value: seq<Byte>)

  /** What one datagram is to the receive loop: passed over (empty, or not
      `RREF`), an `RREF` datagram too short to unpack (`struct.unpack`
      raises), or a reading. */
  datatype Reading = Skipped | UnpackError | Read(sample: Sample)

  /** Who receives the readings: the caller's callback, or
      `default_handler` when none was given. */
  datatype Handler = Callback(name: string) | DefaultHandler

  /** One handler call `handler(header, channel, idx, value)`. */
  datatype Call = Call(handler: Handler, command: seq<Byte>, channel: seq<Byte>, index: int, value: seq<Byte>)

  /** The handler calls made so far, and whether the loop has died on an
      exception. */
  datatype Stream = Stream(calls: seq<Call>, crashed: bool)

  /** `read_udp` as a whole: packing the subscribe frame raised, or the
      subscribe datagram sent and the stream that followed. */
  datatype Session = PackFailed | Session(subscribe: Request.Outbound, stream: Stream)

  /** `data[0:4] == b'RREF'`; an empty datagram (`if data:` false) and a
      shorter one both fail it. */
  predicate HasRref(d: seq<Byte>)
    ensures HasRref(d) <==>
              && |d| >= 4
              && d[0] == 'R' as int && d[1] == 'R' as int && d[2] == 'E' as int && d[3] == 'F' as int
  {
    |d| >= 4 && d[..4] == Rref
  }

  function DecodeResponse(d: seq<Byte>): (r: Reading)
    ensures r.Skipped? <==> !HasRref(d)
    ensures r.UnpackError? <==> HasRref(d) && |d| < SampleEnd
    ensures r.Read? ==> IsI32(r.sample.index) && |r.sample.value| == 4
  {
    if !HasRref(d) then Skipped
    else if |d| < SampleEnd then UnpackError
    else Read(Sample(ReadI32(d, 5), d[9..SampleEnd]))
  }

  /** A response as the host sends it: `RREF`, one byte that the decoder
      skips, then `<if` pairs, of which only the first is read. */
  function EncodeResponse(pad: Byte, index: int, value: seq<Byte>, more: seq<Byte>): (d: seq<Byte>)
    requires IsI32(index) && |value| == 4
    ensures |d| == SampleEnd + |more|
  {
    Rref + [pad] + I32Bytes(index) + value + more
  }

  /** Decoding an encoded response gives back its first index and value,
      whatever the skipped byte and whatever follows the first pair. */
  lemma ResponseRoundTrip(pad: Byte, index: int, value: seq<Byte>, more: seq<Byte>)
    requires IsI32(index) && |value| == 4
    ensures DecodeResponse(EncodeResponse(pad, index, value, more)) == Read(Sample(index, value))
  {
  }

  /** Byte 4 is never read. */
  lemma PadByteIgnored(d: seq<Byte>, b: Byte)
    requires |d| > 4
    ensures DecodeResponse(d[4 := b]) == DecodeResponse(d)
  {
  }

  /** `if callback: ... else: self.default_handler(...)`. */
  function HandlerFor(callback: Option<string>): (h: Handler)
    ensures h.DefaultHandler? <==> callback.None?
    ensures callback.Some? ==> h.name == callback.value
  {
    match callback
    case Some(name) => Callback(name)
    case None => DefaultHandler
  }

  /** The receive loop of `read_udp` over the datagrams `ds`, in arrival
      order, for a subscription to `channel`. */
  function Dispatch(channel: seq<Byte>, callback: Option<string>, ds: seq<seq<Byte>>): (r: Stream)
    ensures |r.calls| <= |ds|
    ensures forall c :: c in r.calls ==>
              && c.handler == HandlerFor(callback)
              && c.command == Rref
              && c.channel == channel
              && IsI32(c.index) && |c.value| == 4
  {
    if |ds| == 0 then Stream([], false)
    else match DecodeResponse(ds[0])
      case Skipped => Dispatch(channel, callback, ds[1..])
      case UnpackError => Stream([], true)
      case Read(s) =>
        var rest := Dispatch(channel, callback, ds[1..]);
        Stream([Call(HandlerFor(callback), Rref, channel, s.index, s.value)] + rest.calls, rest.crashed)
  }

  /** What a single datagram does: one call with its reading, nothing, or
      the end of the loop. */
  lemma DispatchOne(channel: seq<Byte>, callback: Option<string>, d: seq<Byte>)
    ensures DecodeResponse(d).Skipped? ==> Dispatch(channel, callback, [d]) == Stream([], false)
    ensures DecodeResponse(d).UnpackError? ==> Dispatch(channel, callback, [d]) == Stream([], true)
    ensures DecodeResponse(d).Read? ==>
              Dispatch(channel, callback, [d])
              == Stream([Call(HandlerFor(callback), Rref, channel, ReadI32(d, 5), d[9..SampleEnd])], false)
  {
  }

  /** The loop over two runs of datagrams makes the calls of the first run
      and then those of the second, unless the first run ended the loop. */
  lemma {:induction false} DispatchAppend(channel: seq<Byte>, callback: Option<string>, a: seq<seq<Byte>>, b: seq<seq<Byte>>)
    ensures var ra := Dispatch(channel, callback, a);
            var rb := Dispatch(channel, callback, b);
      Dispatch(channel, callback, a + b) == if ra.crashed then ra else Stream(ra.calls + rb.calls, rb.crashed)
  {
    if |a| == 0 {
      assert a + b == b;
    } else {
      assert (a + b)[0] == a[0];
      assert (a + b)[1..] == a[1..] + b;
      DispatchAppend(channel, callback, a[1..], b);
    }
  }

  /** The calls one datagram asks for on its own: one for a reading,
      none otherwise. */
  function CallsFor(channel: seq<Byte>, callback: Option<string>, d: seq<Byte>): (cs: seq<Call>)
    ensures |cs| == (if DecodeResponse(d).Read? then 1 else 0)
  {
    match DecodeResponse(d)
    case Read(s) => [Call(HandlerFor(callback), Rref, channel, s.index, s.value)]
    case _ => []
  }

  function Flatten(css: seq<seq<Call>>): seq<Call>
  {
    if |css| == 0 then [] else css[0] + Flatten(css[1..])
  }

  /** Unless some datagram ends the loop, the handler is called once for
      every readable datagram and for no other, in arrival order. */
  lemma {:induction false} DispatchPerDatagram(channel: seq<Byte>, callback: Option<string>, ds: seq<seq<Byte>>)
    requires forall i :: 0 <= i < |ds| ==> !DecodeResponse(ds[i]).UnpackError?
    ensures Dispatch(channel, callback, ds)
         == Stream(Flatten(seq(|ds|, i requires 0 <= i < |ds| => CallsFor(channel, callback, ds[i]))), false)
  {
    var m := seq(|ds|, i requires 0 <= i < |ds| => CallsFor(channel, callback, ds[i]));
    if |ds| > 0 {
      var m' := seq(|ds| - 1, i requires 0 <= i < |ds| - 1 => CallsFor(channel, callback, ds[1..][i]));
      assert m[1..] == m';
      assert !DecodeResponse(ds[0]).UnpackError?;
      DispatchPerDatagram(channel, callback, ds[1..]);
    }
  }

  /** The loop dies exactly when some datagram is an `RREF` datagram too
      short to unpack. */
  lemma {:induction false} DispatchCrashes(channel: seq<Byte>, callback: Option<string>, ds: seq<seq<Byte>>)
    ensures Dispatch(channel, callback, ds).crashed <==> exists i :: 0 <= i < |ds| && DecodeResponse(ds[i]).UnpackError?
  {
    if |ds| > 0 {
      DispatchCrashes(channel, callback, ds[1..]);
      if !DecodeResponse(ds[0]).UnpackError? {
        if exists i :: 0 <= i < |ds| && DecodeResponse(ds[i]).UnpackError? {
          var i :| 0 <= i < |ds| && DecodeResponse(ds[i]).UnpackError?;
          assert ds[1..][i - 1] == ds[i];
        }
        if exists i :: 0 <= i < |ds[1..]| && DecodeResponse(ds[1..][i]).UnpackError? {
          var i :| 0 <= i < |ds[1..]| && DecodeResponse(ds[1..][i]).UnpackError?;
          assert ds[i + 1] == ds[1..][i];
        }
      }
    }
  }

  /** Noise followed by one well-formed reading for index 3 calls the
      handler exactly once, with that reading. */
  lemma NoiseThenReading(channel: seq<Byte>, callback: Option<string>, noise: seq<Byte>, value: seq<Byte>)
    requires !HasRref(noise) && |value| == 4
    ensures Dispatch(channel, callback, [noise, EncodeResponse(0, 3, value, [])]).calls
         == [Call(HandlerFor(callback), Rref, channel, 3, value)]
  {
  }

  /** `read_udp`: subscribe with command `RREF` to the host, then run the
      receive loop over the inbox. */
  function ReadUdp(host: Beacon.HostInfo, channel: seq<Byte>, index: int, frequency: int,
                   callback: Option<string>, inbox: seq<seq<Byte>>): (r: Session)
    ensures r.PackFailed? <==> !(IsI32(frequency) && IsI32(index))
    ensures r.Session? ==>
              && r.subscribe.ip == host.ip && r.subscribe.port == host.port
              && Request.UnpackRequest(r.subscribe.payload)
                 == Some(Request.RequestFields(Rref, frequency, index, FixedBytes(channel, Request.ChannelSize)))
    ensures r.Session? ==> r.stream == Dispatch(channel, callback, inbox)
  {
    match Request.Subscribe(host, Rref, channel, index, frequency)
    case None => PackFailed
    case Some(out) =>
      assert FixedBytes(Rref, Request.CommandSize) == Rref;
      Session(out, Dispatch(channel, callback, inbox))
  }
}
