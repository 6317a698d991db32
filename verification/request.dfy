/** The dataref request frame `<4sxii400s` that `XPDataRefs.subscribe` and
    `XPDataRefs.unsubscribe` (xpadvance.py) pack and send to the host found
    by discovery. */
module Request {
  import opened Wire
  import Beacon

  const CommandSize := 4
  const ChannelSize := 400
  /** 4 + 1 + 4 + 4 + 400. */
  const FrameSize := 413

  /** The fields of a request frame as `struct.unpack` would give them back. */
  datatype RequestFields = RequestFields(command: seq<Byte>, frequency: int, index: int, channel: seq<Byte>)

  /** A datagram on its way out: destination address and port, and payload. */
  datatype Outbound = Outbound(ip: string, port: int, payload: seq<Byte>)

  /** `struct.pack('<4sxii400s', command, frequency, index, channel)`.
      `4s` and `400s` cut or zero-pad their bytes; `i` raises
      `struct.error` (here: `None`) for a value outside 32 signed bits. */
  function PackRequest(command: seq<Byte>, frequency: int, index: int, channel: seq<Byte>): (r: Option<seq<Byte>>)
    ensures r.Some? <==> IsI32(frequency) && IsI32(index)
    ensures r.Some? ==> |r.value| == FrameSize && r.value[CommandSize] == 0
  {
    if !IsI32(frequency) || !IsI32(index) then None
    else Some(FixedBytes(command, CommandSize) + [0] + I32Bytes(frequency) + I32Bytes(index)
              + FixedBytes(channel, ChannelSize))
  }

  /** `struct.unpack('<4sxii400s', frame)`: any 413 bytes unpack, and the
      pad byte is skipped whatever it holds. */
  function UnpackRequest(frame: seq<Byte>): (r: Option<RequestFields>)
    ensures r.Some? <==> |frame| == FrameSize
    ensures r.Some? ==> |r.value.command| == CommandSize && |r.value.channel| == ChannelSize
    ensures r.Some? ==> IsI32(r.value.frequency) && IsI32(r.value.index)
  {
    if |frame| != FrameSize then None
    else Some(RequestFields(frame[..4], ReadI32(frame, 5), ReadI32(frame, 9), frame[13..]))
  }

  /** Where each field sits in a packed frame. */
  lemma PackRequestLayout(command: seq<Byte>, frequency: int, index: int, channel: seq<Byte>)
    requires IsI32(frequency) && IsI32(index)
    ensures var f := PackRequest(command, frequency, index, channel).value;
      && f[..4] == FixedBytes(command, CommandSize)
      && f[4] == 0
      && ReadI32(f, 5) == frequency
      && ReadI32(f, 9) == index
      && f[13..] == FixedBytes(channel, ChannelSize)
  {
  }

  /** Unpacking a packed frame recovers command and channel up to their
      fixed width, and frequency and index exactly. */
  lemma RequestRoundTrip(command: seq<Byte>, frequency: int, index: int, channel: seq<Byte>)
    requires IsI32(frequency) && IsI32(index)
    ensures UnpackRequest(PackRequest(command, frequency, index, channel).value)
         == Some(RequestFields(FixedBytes(command, CommandSize), frequency, index, FixedBytes(channel, ChannelSize)))
  {
    PackRequestLayout(command, frequency, index, channel);
  }

  /** For a channel that fits, the channel field is the channel followed
      only by zero bytes; when it leaves room for a terminator, splitting
      the field at the first NUL gives the channel back. */
  lemma ChannelFieldPadding(channel: seq<Byte>)
    requires |channel| <= ChannelSize
    ensures FixedBytes(channel, ChannelSize) == channel + Zeros(ChannelSize - |channel|)
    ensures |channel| < ChannelSize && 0 !in channel ==> UpToNul(FixedBytes(channel, ChannelSize)) == channel
  {
    if |channel| < ChannelSize && 0 !in channel {
      assert channel + Zeros(ChannelSize - |channel|) == channel + [0] + Zeros(ChannelSize - |channel| - 1);
      UpToNulOfTerminated(channel, Zeros(ChannelSize - |channel| - 1));
    }
  }

  /** `400s` truncates silently: channels that agree on their first 400
      bytes produce the same frame. */
  lemma ChannelTruncated(command: seq<Byte>, frequency: int, index: int, channel: seq<Byte>)
    requires IsI32(frequency) && IsI32(index) && |channel| > ChannelSize
    ensures PackRequest(command, frequency, index, channel) == PackRequest(command, frequency, index, channel[..ChannelSize])
  {
    assert FixedBytes(channel, ChannelSize) == FixedBytes(channel[..ChannelSize], ChannelSize);
  }

  /** Every 413-byte frame with a zero pad byte is the packing of what it
      unpacks to. */
  lemma UnpackThenPack(frame: seq<Byte>)
    requires |frame| == FrameSize && frame[4] == 0
    ensures var u := UnpackRequest(frame).value;
      PackRequest(u.command, u.frequency, u.index, u.channel) == Some(frame)
  {
    var u := UnpackRequest(frame).value;
    I32BytesOfRead(frame[5..9]);
    I32BytesOfRead(frame[9..13]);
    ReadI32OfSlice(frame, 5, frame[5..9]);
    ReadI32OfSlice(frame, 9, frame[9..13]);
    assert FixedBytes(u.command, CommandSize) == frame[..4];
    assert FixedBytes(u.channel, ChannelSize) == frame[13..];
    assert frame == frame[..4] + [0] + frame[5..9] + frame[9..13] + frame[13..];
  }

  /** `subscribe`: the frame for the subscription, addressed to the host's
      `ip` and `port`. */
  function Subscribe(host: Beacon.HostInfo, command: seq<Byte>, channel: seq<Byte>, index: int, frequency: int): (r: Option<Outbound>)
    ensures r.Some? <==> IsI32(frequency) && IsI32(index)
    ensures r.Some? ==> r.value.ip == host.ip && r.value.port == host.port
    ensures r.Some? ==>
              UnpackRequest(r.value.payload)
              == Some(RequestFields(FixedBytes(command, CommandSize), frequency, index, FixedBytes(channel, ChannelSize)))
  {
    match PackRequest(command, frequency, index, channel)
    case None => None
    case Some(frame) =>
      RequestRoundTrip(command, frequency, index, channel);
      Some(Outbound(host.ip, host.port, frame))
  }

  /** `unsubscribe`: the same frame with frequency 0, which asks the host to
      stop sending. */
  function Unsubscribe(host: Beacon.HostInfo, command: seq<Byte>, channel: seq<Byte>, index: int): (r: Option<Outbound>)
    ensures r.Some? <==> IsI32(index)
    ensures r.Some? ==> r.value.ip == host.ip && r.value.port == host.port
    ensures r.Some? ==>
              UnpackRequest(r.value.payload)
              == Some(RequestFields(FixedBytes(command, CommandSize), 0, index, FixedBytes(channel, ChannelSize)))
  {
    match PackRequest(command, 0, index, channel)
    case None => None
    case Some(frame) =>
      RequestRoundTrip(command, 0, index, channel);
      Some(Outbound(host.ip, host.port, frame))
  }

  /** The unsubscribe frame is the subscribe frame with frequency 0, and
      differs from any subscribe frame for the same command, channel and
      index only in the frequency bytes 5..8. */
  lemma UnsubscribeDiffersOnlyInFrequency(host: Beacon.HostInfo, command: seq<Byte>, channel: seq<Byte>, index: int, frequency: int)
    requires IsI32(frequency) && IsI32(index)
    ensures Unsubscribe(host, command, channel, index) == Subscribe(host, command, channel, index, 0)
    ensures var s := Subscribe(host, command, channel, index, frequency).value.payload;
            var u := Unsubscribe(host, command, channel, index).value.payload;
      && s[..5] == u[..5] && s[9..] == u[9..]
      && ReadI32(u, 5) == 0
      && (s[5..9] == u[5..9] <==> frequency == 0)
  {
  }
}
