/**
 * The audio-input buffer of the RDP AUDIO_INPUT channel.
 *
 * A user streams raw PCM audio in blobs. The buffer converts that audio to
 * the format the remote desktop asked for and cuts it into packets of a
 * fixed size, handing each full packet to a flush handler. Acknowledgements
 * sent back to the user and packets handed to the flush handler are
 * recorded in two ghost logs in place of the socket and the callback.
 */
module AudioInput {
  import opened Wrappers
  import opened Pcm
  import opened Mimetype
  import opened Resample
  import opened Packets
  import Arith

  /** Opaque handles for the user, the inbound stream and the flush handler with its data. */
  type UserRef = nat
  type StreamRef = nat
  type Sink = nat

  /** The protocol status codes an acknowledgement of the audio stream can carry. */
  datatype Status = Success | ResourceClosed | ClientBadType

  /** An "ack" instruction sent to a user about one of their streams. */
  datatype Ack = Ack(user: UserRef, stream: StreamRef, message: string, status: Status)

  /**
   * The acknowledgement helper's decision: an ack goes out only when a user,
   * a stream and a packet buffer are all present.
   */
  function AckTo(user: Option<UserRef>, stream: Option<StreamRef>, hasPacket: bool, message: string, status: Status): (r: seq<Ack>)
    ensures |r| <= 1
    ensures |r| == 1 <==> user.Some? && stream.Some? && hasPacket
    ensures |r| == 1 ==> r[0].user == user.value && r[0].stream == stream.value && r[0].message == message && r[0].status == status
  {
    if user.Some? && stream.Some? && hasPacket then [Ack(user.value, stream.value, message, status)] else []
  }

  class AudioBuffer {
    var inFormat: Format
    var outFormat: Format
    var user: Option<UserRef>
    var stream: Option<StreamRef>
    var packet: array?<Byte>
    var packetSize: int
    var bytesWritten: int
    var totalBytesSent: nat
    var totalBytesReceived: nat
    var flushHandler: Option<Sink>
    /** The packets handed to the flush handler, oldest first. */
    ghost var flushes: seq<seq<Byte>>
    /** The acknowledgements sent, oldest first. */
    ghost var acks: seq<Ack>

    /** The bookkeeping every operation keeps. */
    predicate Valid()
      reads this
    {
      (packet != null ==> packet.Length == packetSize) &&
      0 <= bytesWritten &&
      (Active() ==> bytesWritten < packetSize) &&
      (!Active() ==> bytesWritten == 0)
    }

    /** A write is processed only with a packet buffer of non-zero size. */
    predicate Active()
      reads this
    {
      packet != null && packetSize != 0
    }

    /**
     * What a write needs besides `Valid`: supported formats, packets and the
     * pending part made of whole output samples, input consumed in whole
     * frames, and the next output position mapping into input not yet
     * consumed.
     */
    predicate Streaming()
      reads this
    {
      Aligned(inFormat, outFormat, totalBytesSent, totalBytesReceived) &&
      totalBytesReceived % FrameBytes(inFormat) == 0 &&
      packetSize % outFormat.bps == 0 &&
      bytesWritten % outFormat.bps == 0
    }

    /** A packet buffer being filled with whole output samples. */
    predicate Filling()
      reads this
    {
      packet != null && packet.Length == packetSize > 0 &&
      (outFormat.bps == 1 || outFormat.bps == 2) &&
      packetSize % outFormat.bps == 0 && bytesWritten % outFormat.bps == 0 &&
      0 <= bytesWritten < packetSize
    }

    /** A freshly allocated buffer: every field zero or absent. */
    constructor ()
      ensures inFormat == Format(0, 0, 0) && outFormat == Format(0, 0, 0)
      ensures user.None? && stream.None? && packet == null && packetSize == 0 && bytesWritten == 0
      ensures totalBytesSent == 0 && totalBytesReceived == 0 && flushHandler.None?
      ensures flushes == [] && acks == []
      ensures Valid()
    {
      inFormat, outFormat := Format(0, 0, 0), Format(0, 0, 0);
      user, stream := None, None;
      packet, packetSize, bytesWritten := null, 0, 0;
      totalBytesSent, totalBytesReceived := 0, 0;
      flushHandler := None;
      flushes, acks := [], [];
    }

    /** Associates the user's stream and its input format, acknowledging it if a packet buffer exists. */
    method SetStream(u: UserRef, s: StreamRef, rate: int, channels: int, bps: int)
      modifies this
      ensures user == Some(u) && stream == Some(s) && inFormat == Format(rate, channels, bps)
      ensures acks == old(acks) + AckTo(Some(u), Some(s), packet != null, "OK", Success)
      ensures outFormat == old(outFormat) && packet == old(packet) && packetSize == old(packetSize)
      ensures bytesWritten == old(bytesWritten) && flushHandler == old(flushHandler) && flushes == old(flushes)
      ensures totalBytesSent == old(totalBytesSent) && totalBytesReceived == old(totalBytesReceived)
      ensures old(Valid()) ==> Valid()
    {
      user, stream := Some(u), Some(s);
      inFormat := Format(rate, channels, bps);
      acks := acks + AckTo(user, stream, packet != null, "OK", Success);
    }

    /** Sets the format the remote desktop expects; nothing else changes. */
    method SetOutput(rate: int, channels: int, bps: int)
      modifies this
      ensures outFormat == Format(rate, channels, bps)
      ensures inFormat == old(inFormat) && user == old(user) && stream == old(stream)
      ensures packet == old(packet) && packetSize == old(packetSize) && bytesWritten == old(bytesWritten)
      ensures totalBytesSent == old(totalBytesSent) && totalBytesReceived == old(totalBytesReceived)
      ensures flushHandler == old(flushHandler) && flushes == old(flushes) && acks == old(acks)
      ensures old(Valid()) ==> Valid()
    {
      outFormat := Format(rate, channels, bps);
    }

    /**
     * Starts delivery to the remote desktop: a new packet buffer of
     * `packetFrames` output frames and a new flush handler. A negative size
     * leaves no buffer, as the allocation fails. The byte counters are not
     * reset.
     */
    method Begin(packetFrames: int, handler: Option<Sink>)
      modifies this
      ensures bytesWritten == 0 && flushHandler == handler
      ensures packetSize == packetFrames * outFormat.channels * outFormat.bps
      ensures packetSize >= 0 ==> packet != null && fresh(packet) && packet.Length == packetSize
      ensures packetSize < 0 ==> packet == null
      ensures inFormat == old(inFormat) && outFormat == old(outFormat) && user == old(user) && stream == old(stream)
      ensures totalBytesSent == old(totalBytesSent) && totalBytesReceived == old(totalBytesReceived)
      ensures acks == old(acks) + AckTo(user, stream, packet != null, "OK", Success)
      ensures flushes == old(flushes)
      ensures Valid()
    {
      bytesWritten := 0;
      flushHandler := handler;
      packetSize := packetFrames * outFormat.channels * outFormat.bps;
      if packetSize >= 0 {
        packet := new Byte[packetSize];
      } else {
        packet := null;
      }
      acks := acks + AckTo(user, stream, packet != null, "OK", Success);
    }

    /**
     * Closes the stream: acknowledges the closing if user, stream and packet
     * buffer are present, then forgets the stream and the packet buffer and
     * resets every counter. The formats stay.
     */
    method End()
      modifies this
      ensures acks == old(acks) + AckTo(old(user), old(stream), old(packet) != null, "CLOSED", ResourceClosed)
      ensures user.None? && stream.None? && packet == null && packetSize == 0 && bytesWritten == 0
      ensures totalBytesSent == 0 && totalBytesReceived == 0 && flushHandler.None?
      ensures inFormat == old(inFormat) && outFormat == old(outFormat) && flushes == old(flushes)
      ensures Valid()
    {
      acks := acks + AckTo(user, stream, packet != null, "CLOSED", ResourceClosed);
      user, stream := None, None;
      bytesWritten, packetSize := 0, 0;
      flushHandler := None;
      totalBytesSent, totalBytesReceived := 0, 0;
      packet := null;
    }

    /**
     * Writes one blob of input audio. Without an active packet buffer the blob
     * is ignored and nothing changes. Otherwise the blob's converted samples
     * are appended to the pending packet; every time the packet fills it is
     * handed to the flush handler (if any) and emptied.
     */
    method Write(buf: seq<Byte>)
      requires Valid()
      requires Active() ==> Streaming() && |buf| % FrameBytes(inFormat) == 0
      modifies this, packet
      ensures Valid()
      ensures !old(Active()) ==> unchanged(this) && (packet != null ==> unchanged(packet))
      ensures old(Active()) ==>
        var out := old(Convert(inFormat, outFormat, totalBytesSent, totalBytesReceived, buf));
        var all := old(packet[..bytesWritten]) + out;
        packet == old(packet) && packetSize == old(packetSize) &&
        totalBytesSent == old(totalBytesSent) + |out| &&
        totalBytesReceived == old(totalBytesReceived) + |buf| &&
        flushes == old(flushes) + (if flushHandler.Some? then Chunks(all, packetSize) else []) &&
        packet[..bytesWritten] == Rest(all, packetSize) &&
        Streaming()
      ensures inFormat == old(inFormat) && outFormat == old(outFormat) && user == old(user) && stream == old(stream)
      ensures flushHandler == old(flushHandler) && acks == old(acks)
    {
      if packetSize == 0 || packet == null {
        return;
      }
      ghost var out := Convert(inFormat, outFormat, totalBytesSent, totalBytesReceived, buf);
      FillPackets(buf);
      ReceivedFrames(totalBytesReceived, |buf|, FrameBytes(inFormat));
      totalBytesReceived := totalBytesReceived + |buf|;
    }

    /**
     * The write loop: reads samples from the blob one after the other and
     * appends each to the packet until the blob holds no further sample.
     */
    method FillPackets(buf: seq<Byte>)
      requires Filling() && Aligned(inFormat, outFormat, totalBytesSent, totalBytesReceived)
      modifies this, packet
      ensures Filling()
      ensures var out := old(Convert(inFormat, outFormat, totalBytesSent, totalBytesReceived, buf));
        var all := old(packet[..bytesWritten]) + out;
        totalBytesSent == old(totalBytesSent) + |out| &&
        packet[..bytesWritten] == Rest(all, packetSize) &&
        flushes == old(flushes) + (if flushHandler.Some? then Chunks(all, packetSize) else [])
      ensures packet == old(packet) && packetSize == old(packetSize)
      ensures inFormat == old(inFormat) && outFormat == old(outFormat) && totalBytesReceived == old(totalBytesReceived)
      ensures user == old(user) && stream == old(stream) && flushHandler == old(flushHandler) && acks == old(acks)
    {
      var inF, outF, recv, outBps := inFormat, outFormat, totalBytesReceived, outFormat.bps;
      ghost var start := packet[..bytesWritten];
      ghost var sent0 := totalBytesSent;
      ghost var flushes0 := flushes;
      ghost var out := Convert(inF, outF, sent0, recv, buf);
      ghost var produced: seq<Byte> := [];
      OffsetNonNegative(inF, outF, sent0, recv);
      var sample := ReadSample(inF, outF, totalBytesSent, recv, buf);
      while sample.Some?
        invariant packet == old(packet) && packetSize == old(packetSize)
        invariant outBps == outFormat.bps && Filling()
        invariant inFormat == inF && outFormat == outF && totalBytesReceived == recv
        invariant user == old(user) && stream == old(stream) && flushHandler == old(flushHandler) && acks == old(acks)
        invariant Aligned(inF, outF, totalBytesSent, recv)
        invariant Offset(inF, outF, totalBytesSent, recv) >= 0
        invariant sample == ReadSample(inF, outF, totalBytesSent, recv, buf)
        invariant totalBytesSent == sent0 + |produced|
        invariant out == produced + Convert(inF, outF, totalBytesSent, recv, buf)
        invariant packet[..bytesWritten] == Rest(start + produced, packetSize)
        invariant flushes == flushes0 + (if flushHandler.Some? then Chunks(start + produced, packetSize) else [])
        decreases |out| - |produced|
      {
        ghost var piece := Store(outBps, sample.value);
        Advance(inF, outF, totalBytesSent, recv, buf, sample.value, start, produced, out);
        PutSample(sample.value, start + produced, flushes0);
        produced := produced + piece;
        sample := ReadSample(inF, outF, totalBytesSent, recv, buf);
      }
      ConvertDone(inF, outF, totalBytesSent, recv, buf);
      assert produced == out;
    }

    /**
     * One pass of the write loop: stores the sample at the output width after
     * the pending bytes, advances both counters, and hands the packet to the
     * flush handler (if any) and empties it once it is full. Stated against
     * the stream `all` of output bytes whose remainder is pending and whose
     * whole packets have been flushed.
     */
    method PutSample(s: int, ghost all: seq<Byte>, ghost earlier: seq<seq<Byte>>)
      requires Filling()
      requires packet[..bytesWritten] == Rest(all, packetSize)
      requires flushes == earlier + (if flushHandler.Some? then Chunks(all, packetSize) else [])
      modifies this, packet
      ensures Filling()
      ensures packet == old(packet) && packetSize == old(packetSize)
      ensures totalBytesSent == old(totalBytesSent) + outFormat.bps
      ensures bytesWritten == if old(bytesWritten) + outFormat.bps == packetSize then 0 else old(bytesWritten) + outFormat.bps
      ensures flushes == old(flushes) +
        (if old(bytesWritten) + outFormat.bps == packetSize && flushHandler.Some? then [packet[..]] else [])
      ensures packet[..bytesWritten] == Rest(all + Store(outFormat.bps, s), packetSize)
      ensures flushes == earlier + (if flushHandler.Some? then Chunks(all + Store(outFormat.bps, s), packetSize) else [])
      ensures inFormat == old(inFormat) && outFormat == old(outFormat) && user == old(user) && stream == old(stream)
      ensures flushHandler == old(flushHandler) && acks == old(acks) && totalBytesReceived == old(totalBytesReceived)
    {
      var outBps := outFormat.bps;
      ghost var piece := Store(outBps, s);
      StoreSample(s);
      PacketStep(all, piece, packetSize, bytesWritten);
      bytesWritten := bytesWritten + outBps;
      totalBytesSent := totalBytesSent + outBps;
      if bytesWritten == packetSize {
        if flushHandler.Some? {
          assert packet[..] == packet[..bytesWritten];
          flushes := flushes + [packet[..]];
        }
        bytesWritten := 0;
      }
    }

    /** Lays out one output sample in the packet buffer after the pending bytes, little-endian. */
    method StoreSample(s: int)
      requires packet != null && 0 <= bytesWritten
      requires (outFormat.bps == 1 || outFormat.bps == 2) && bytesWritten + outFormat.bps <= packet.Length
      modifies packet
      ensures packet[..bytesWritten + outFormat.bps] == old(packet[..bytesWritten]) + Store(outFormat.bps, s)
    {
      if outFormat.bps == 2 {
        packet[bytesWritten] := Store16(s)[0];
        packet[bytesWritten + 1] := Store16(s)[1];
      } else {
        packet[bytesWritten] := Narrow8(s);
      }
    }
  }

  /** What the stream handler does with a newly opened inbound audio stream. */
  datatype Decision = Deny | Accept(format: Format)

  /** The ack message sent when an audio stream is refused. */
  const UnsupportedMessage: string := "Unsupported audio mimetype"

  /**
   * The corrected decision: an inbound stream is accepted exactly when its
   * mimetype names raw PCM audio, states a rate, and both the rate and the
   * channel count are positive. The handler's code does not check the last
   * two; `DecideAsWritten` is that decision.
   */
  function Decide(mimetype: string): (d: Decision)
    ensures d.Accept? <==>
      ParseMimetype(mimetype).Some? && ParseMimetype(mimetype).value.rate > 0 && ParseMimetype(mimetype).value.channels > 0
    ensures d.Accept? ==> ParseMimetype(mimetype) == Some(d.format) && ValidFormat(d.format)
  {
    match ParseMimetypeChecked(mimetype)
    case None => Deny
    case Some(f) => Accept(f)
  }

  /**
   * The decision as the handler's code makes it: a stream is accepted
   * whenever the parser succeeds, whatever rate and channel count it read.
   */
  function DecideAsWritten(mimetype: string): (d: Decision)
    ensures d.Accept? <==> ParseMimetype(mimetype).Some?
    ensures d.Accept? ==> ParseMimetype(mimetype) == Some(d.format)
  {
    match ParseMimetype(mimetype)
    case None => Deny
    case Some(f) => Accept(f)
  }

  /**
   * The corrected decision differs from the handler's code only on formats
   * whose rate or channel count is not positive, which it refuses.
   */
  lemma DecideCorrection(mimetype: string)
    ensures Decide(mimetype).Accept? ==> DecideAsWritten(mimetype) == Decide(mimetype)
    ensures Decide(mimetype) != DecideAsWritten(mimetype) <==>
      DecideAsWritten(mimetype).Accept? && (DecideAsWritten(mimetype).format.rate <= 0 || DecideAsWritten(mimetype).format.channels <= 0)
  {
  }

  /**
   * The stream handler for inbound audio, under the corrected decision. A
   * refused stream gets an ack carrying the client-bad-type status and
   * nothing else happens; an accepted one gets the blob handler installed
   * and is associated with the buffer in its parsed format. Returns whether
   * the handlers were installed.
   */
  method AudioHandler(buffer: AudioBuffer, u: UserRef, s: StreamRef, mimetype: string) returns (installed: bool)
    modifies buffer
    ensures installed <==> Decide(mimetype).Accept?
    ensures !installed ==>
      buffer.acks == old(buffer.acks) + [Ack(u, s, UnsupportedMessage, ClientBadType)] &&
      buffer.user == old(buffer.user) && buffer.stream == old(buffer.stream) && buffer.inFormat == old(buffer.inFormat)
    ensures installed ==>
      buffer.user == Some(u) && buffer.stream == Some(s) && buffer.inFormat == Decide(mimetype).format &&
      buffer.acks == old(buffer.acks) + AckTo(Some(u), Some(s), old(buffer.packet) != null, "OK", Success)
    ensures buffer.outFormat == old(buffer.outFormat) && buffer.packet == old(buffer.packet)
    ensures buffer.packetSize == old(buffer.packetSize) && buffer.bytesWritten == old(buffer.bytesWritten)
    ensures buffer.totalBytesSent == old(buffer.totalBytesSent) && buffer.totalBytesReceived == old(buffer.totalBytesReceived)
    ensures buffer.flushHandler == old(buffer.flushHandler) && buffer.flushes == old(buffer.flushes)
    ensures old(buffer.Valid()) ==> buffer.Valid()
  {
    var d := Decide(mimetype);
    match d
    case Deny =>
      buffer.acks := buffer.acks + [Ack(u, s, UnsupportedMessage, ClientBadType)];
      installed := false;
    case Accept(f) =>
      buffer.SetStream(u, s, f.rate, f.channels, f.bps);
      installed := true;
  }

  /** A 16-bit stereo stream at 44.1 kHz is accepted in that format. */
  lemma AcceptStereoExample()
    ensures Decide(L16Prefix + ((RateKey + "44100") + "," + (ChannelsKey + "2"))) == Accept(Format(44100, 2, 2))
  {
    ParseStereoExample();
  }

  /** A stream declaring zero channels is refused. */
  lemma DenyZeroChannelsExample()
    ensures Decide(L8Prefix + ((RateKey + "8000") + "," + (ChannelsKey + "0"))) == Deny
  {
    ParseZeroChannelsExample();
  }

  /** As written, the handler accepts a stream declaring zero channels, in a format with no channels. */
  lemma AcceptZeroChannelsAsWrittenExample()
    ensures DecideAsWritten(L8Prefix + ((RateKey + "8000") + "," + (ChannelsKey + "0"))) == Accept(Format(8000, 0, 1))
  {
    ParseZeroChannelsExample();
  }

  /** A stream of another media type is refused. */
  lemma DenyOtherTypeExample()
    ensures Decide("audio/mpeg" + (";" + RateKey + "44100")) == Deny
  {
    ParseOtherTypeExample();
  }

  /**
   * A user who reopens the audio stream in another format while the
   * AUDIO_INPUT channel stays open: the counters of the first stream are
   * kept, so the next output position maps before the input received, and
   * the next write would read at a negative offset.
   */
  method ReopenInOtherFormat() returns (b: AudioBuffer)
    ensures b.Valid() && b.Active() && !b.Streaming()
    ensures b.inFormat == Format(4000, 1, 2) && b.outFormat == Format(8000, 1, 2)
    ensures b.totalBytesSent == 4 && b.totalBytesReceived == 4
    ensures Offset(b.inFormat, b.outFormat, b.totalBytesSent, b.totalBytesReceived) == -2
  {
    var f := Format(8000, 1, 2);
    b := new AudioBuffer();
    b.SetOutput(8000, 1, 2);
    b.Begin(4, None);
    b.SetStream(1, 1, 8000, 1, 2);
    SameFormatRoundTrip(f, 0, [0, 0, 0, 0]);
    b.Write([0, 0, 0, 0]);
    assert b.totalBytesSent == 4 && b.totalBytesReceived == 4 && b.Active();
    b.SetStream(1, 2, 4000, 1, 2);
    ReopenOffset();
  }

  /**
   * When the remote desktop asks for the very format the user sends, the
   * packets flushed by a write, followed by what stays pending, are exactly
   * the pending bytes followed by the blob.
   */
  lemma PassThrough(f: Format, position: nat, pending: seq<Byte>, buf: seq<Byte>, size: int)
    requires ValidFormat(f) && position % FrameBytes(f) == 0 && |buf| % f.bps == 0 && size > 0
    ensures Aligned(f, f, position, position)
    ensures var all := pending + Convert(f, f, position, position, buf);
      Flatten(Chunks(all, size)) + Rest(all, size) == pending + buf
  {
    SameFormatRoundTrip(f, position, buf);
    ChunksRest(pending + buf, size);
  }

  /**
   * Pass-through over a whole stream of writes: when everything written so
   * far equals the packets already flushed followed by the pending bytes,
   * one more write keeps it so, the new packets joining the flushed ones.
   */
  lemma PassThroughStream(f: Format, position: nat, flushed: seq<seq<Byte>>, pending: seq<Byte>,
                          written: seq<Byte>, buf: seq<Byte>, size: int)
    requires ValidFormat(f) && position % FrameBytes(f) == 0 && |buf| % f.bps == 0 && size > 0
    requires Flatten(flushed) + pending == written
    ensures Aligned(f, f, position, position)
    ensures var all := pending + Convert(f, f, position, position, buf);
      Flatten(flushed + Chunks(all, size)) + Rest(all, size) == written + buf
  {
    SameFormatRoundTrip(f, position, buf);
    FlushedThenPending(flushed, pending + buf, size);
    assert Flatten(flushed) + (pending + buf) == written + buf;
  }

  /**
   * One turn of the write loop, on the ghost side: the output produced so
   * far grows by the sample read, and the next position is again aligned.
   */
  lemma Advance(inF: Format, outF: Format, sent: nat, received: nat, buf: seq<Byte>, s: int,
                start: seq<Byte>, produced: seq<Byte>, out: seq<Byte>)
    requires Aligned(inF, outF, sent, received) && Offset(inF, outF, sent, received) >= 0
    requires ReadSample(inF, outF, sent, received, buf) == Some(s)
    requires out == produced + Convert(inF, outF, sent, received, buf)
    ensures Aligned(inF, outF, sent + outF.bps, received) && Offset(inF, outF, sent + outF.bps, received) >= 0
    ensures out == (produced + Store(outF.bps, s)) + Convert(inF, outF, sent + outF.bps, received, buf)
    ensures (start + produced) + Store(outF.bps, s) == start + (produced + Store(outF.bps, s))
  {
    ConvertNext(inF, outF, sent, received, buf, s);
    OffsetNonNegative(inF, outF, sent + outF.bps, received);
  }

  /** One sample appended to the pending packet keeps packets and pending bytes in step. */
  lemma PacketStep(all: seq<Byte>, piece: seq<Byte>, size: int, written: int)
    requires size > 0 && (|piece| == 1 || |piece| == 2)
    requires size % |piece| == 0 && written % |piece| == 0 && 0 <= written < size
    requires |Rest(all, size)| == written
    ensures written + |piece| <= size
    ensures written + |piece| == size ==>
      Chunks(all + piece, size) == Chunks(all, size) + [Rest(all, size) + piece] && Rest(all + piece, size) == []
    ensures written + |piece| < size ==>
      Chunks(all + piece, size) == Chunks(all, size) && Rest(all + piece, size) == Rest(all, size) + piece
  {
    ChunksSnoc(all, piece, size);
  }

  /** Whole frames received, plus a blob of whole frames, are whole frames. */
  lemma ReceivedFrames(received: nat, length: nat, frame: int)
    requires frame > 0 && received % frame == 0 && length % frame == 0
    ensures (received + length) % frame == 0
  {
    var q := received / frame + length / frame;
    assert received + length == q * frame;
    Arith.DivModUnique(received + length, frame, q, 0);
  }
}
