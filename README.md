# Audio input buffer of the RDP AUDIO_INPUT channel

This project models the audio-input path of the RDP support in
guacamole-server, and proves properties of that model.

A Guacamole user opens an inbound audio stream with a mimetype such as
`audio/L16;rate=44100,channels=2`. The stream handler parses the mimetype. It
refuses the stream with a "bad type" ack, or associates the stream with the
connection's audio buffer.

The remote desktop's AUDIO_INPUT channel sets the output format it wants and
begins delivery with a packet size and a flush handler. Each blob of PCM the
user sends is then written to the buffer:

- every output position is mapped to an input sample, using the two byte
  counters, the ratio of the rates and a channel clamp;
- the sample is widened to 16 bits and stored at the output width in the
  packet;
- each full packet is handed to the flush handler.

When the AUDIO_INPUT channel closes, `end` acknowledges the stream as
closed and resets the buffer. The user ending the stream does nothing.

The modules follow the structure of `audio_input.c`:

- `Pcm` (`pcm.dfy`): bytes, the format triple (rate, channels, bytes per
  sample), and how one sample is read, widened, narrowed and stored.
- `Mimetype` (`mimetype.dfy`): the mimetype parser as a pure recursive
  function over the string. Beside it is an independent reference reading:
  cut the parameter list at every comma, then let the last piece naming a
  key give its value. The two are proved equal.
- `Resample` (`resample.dfy`): the position mapping and the sample reader.
  `Convert` gives the bytes one write produces. The alignment invariant
  proves that the offset the C code asserts on is never negative.
- `Packets` (`packets.dfy`): a byte stream cut into whole packets plus a
  pending remainder.
- `AudioInput` (`audio_input.dfy`): the buffer as a class whose methods
  update its fields in place. The packet is an `array`. The write loop is
  proved against `Convert`, `Chunks` and `Rest`. Two ghost logs stand in for
  the socket and the flush callback: the acks sent, and the packets flushed.
  The module also holds the stream handler's accept/deny decision.
- `Arith` (`arith.dfy`) and `Wrappers` (`wrappers.dfy`): arithmetic facts,
  and the `Option` type.

Every operation runs under the buffer's lock in the source, so each method
is one atomic step. I/O is replaced as follows:

- The socket is the ghost ack log.
- The flush callback is the ghost packet log, which records a copy of the
  full packet.
- Users, streams and flush handlers are opaque handles.

## Model

| member | source | states |
|---|---|---|
| Pcm.Signed8 | protocols/rdp/src/audio_input.c:414 | a byte read through a signed `char` lies in [-128, 128) and equals the byte modulo 256 |
| Pcm.Widen8 | protocols/rdp/src/audio_input.c:413-416 | an 8-bit input sample widened by `<< 8` is a 16-bit value whose low byte is zero |
| Pcm.Read16 | protocols/rdp/src/audio_input.c:407-410 | a 16-bit input sample is an `int16_t` value whose low byte is the first byte (little-endian) |
| Pcm.NarrowWiden | protocols/rdp/src/audio_input.c:453-456 | storing `sample >> 8` after widening an 8-bit sample gives back the original byte (8-bit in, 8-bit out round trip) |
| Pcm.WidenUnique | protocols/rdp/src/audio_input.c:413-416 | a 16-bit value with a zero low byte is the widening of its high byte, so widening is the only such reading of a byte |
| Pcm.StoreRead16 | protocols/rdp/src/audio_input.c:453-454 | storing a 16-bit sample that was read from two bytes writes those same two bytes |
| Pcm.ReadStore16 | protocols/rdp/src/audio_input.c:407-410 | reading back the two stored bytes of any `int16_t` value gives that value |
| Pcm.StoreLoad | protocols/rdp/src/audio_input.c:407-419 | at either width, storing what the reader loads reproduces the input bytes |
| Pcm.WidenExamples | protocols/rdp/src/audio_input.c:413-416 | 0x40 and 0x7F widen to 0x4000 and 0x7F00; 0x80 widens to -32768 |
| Resample.TruncDiv | protocols/rdp/src/audio_input.c:388 | the conversion back to `int` truncates toward zero: the remainder has the sign of the numerator and is smaller than the divisor |
| Resample.ReadSample | protocols/rdp/src/audio_input.c:366-421 | a sample is read exactly when the input is 8- or 16-bit and the blob holds the whole sample at the computed offset; the sample fits `int16_t`, and storing it at the input width gives the bytes at that offset; an 8-bit sample has a zero low byte |
| Resample.ReadWidened | protocols/rdp/src/audio_input.c:413-416 | an 8-bit input sample is read as exactly its byte widened by `<< 8` |
| Resample.Convert | protocols/rdp/src/audio_input.c:447-479 | one write's output is made of whole output samples; when the blob is whole input frames, the next write starts aligned |
| Resample.OffsetNonNegative | protocols/rdp/src/audio_input.c:391-396 | under the alignment invariant, the offset the C code asserts on is never negative |
| Resample.ReadBound | protocols/rdp/src/audio_input.c:447-448 | a sample can only be read below a bound fixed by the blob, so the write loop ends |
| Resample.EndOfBlob | protocols/rdp/src/audio_input.c:479-482 | once a blob of whole frames is exhausted, adding its length to `total_bytes_received` keeps the invariant |
| Resample.InputFrameMonotone | protocols/rdp/src/audio_input.c:379-388 | the input frame never moves backwards as the output position advances |
| Resample.ChannelMapping | protocols/rdp/src/audio_input.c:379-389 | channel `c` of output frame `f` reads the mapped input frame, channel `min(c, in_channels - 1)` |
| Resample.NearestEarlierFrame | protocols/rdp/src/audio_input.c:388 | the chosen input frame is the last one starting at or before the output frame in time |
| Resample.MonoToStereo | protocols/rdp/src/audio_input.c:383-385 | mono input on a stereo output gives both channels of a frame the same input sample |
| Resample.WholeRatioDownsampling | protocols/rdp/src/audio_input.c:387-389 | downsampling mono by a whole ratio `m` keeps every `m`-th input sample |
| Resample.Downsample48kTo16k | protocols/rdp/src/audio_input.c:379-393 | from 48 kHz to 16 kHz mono, output sample `k` is input sample `3k`, at byte `6k` |
| Resample.SameFormatOffset | protocols/rdp/src/audio_input.c:379-393 | with identical formats, the offset is the output position minus the bytes already received |
| Resample.ConvertSameFormat | protocols/rdp/src/audio_input.c:447-479 | with identical formats, a write copies the blob from the current position up to its last whole sample |
| Resample.SameFormatRoundTrip | protocols/rdp/src/audio_input.c:447-479 | with identical formats, a blob of whole samples written where the last one ended comes out unchanged |
| Resample.PartialFrameBlob | protocols/rdp/src/audio_input.c:391-396 | a blob of half a frame, then upsampling, drives the offset to -2: the whole-frame precondition is needed |
| Resample.ReopenOffset | protocols/rdp/src/audio_input.c:379-396 | after four bytes of 16-bit mono at 8 kHz in and out, an input switched to 4 kHz breaks the alignment invariant and maps the next output position to offset -2 |
| Resample.HalfRateFrame | protocols/rdp/src/audio_input.c:388 | at twice the input rate, the first two output frames map to input frame 0 |
| Resample.ZeroChannelsOffset | protocols/rdp/src/audio_input.c:383-396 | with zero input channels, the first output sample maps to byte -1 |
| Resample.ZeroRateRepeats | protocols/rdp/src/audio_input.c:447-448 | at input rate 0, every output position reads the first input sample again |
| Packets.Chunks | protocols/rdp/src/audio_input.c:466-477 | a byte stream holds `length / size` full packets, each of exactly `size` bytes |
| Packets.Rest | protocols/rdp/src/audio_input.c:474-475 | what stays pending is shorter than a packet |
| Packets.ChunksRest | protocols/rdp/src/audio_input.c:466-477 | the full packets followed by the pending bytes are the whole stream, in order |
| Packets.ChunksSnoc | protocols/rdp/src/audio_input.c:463-477 | appending a sample either completes exactly one packet and leaves nothing pending, or extends the pending bytes |
| AudioInput.AckTo | protocols/rdp/src/audio_input.c:231-245 | an ack is sent exactly when user, stream and packet are all present, and it carries the given message and status |
| AudioInput.AudioBuffer.constructor | protocols/rdp/src/audio_input.c:200-207 | a new buffer has every field zero or absent, and both logs empty |
| AudioInput.AudioBuffer.SetStream | protocols/rdp/src/audio_input.c:247-278 | sets user, stream and input format; acks "OK" only if a packet exists; nothing else changes |
| AudioInput.AudioBuffer.SetOutput | protocols/rdp/src/audio_input.c:280-299 | sets the output format; nothing else changes |
| AudioInput.AudioBuffer.Begin | protocols/rdp/src/audio_input.c:301-334 | sets `bytes_written` to 0 and installs the flush handler; `packet_size` is frames × channels × bps; a fresh packet of that size exists when the size is non-negative; formats and both byte counters are unchanged; acks "OK" when a stream is associated |
| AudioInput.AudioBuffer.End | protocols/rdp/src/audio_input.c:492-527 | acks "CLOSED" only if user, stream and packet were present; clears user, stream, packet, flush handler, packet size and all counters; keeps both formats |
| AudioInput.AudioBuffer.Write | protocols/rdp/src/audio_input.c:423-490 | an inactive buffer changes nothing, `total_bytes_received` included; otherwise `total_bytes_sent` grows by the output length and `total_bytes_received` by the blob length; every full packet of (pending + output) is flushed, the rest stays pending, and the invariant holds again |
| AudioInput.AudioBuffer.FillPackets | protocols/rdp/src/audio_input.c:446-479 | the loop: all converted output goes to whole flushed packets or to the pending packet, and `total_bytes_sent` counts it |
| AudioInput.AudioBuffer.PutSample | protocols/rdp/src/audio_input.c:450-477 | each sample advances `bytes_written` and `total_bytes_sent` by `out_bps`; a full packet is flushed exactly when `bytes_written` reaches `packet_size`, and `bytes_written` then resets to 0 |
| AudioInput.AudioBuffer.StoreSample | protocols/rdp/src/audio_input.c:450-460 | the sample's bytes at the output width are laid out right after the pending bytes |
| AudioInput.Decide | protocols/rdp/src/audio_input.c:148-163 | the corrected decision: a stream is accepted exactly when its mimetype parses with a positive rate and channel count, and it is accepted in the parsed format |
| AudioInput.DecideAsWritten | protocols/rdp/src/audio_input.c:148-163 | the decision as written: a stream is accepted exactly when its mimetype parses, in the parsed format |
| AudioInput.DecideCorrection | protocols/rdp/src/audio_input.c:148-163 | the corrected decision differs from the one as written exactly on parsed formats whose rate or channel count is not positive, and agrees wherever it accepts |
| AudioInput.AcceptZeroChannelsAsWrittenExample | protocols/rdp/src/audio_input.c:148-163 | as written, `audio/L8;rate=8000,channels=0` is accepted as 8000 Hz, 0 channels, 8-bit |
| AudioInput.AudioHandler | protocols/rdp/src/audio_input.c:138-167 | under the corrected decision, a refused stream gets a "bad type" ack and the buffer is untouched; an accepted stream is associated with the buffer in its format |
| AudioInput.AcceptStereoExample | protocols/rdp/src/audio_input.c:148-163 | `audio/L16;rate=44100,channels=2` is accepted as 44100 Hz, 2 channels, 16-bit |
| AudioInput.DenyZeroChannelsExample | protocols/rdp/src/audio_input.c:148-163 | under the corrected decision, `audio/L8;rate=8000,channels=0` is refused |
| AudioInput.DenyOtherTypeExample | protocols/rdp/src/audio_input.c:148-155 | `audio/mpeg;rate=44100` is refused |
| AudioInput.ReopenInOtherFormat | protocols/rdp/src/audio_input.c:247-278 | reopening the stream in another format keeps the old byte counters: the buffer stays active but leaves the alignment invariant, and the next offset is -2 |
| AudioInput.PassThrough | protocols/rdp/src/audio_input.c:447-482 | with identical formats, the flushed packets followed by the pending bytes are the earlier pending bytes followed by the blob |
| AudioInput.PassThroughStream | protocols/rdp/src/audio_input.c:447-482 | with identical formats, when the packets flushed so far followed by the pending bytes are everything written so far, one more write keeps that so; by induction, over a whole stream of writes the flushed packets and the pending bytes are all blobs written, in order |
| AudioInput.Advance | protocols/rdp/src/audio_input.c:447-464 | one loop pass: the output produced so far grows by the stored sample, and the next position is still aligned |
| AudioInput.PacketStep | protocols/rdp/src/audio_input.c:463-477 | with `packet_size` a multiple of `out_bps`, one sample never overruns the packet; it completes exactly one packet or extends the pending bytes |
| Mimetype.Strtol | protocols/rdp/src/audio_input.c:100-104 | a value read consumes at least one character, reads no comma, and fits a `long` |
| Mimetype.FindComma | protocols/rdp/src/audio_input.c:121 | the index of a comma with no comma before it, or None exactly when there is no comma |
| Mimetype.ParseParam | protocols/rdp/src/audio_input.c:96-118 | reading one parameter stays within the text and never reads past a comma |
| Mimetype.ParseMimetype | protocols/rdp/src/audio_input.c:66-136 | success only with `audio/L8;` (1 byte per sample) or `audio/L16;` (2 bytes per sample); any other prefix fails; a parsed rate is never -1 |
| Mimetype.ParseMimetypeChecked | protocols/rdp/src/audio_input.c:125-134 | the corrected parser accepts a format only if it is valid (positive rate and channels) and is what the parser as written returns; it refuses only for that reason |
| Mimetype.Split | protocols/rdp/src/audio_input.c:121 | cutting at every comma gives at least one piece, and no piece holds a comma |
| Mimetype.SplitJoin | protocols/rdp/src/audio_input.c:90-123 | the comma-separated pieces, joined again with commas, give back the parameter text |
| Mimetype.StrtolCut | protocols/rdp/src/audio_input.c:100 | `strtol` stops at a comma: text after the comma does not change the value read |
| Mimetype.KeyedSegment | protocols/rdp/src/audio_input.c:97-112 | a key and its value read from the text are read the same from the text's first comma-separated piece |
| Mimetype.ParseParamSegment | protocols/rdp/src/audio_input.c:96-118 | one parameter fails exactly when its piece is malformed; otherwise it updates the rate and channels as the piece says |
| Mimetype.ScanFold | protocols/rdp/src/audio_input.c:90-123 | the parameter loop reads the comma-separated pieces one by one, in order |
| Mimetype.FoldMeaning | protocols/rdp/src/audio_input.c:90-123 | reading the pieces in order gives each key its last value, or fails if any piece is malformed |
| Mimetype.ScanParamsMeaning | protocols/rdp/src/audio_input.c:90-123 | the parameter loop computes the reference reading: fail on a malformed piece, or else each key's last value |
| Mimetype.ParseMatchesReference | protocols/rdp/src/audio_input.c:66-136 | the parser as written equals the reference parse for every string |
| Mimetype.LastValueNone | protocols/rdp/src/audio_input.c:97-118 | with well-formed pieces, a key has no value exactly when no piece names it |
| Mimetype.LastValueAt | protocols/rdp/src/audio_input.c:97-118 | the last piece naming a key gives that key its value |
| Mimetype.ParseSucceeds | protocols/rdp/src/audio_input.c:66-136 | parsing succeeds exactly when the prefix is supported, every value is well formed, some piece names `rate=` and its last value is not -1; with no `channels=` piece the channel count is 1 |
| Mimetype.ParamOrderIrrelevant | protocols/rdp/src/audio_input.c:90-123 | swapping two parameters that do not name the same key gives the same result |
| Mimetype.PairSwap | protocols/rdp/src/audio_input.c:90-123 | on the reference side, two pieces naming different keys can be swapped |
| Mimetype.RepeatedParamLastWins | protocols/rdp/src/audio_input.c:97-118 | when a key is given twice, the second value wins |
| Mimetype.ParseRateChannels | protocols/rdp/src/audio_input.c:90-134 | `rate=R,channels=C` with well-formed values gives exactly R and C at the prefix's sample width |
| Mimetype.ParseRateOnly | protocols/rdp/src/audio_input.c:69-70 | a single `rate=R` gives rate R with the default single channel |
| Mimetype.ParseNoRate | protocols/rdp/src/audio_input.c:125-127 | a parameter list with no `rate=` piece is refused |
| Mimetype.StrtolReads | protocols/rdp/src/audio_input.c:100-104 | after white space and an optional sign, `strtol` reads the decimal digits up to the first non-digit, negated after a minus; it fails when no digit follows the sign or the value does not fit a `long` |
| Mimetype.StrtolNumeral | protocols/rdp/src/audio_input.c:100 | `strtol` reads a plain numeral whole, giving its decimal value |
| Mimetype.ParseStereoExample | protocols/rdp/src/audio_input.c:66-136 | `audio/L16;rate=44100,channels=2` parses to 44100 Hz, 2 channels, 2 bytes per sample |
| Mimetype.ParseMonoDefaultExample | protocols/rdp/src/audio_input.c:69-70 | `audio/L8;rate=8000` parses to 8000 Hz, 1 channel, 1 byte per sample |
| Mimetype.ParseMissingRateExample | protocols/rdp/src/audio_input.c:125-127 | `audio/L16;channels=2` is refused |
| Mimetype.ParseOtherTypeExample | protocols/rdp/src/audio_input.c:85-87 | `audio/mpeg;rate=44100` is refused |
| Mimetype.ParseZeroChannelsExample | protocols/rdp/src/audio_input.c:97-106 | `audio/L8;rate=8000,channels=0` is accepted as written with 0 channels; the checked parser refuses it |
| Mimetype.ParseZeroRateExample | protocols/rdp/src/audio_input.c:108-118 | `audio/L8;rate=0` is accepted as written at rate 0; the checked parser refuses it |

## Left out

- Locking: every operation runs under the buffer's mutex, so each method is one atomic step. The mutex calls are not modelled.
- Socket I/O: `guac_protocol_send_ack` and `guac_socket_flush` append an `Ack` to the ghost log `acks` instead. The refusal ack of the stream handler goes to the same log, although the source sends it on the user's socket whether or not the buffer knows the user.
- Logging (`guac_user_log`) is not modelled; it has no effect on the state.
- Plugin registration (`guac_rdp_audio_load_plugin`, lines 189-198) is not modelled: it is channel-list glue.
- The blob and end stream handlers (lines 169-187) are not modelled. They forward to `write` or do nothing, and the model's `Write` is that forwarding target. Ending a stream therefore does not call `End`, as in the source.
- `guac_rdp_audio_buffer_free` (lines 529-535) and the mutex initialisation in `alloc` are not modelled; memory is managed by Dafny.
- The flush callback is not called. The ghost log `flushes` records a copy of the full packet, and the callback's `data` argument is not modelled.
- Resample.InputFrame: line 388 multiplies by the `double` ratio `in_rate / out_rate`. The model uses the exact integer `frame * in_rate / out_rate`. Floating-point rounding can make the C value one frame lower for some rates. The two agree whenever the rates are equal, or the output rate divides the input rate.
- C `int` widths are not modelled. Counters, sizes and positions are unbounded integers. `strtol`'s `long` result is stored in an `int` at lines 100 and 112, and that truncation is also left out.
- Mimetype.Strtol: reading no digits counts as a failure. So does a value outside the range of a `long`. The C code tests `errno`, which it never clears first and which the C library need not set when no digit is read. The model takes the evident intent of the check, "a decimal integer, or failure".
- C strings end at the first NUL byte, so `strncmp`, `strchr` and `strtol` stop there. The model's strings may hold `'\0'`, and the parser reads past it as an ordinary character.
- Mimetype.Strtol: `long` is taken as 64 bits, so a value fails only outside [-2^63, 2^63). On a platform where `long` is 32 bits (Windows' LLP64), `strtol` already fails outside [-2^31, 2^31).
- Byte order is fixed as little-endian for the `int16_t` load and store. `char` is signed.
- AudioInput.AudioBuffer.Write: the model requires that, while a packet buffer is active, blobs and the bytes already received are whole input frames. It also requires the formats to be supported and the pending packet to hold whole output samples. Without whole frames the offset asserted at line 396 can go negative: Resample.PartialFrameBlob exhibits this. The model also requires the alignment invariant (`Streaming`), and the source lets a caller break it: a user who ends the stream and opens a new one in another format while the AUDIO_INPUT channel stays open gets the new input format with the old byte counters, since the user's end handler does nothing (lines 182-187) and only `end` resets the counters (lines 514-515). AudioInput.ReopenInOtherFormat exhibits this: the next output position then maps to offset -2. The source states no such precondition.
- AudioInput.AudioBuffer.Begin: `malloc(0)` is modelled as an empty array, not as a possibly NULL result. A negative size is modelled as a failed allocation (`packet` null).
- AudioInput.AudioBuffer.SetOutput: changing the output format while packets are being filled is allowed, as in the source. The write precondition then describes the state a caller must restore before the next write.
- AudioInput.AudioBuffer.Begin: `begin` does not reset `total_bytes_sent` or `total_bytes_received`; only `end` does. The model follows the code and states that both counters are unchanged.

## Findings

| source | as written | input that shows it | evidently intended | confidence | as-written member | corrected member |
|---|---|---|---|---|---|---|
| protocols/rdp/src/audio_input.c:97-106 | a `channels=` value of 0 or less is accepted, and the stream is associated with the buffer | `audio/L8;rate=8000,channels=0`: the first write maps output position 0 to input byte -1, which breaks the assertion at line 396 | refuse a mimetype whose channel count is not positive | not executed | Mimetype.ParseZeroChannelsExample, Resample.ZeroChannelsOffset, AudioInput.DecideAsWritten, AudioInput.AcceptZeroChannelsAsWrittenExample | Mimetype.ParseMimetypeChecked, AudioInput.Decide, AudioInput.AudioHandler, AudioInput.DenyZeroChannelsExample |
| protocols/rdp/src/audio_input.c:108-118 | a `rate=` value of 0 or less is accepted | `audio/L8;rate=0`: every output position maps to input sample 0, so on any non-empty blob the write loop at lines 447-479 never ends | refuse a mimetype whose rate is not positive | not executed | Mimetype.ParseZeroRateExample, Resample.ZeroRateRepeats, AudioInput.DecideAsWritten | Mimetype.ParseMimetypeChecked, AudioInput.Decide, AudioInput.AudioHandler |
