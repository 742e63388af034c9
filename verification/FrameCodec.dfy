/**
 Length-prefixed RPC framing (`codec.rs`): writing frames, reading them from a blocking
 reader that returns short reads, and decoding them incrementally from arbitrary chunks.
 Payloads are the already serialized JSON bytes; sizes fit a 64-bit `usize`.
 */
module FrameCodec {
  import opened Prelude

  datatype Phase = LengthPrefix | Payload

  datatype CodecError =
    | CleanEof
    | UnexpectedEof(phase: Phase, expected: nat, received: nat)
    | FrameTooLarge(declared: nat, maximum: nat)
    | Io(phase: Phase)

  datatype Result<+T> = Ok(value: T) | Err(error: CodecError)

  // ---- the length prefix ------------------------------------------------------

  function ToBe(n: nat): (b: Bytes)
    requires n <= U32_MAX
    ensures |b| == 4
  {
    [n / 0x1_00_00_00, n / 0x1_00_00 % 0x1_00, n / 0x1_00 % 0x1_00, n % 0x1_00]
  }

  function FromBe(b: Bytes): (n: nat)
    requires |b| == 4
    ensures n <= U32_MAX
  {
    var b0: nat, b1: nat, b2: nat, b3: nat := b[0], b[1], b[2], b[3];
    ((b0 * 0x1_00 + b1) * 0x1_00 + b2) * 0x1_00 + b3
  }

  /** The most significant byte comes first; these weights leave a number one prefix. */
  lemma PrefixWeights(n: nat, b: Bytes)
    requires n <= U32_MAX && |b| == 4
    ensures b == ToBe(n) <==> n == b[0] as nat * 16777216 + b[1] as nat * 65536 + b[2] as nat * 256 + b[3] as nat
    ensures FromBe(b) == b[0] as nat * 16777216 + b[1] as nat * 65536 + b[2] as nat * 256 + b[3] as nat
  {
    PrefixRoundTrip(n);
    var c := ToBe(n);
    assert FromBe(c) == c[0] as nat * 16777216 + c[1] as nat * 65536 + c[2] as nat * 256 + c[3] as nat;
    if FromBe(b) == n {
      assert b[0] == c[0] && b[1] == c[1] && b[2] == c[2] && b[3] == c[3];
      assert b == c;
    }
  }

  lemma PrefixRoundTrip(n: nat)
    requires n <= U32_MAX
    ensures FromBe(ToBe(n)) == n
  {
    assert n / 0x1_00_00_00 == n / 0x1_00_00 / 0x1_00 && n / 0x1_00_00 == n / 0x1_00 / 0x1_00;
  }

  // ---- specification ----------------------------------------------------------

  function Encode(payload: Bytes): Bytes
    requires |payload| <= U32_MAX
  {
    ToBe(|payload|) + payload
  }

  predicate Sendable(payload: Bytes, max: nat) {
    |payload| <= max && |payload| <= U32_MAX
  }

  function EncodeAll(payloads: seq<Bytes>, max: nat): Bytes
    requires forall p :: p in payloads ==> Sendable(p, max)
  {
    if payloads == [] then [] else
      assert Sendable(payloads[0], max);
      Encode(payloads[0]) + EncodeAll(payloads[1..], max)
  }

  /** What a byte stream holds: its complete frames, what follows them, and whether that is a
      prefix declaring more than the limit. */
  datatype Extraction = Extraction(frames: seq<Bytes>, rest: Bytes, tooLarge: Option<nat>)

  /** What the front of a stream is: not decided yet, an oversized prefix, or a complete frame
      of so many bytes, prefix included. */
  datatype Front = Undecided | Oversized(declared: nat) | Complete(length: nat)

  function FrontOf(stream: Bytes, max: nat): (f: Front)
    ensures f.Complete? ==> 4 <= f.length <= |stream|
  {
    if |stream| < 4 then Undecided
    else
      var declared := FromBe(stream[..4]);
      if declared > max then Oversized(declared)
      else if |stream| < 4 + declared then Undecided
      else Complete(4 + declared)
  }

  function Extract(stream: Bytes, max: nat): Extraction
    decreases |stream|
  {
    match FrontOf(stream, max)
    case Undecided => Extraction([], stream, None)
    case Oversized(declared) => Extraction([], stream, Some(declared))
    case Complete(n) =>
      var x := Extract(stream[n..], max);
      x.(frames := [stream[4..n]] + x.frames)
  }

  /** An extraction after frames that came before it. */
  function Joined(frames: seq<Bytes>, x: Extraction): Extraction {
    x.(frames := frames + x.frames)
  }

  lemma JoinsOne(frames: seq<Bytes>, x: Extraction, y: Extraction)
    requires x.frames != [] && x.(frames := x.frames[1..]) == y
    ensures Joined(frames, x) == Joined(frames + [x.frames[0]], y)
  {
    assert frames + x.frames == (frames + [x.frames[0]]) + x.frames[1..];
  }

  /** Taking the frame at the front. */
  lemma TakesFrame(frames: seq<Bytes>, stream: Bytes, max: nat)
    requires FrontOf(stream, max).Complete?
    ensures var n := FrontOf(stream, max).length;
      Joined(frames, Extract(stream, max)) == Joined(frames + [stream[4..n]], Extract(stream[n..], max))
  {
    var n := FrontOf(stream, max).length;
    var x, y := Extract(stream, max), Extract(stream[n..], max);
    assert x.frames[1..] == y.frames;
    JoinsOne(frames, x, y);
  }

  /** How a stream of frames ends, for a reader that has consumed all complete ones. */
  function Ending(x: Extraction, max: nat): CodecError {
    if x.tooLarge.Some? then FrameTooLarge(x.tooLarge.value, max)
    else if x.rest == [] then CleanEof
    else if |x.rest| < 4 then UnexpectedEof(LengthPrefix, 4, |x.rest|)
    else UnexpectedEof(Payload, FromBe(x.rest[..4]), |x.rest| - 4)
  }

  /** Frames come back exactly as they were written. */
  lemma {:induction false} RoundTrip(payloads: seq<Bytes>, max: nat)
    requires forall p :: p in payloads ==> Sendable(p, max)
    ensures Extract(EncodeAll(payloads, max), max) == Extraction(payloads, [], None)
  {
    if payloads != [] {
      assert payloads[0] in payloads;
      var p, rest := payloads[0], EncodeAll(payloads[1..], max);
      var stream := EncodeAll(payloads, max);
      assert stream == ToBe(|p|) + (p + rest);
      assert stream[..4] == ToBe(|p|) && stream[4..4 + |p|] == p && stream[4 + |p|..] == rest;
      PrefixRoundTrip(|p|);
      RoundTrip(payloads[1..], max);
      assert [p] + payloads[1..] == payloads;
    }
  }

  /** Extracting from a prefix of a stream first loses nothing. */
  lemma {:induction false} ExtractInTwo(a: Bytes, b: Bytes, max: nat)
    ensures var x := Extract(a, max);
      var y := Extract(x.rest + b, max);
      Extract(a + b, max) == y.(frames := x.frames + y.frames)
    decreases |a|
  {
    if FrontOf(a, max).Complete? {
      var n := FrontOf(a, max).length;
      var frame, tail := a[4..n], a[n..];
      FrontStays(a, b, max);
      assert (a + b)[4..n] == frame && (a + b)[n..] == tail + b;
      ExtractInTwo(tail, b, max);
      var x := Extract(tail, max);
      var y := Extract(x.rest + b, max);
      assert [frame] + (x.frames + y.frames) == ([frame] + x.frames) + y.frames;
    } else {
      var y := Extract(a + b, max);
      assert [] + y.frames == y.frames;
    }
  }

  /** More bytes never change a front that is decided. */
  lemma FrontStays(a: Bytes, b: Bytes, max: nat)
    ensures FrontOf(a, max) != Undecided ==> FrontOf(a + b, max) == FrontOf(a, max)
  {
    if |a| >= 4 {
      assert (a + b)[..4] == a[..4];
    }
  }

  // ---- writing ----------------------------------------------------------------

  /** `FrameCodec::write`, to a writer that accepts everything. */
  method Write(max: nat, written: Bytes, payload: Bytes) returns (r: Result<Bytes>)
    ensures Sendable(payload, max) ==> r == Ok(written + Encode(payload))
    ensures !Sendable(payload, max) ==> r == Err(FrameTooLarge(|payload|, Min(max, U32_MAX)))
  {
    if |payload| > max || |payload| > U32_MAX {
      return Err(FrameTooLarge(|payload|, Min(max, U32_MAX)));
    }
    var length := ToBe(|payload|);
    assert written + length + payload == written + Encode(payload);
    return Ok(written + length + payload);
  }

  // ---- incremental decoding ---------------------------------------------------

  class IncrementalFrameDecoder {
    const maxFrameBytes: nat
    var buffer: Bytes

    constructor (maxFrameBytes: nat)
      ensures buffer == [] && this.maxFrameBytes == maxFrameBytes
    {
      this.maxFrameBytes, buffer := maxFrameBytes, [];
    }

    /** An oversized prefix stops the decoder for good; the frames of that call are dropped. */
    method Append(bytes: Bytes) returns (r: Result<seq<Bytes>>)
      modifies this
      ensures var x := Extract(old(buffer) + bytes, maxFrameBytes);
        && buffer == x.rest
        && r == if x.tooLarge.Some? then Err(FrameTooLarge(x.tooLarge.value, maxFrameBytes)) else Ok(x.frames)
    {
      buffer := buffer + bytes;
      ghost var x := Extract(buffer, maxFrameBytes);
      var frames: seq<Bytes> := [];
      while |buffer| >= 4
        invariant x == Joined(frames, Extract(buffer, maxFrameBytes))
        decreases |buffer|
      {
        var declared := FromBe(buffer[..4]);
        if declared > maxFrameBytes {
          return Err(FrameTooLarge(declared, maxFrameBytes));
        }
        if |buffer| < 4 + declared {
          break;
        }
        TakesFrame(frames, buffer, maxFrameBytes);
        frames := frames + [buffer[4..4 + declared]];
        buffer := buffer[4 + declared..];
      }
      assert frames + [] == frames;
      return Ok(frames);
    }

    /** `finish`. */
    method Finish() returns (r: Result<()>)
      ensures r.Ok? <==> buffer == []
      ensures 0 < |buffer| < 4 ==> r == Err(UnexpectedEof(LengthPrefix, 4, |buffer|))
      ensures |buffer| >= 4 ==> r == Err(UnexpectedEof(Payload, FromBe(buffer[..4]), |buffer| - 4))
    {
      if buffer == [] {
        return Ok(());
      }
      if |buffer| < 4 {
        return Err(UnexpectedEof(LengthPrefix, 4, |buffer|));
      }
      return Err(UnexpectedEof(Payload, FromBe(buffer[..4]), |buffer| - 4));
    }
  }

  function Concat(chunks: seq<Bytes>): Bytes {
    if chunks == [] then [] else Concat(chunks[..|chunks| - 1]) + chunks[|chunks| - 1]
  }

  /** Feeding a fresh decoder chunk by chunk, then finishing. However the stream is cut, the
      frames and the ending are those of the whole stream. With an oversized prefix the frames
      delivered are those of the chunks before the one that revealed it. */
  method Decode(max: nat, chunks: seq<Bytes>) returns (frames: seq<Bytes>, ending: CodecError)
    ensures var x := Extract(Concat(chunks), max);
      && ending == Ending(x, max)
      && (x.tooLarge == None ==> frames == x.frames)
      && (x.tooLarge.Some? ==>
            && frames <= x.frames
            && exists n :: 0 <= n < |chunks| && frames == Extract(Concat(chunks[..n]), max).frames)
  {
    var decoder := new IncrementalFrameDecoder(max);
    frames := [];
    for i := 0 to |chunks|
      invariant Extract(Concat(chunks[..i]), max) == Extraction(frames, decoder.buffer, None)
    {
      assert chunks[..i + 1][..i] == chunks[..i];
      ExtractInTwo(Concat(chunks[..i]), chunks[i], max);
      var r := decoder.Append(chunks[i]);
      if r.Err? {
        PrefixKeepsFrames(chunks, i + 1, max);
        return frames, r.error;
      }
      frames := frames + r.value;
    }
    assert chunks[..|chunks|] == chunks;
    var end := decoder.Finish();
    ending := if end.Ok? then CleanEof else end.error;
  }

  /** However the encoded stream is split, exactly the written payloads come out, in order. */
  method DecodeWritten(payloads: seq<Bytes>, max: nat, chunks: seq<Bytes>) returns (frames: seq<Bytes>, ending: CodecError)
    requires forall p :: p in payloads ==> Sendable(p, max)
    requires Concat(chunks) == EncodeAll(payloads, max)
    ensures frames == payloads && ending == CleanEof
  {
    RoundTrip(payloads, max);
    frames, ending := Decode(max, chunks);
  }

  /** An oversized extraction stops at the prefix that says so. */
  lemma {:induction false} Stuck(stream: Bytes, max: nat)
    requires Extract(stream, max).tooLarge.Some?
    ensures var x := Extract(stream, max);
      |x.rest| >= 4 && FromBe(x.rest[..4]) == x.tooLarge.value > max
    decreases |stream|
  {
    if FrontOf(stream, max).Complete? {
      Stuck(stream[FrontOf(stream, max).length..], max);
    }
  }

  /** Once a prefix of the chunks holds an oversized prefix, more chunks change nothing. */
  lemma {:induction false} PrefixKeepsFrames(chunks: seq<Bytes>, n: nat, max: nat)
    requires n <= |chunks| && Extract(Concat(chunks[..n]), max).tooLarge.Some?
    ensures Extract(Concat(chunks), max).tooLarge == Extract(Concat(chunks[..n]), max).tooLarge
    ensures Extract(Concat(chunks), max).frames == Extract(Concat(chunks[..n]), max).frames
    decreases |chunks| - n
  {
    if n == |chunks| {
      assert chunks[..n] == chunks;
    } else {
      assert chunks[..n + 1][..n] == chunks[..n];
      var x := Extract(Concat(chunks[..n]), max);
      ExtractInTwo(Concat(chunks[..n]), chunks[n], max);
      Stuck(Concat(chunks[..n]), max);
      assert (x.rest + chunks[n])[..4] == x.rest[..4];
      PrefixKeepsFrames(chunks, n + 1, max);
    }
  }

  // ---- blocking reads ---------------------------------------------------------

  /** A source that returns what it likes, at least one byte while any remain, and may be
      interrupted a bounded number of times or fail. */
  class Reader {
    const data: Bytes
    var position: nat
    var interruptions: nat

    ghost predicate Valid()
      reads this
    {
      position <= |data|
    }

    constructor (data: Bytes, interruptions: nat)
      ensures Valid() && this.data == data && position == 0
    {
      this.data, position, this.interruptions := data, 0, interruptions;
    }

    /** None is a hard error. An interruption reads nothing but uses up one of them. */
    method Read(limit: nat) returns (interrupted: bool, bytes: Option<Bytes>)
      requires Valid() && limit > 0
      modifies this
      ensures Valid() && old(position) <= position
      ensures interrupted ==> position == old(position) && interruptions < old(interruptions)
      ensures !interrupted ==> interruptions == old(interruptions)
      ensures bytes.Some? ==> bytes.value == data[old(position)..position] && |bytes.value| <= limit
      ensures !interrupted && bytes.Some? && old(position) < |data| ==> |bytes.value| > 0
      ensures interrupted ==> bytes == Some([])
    {
      var interrupt: bool, fail: bool := *, *;
      if interruptions > 0 && interrupt {
        interruptions := interruptions - 1;
        return true, Some([]);
      }
      if fail {
        return false, None;
      }
      var n: nat := *;
      var most := Min(limit, |data| - position);
      n := if most == 0 then 0 else if 1 <= n <= most then n else most;
      bytes := Some(data[position..position + n]);
      position := position + n;
      interrupted := false;
    }
  }

  lemma SliceJoin(data: Bytes, a: nat, b: nat, c: nat)
    requires a <= b <= c <= |data|
    ensures data[a..b] + data[b..c] == data[a..c]
  {
  }

  /** `read_exact_bounded`. */
  method ReadExactBounded(reader: Reader, output: array<Byte>, phase: Phase, cleanEofAtStart: bool)
    returns (r: Result<()>)
    requires reader.Valid()
    modifies reader, output
    ensures reader.Valid()
    ensures var left := |reader.data| - old(reader.position);
      || r == Err(Io(phase))
      || (output.Length <= left && r == Ok(()) && reader.position == old(reader.position) + output.Length
          && output[..] == reader.data[old(reader.position)..reader.position])
      || (output.Length > left && reader.position == |reader.data|
          && r == Err(if left == 0 && cleanEofAtStart then CleanEof else UnexpectedEof(phase, output.Length, left)))
  {
    var received := 0;
    ghost var start := reader.position;
    while received < output.Length
      invariant reader.Valid() && received <= output.Length && reader.position == start + received
      invariant output[..received] == reader.data[start..reader.position]
      decreases output.Length - received, reader.interruptions
    {
      var interrupted, bytes := reader.Read(output.Length - received);
      if interrupted {
        continue;
      }
      if bytes == None {
        return Err(Io(phase));
      }
      var count := |bytes.value|;
      if count == 0 {
        return Err(if received == 0 && cleanEofAtStart then CleanEof
                   else UnexpectedEof(phase, output.Length, received));
      }
      forall k | 0 <= k < count {
        output[received + k] := bytes.value[k];
      }
      assert output[..received + count] == output[..received] + bytes.value;
      SliceJoin(reader.data, start, start + received, reader.position);
      received := received + count;
    }
    assert output[..] == output[..received];
    return Ok(());
  }

  /** `read_payload`: one step of extraction from what is left, whatever the read sizes. */
  method ReadPayload(reader: Reader, max: nat) returns (r: Result<Bytes>)
    requires reader.Valid()
    modifies reader
    ensures reader.Valid()
    ensures var x := Extract(reader.data[old(reader.position)..], max);
      || (r.Err? && r.error.Io?)
      || (x.frames == [] && r == Err(Ending(x, max)))
      || (x.frames != [] && r == Ok(x.frames[0])
          && x.(frames := x.frames[1..]) == Extract(reader.data[reader.position..], max)
          && reader.position >= old(reader.position) + 4)
  {
    ghost var start := reader.position;
    ghost var stream := reader.data[start..];
    var prefix := new Byte[4];
    var got := ReadExactBounded(reader, prefix, LengthPrefix, true);
    if got.Err? {
      return Err(got.error);
    }
    assert prefix[..] == stream[..4];
    var declared := FromBe(prefix[..]);
    if declared > max {
      return Err(FrameTooLarge(declared, max));
    }
    var payload := new Byte[declared];
    got := ReadExactBounded(reader, payload, Payload, false);
    if got.Err? {
      return Err(got.error);
    }
    assert payload[..] == stream[4..4 + declared];
    assert stream[4 + declared..] == reader.data[reader.position..];
    return Ok(payload[..]);
  }

  /** Reading until an error: unless the transport fails, the same frames and the same ending
      as the incremental decoder, under every schedule of short reads. */
  method ReadAll(reader: Reader, max: nat) returns (frames: seq<Bytes>, ending: CodecError)
    requires reader.Valid()
    modifies reader
    ensures var x := Extract(reader.data[old(reader.position)..], max);
      ending.Io? || (frames == x.frames && ending == Ending(x, max))
  {
    frames := [];
    ghost var x := Extract(reader.data[reader.position..], max);
    while true
      invariant reader.Valid()
      invariant x == Joined(frames, Extract(reader.data[reader.position..], max))
      decreases |reader.data| - reader.position
    {
      ghost var y := Extract(reader.data[reader.position..], max);
      var r := ReadPayload(reader, max);
      if r.Err? {
        assert frames + [] == frames;
        return frames, r.error;
      }
      JoinsOne(frames, y, Extract(reader.data[reader.position..], max));
      frames := frames + [r.value];
    }
  }
}
