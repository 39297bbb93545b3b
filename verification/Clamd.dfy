/** The clamd INSTREAM framing: `write_instream` and the reader of its test double. */
module Clamd {
  import opened Common

  // "zINSTREAM", NUL
  const COMMAND: seq<byte> := [0x7A, 0x49, 0x4E, 0x53, 0x54, 0x52, 0x45, 0x41, 0x4D, 0x00]

  const CHUNK_SIZE: nat := 1024 * 1024

  /** `u32::to_be_bytes`. */
  function Big32(n: u32): seq<byte> {
    [n / 0x100_0000, n / 0x1_0000 % 0x100, n / 0x100 % 0x100, n % 0x100]
  }

  /** `u32::from_be_bytes`. */
  function FromBig32(s: seq<byte>): u32
    requires |s| == 4
  {
    0x100_0000 * (s[0] as int) + 0x1_0000 * (s[1] as int) + 0x100 * (s[2] as int) + (s[3] as int)
  }

  /** The byte stream to the daemon. */
  class ByteStream {
    var sent: seq<byte>

    constructor ()
      ensures sent == []
    {
      sent := [];
    }

    method WriteAll(bytes: seq<byte>)
      modifies this
      ensures sent == old(sent) + bytes
    {
      sent := sent + bytes;
    }
  }

  /** One chunk with its length in front. */
  function Frame(chunk: seq<byte>): seq<byte>
    requires |chunk| <= CHUNK_SIZE
  {
    Big32(|chunk|) + chunk
  }

  /** The length-prefixed chunks of the data. */
  function Frames(data: seq<byte>): seq<byte> {
    if data == [] then []
    else
      var n := Min(|data|, CHUNK_SIZE);
      Frame(data[..n]) + Frames(data[n..])
  }

  /** The frame of the chunk at `start`, and the frames after it. */
  lemma FramesUnfold(data: seq<byte>, start: nat, n: nat)
    requires start < |data| && n == Min(|data| - start, CHUNK_SIZE)
    ensures Frames(data[start..]) == Frame(data[start..start + n]) + Frames(data[start + n..])
  {
    assert data[start..][..n] == data[start..start + n] && data[start..][n..] == data[start + n..];
  }

  method WriteChunk(stream: ByteStream, chunk: seq<byte>)
    requires |chunk| <= CHUNK_SIZE
    modifies stream
    ensures stream.sent == old(stream.sent) + Frame(chunk)
  {
    stream.WriteAll(Big32(|chunk|));
    stream.WriteAll(chunk);
    Regroup(old(stream.sent), Big32(|chunk|), chunk);
  }

  /** The loop over the chunks; the last one may be short. */
  method WriteChunks(stream: ByteStream, data: seq<byte>)
    modifies stream
    ensures stream.sent == old(stream.sent) + Frames(data)
  {
    ghost var before, frames := stream.sent, Frames(data);
    var start := 0;
    assert data[0..] == data;
    while start < |data|
      invariant 0 <= start <= |data|
      invariant stream.sent + Frames(data[start..]) == before + frames
    {
      var n := Min(|data| - start, CHUNK_SIZE);
      FramesUnfold(data, start, n);
      Regroup(stream.sent, Frame(data[start..start + n]), Frames(data[start + n..]));
      WriteChunk(stream, data[start..start + n]);
      start := start + n;
    }
    assert data[|data|..] == [] && stream.sent + [] == stream.sent;
  }

  method WriteInstream(stream: ByteStream, data: seq<byte>)
    modifies stream
    ensures stream.sent == old(stream.sent) + (COMMAND + (Frames(data) + Big32(0)))
  {
    stream.WriteAll(COMMAND);
    WriteChunks(stream, data);
    stream.WriteAll(Big32(0));
    FramesAssociate(old(stream.sent), COMMAND, Frames(data), Big32(0));
  }

  datatype Received = Received(data: seq<byte>, rest: seq<byte>)

  /** The reader's loop: chunks until a zero length. */
  function ReadFrames(s: seq<byte>): Option<Received>
    decreases |s|
  {
    if |s| < 4 then None
    else
      var n := FromBig32(s[..4]);
      if n == 0 then Some(Received([], s[4..]))
      else if |s| < 4 + n then None
      else
        match ReadFrames(s[4 + n..])
        case None => None
        case Some(more) => Some(Received(s[4..4 + n] + more.data, more.rest))
  }

  function ReadInstream(s: seq<byte>): Option<Received> {
    if COMMAND <= s then ReadFrames(s[|COMMAND|..]) else None
  }

  lemma Big32RoundTrip(n: u32)
    ensures FromBig32(Big32(n)) == n
  {
    var a := n / 0x100;
    var b := a / 0x100;
    assert n / 0x1_0000 == b && n / 0x100_0000 == b / 0x100;
  }

  /** A frame, more frames, and what follows them. */
  lemma ReadsFrame(length: seq<byte>, chunk: seq<byte>, frames: seq<byte>, end: seq<byte>, more: Received)
    requires |length| == 4 && FromBig32(length) == |chunk| > 0
    requires ReadFrames(frames + end) == Some(more)
    ensures ReadFrames(((length + chunk) + frames) + end) == Some(Received(chunk + more.data, more.rest))
  {
    var s := ((length + chunk) + frames) + end;
    assert s[..4] == length;
    assert s[4..4 + |chunk|] == chunk;
    assert s[4 + |chunk|..] == frames + end;
  }

  lemma ReadsEnd(length: seq<byte>, rest: seq<byte>)
    requires |length| == 4 && FromBig32(length) == 0
    ensures ReadFrames(length + rest) == Some(Received([], rest))
  {
    var s := length + rest;
    assert s[..4] == length && s[4..] == rest;
  }

  /** The first chunk in front of what is already known to be read back. */
  lemma ReadsChunk(data: seq<byte>, n: nat, end: seq<byte>, rest: seq<byte>)
    requires data != [] && n == Min(|data|, CHUNK_SIZE)
    requires ReadFrames(Frames(data[n..]) + end) == Some(Received(data[n..], rest))
    ensures ReadFrames(Frames(data) + end) == Some(Received(data[..n] + data[n..], rest))
  {
    Big32RoundTrip(n);
    ReadsFrame(Big32(n), data[..n], Frames(data[n..]), end, Received(data[n..], rest));
  }

  /** Frames in front of an end are read back as their data. */
  lemma {:induction false} FramesBefore(data: seq<byte>, end: seq<byte>, rest: seq<byte>)
    requires ReadFrames(end) == Some(Received([], rest))
    ensures ReadFrames(Frames(data) + end) == Some(Received(data, rest))
    decreases |data|
  {
    if data == [] {
      assert [] + end == end;
    } else {
      var n := Min(|data|, CHUNK_SIZE);
      FramesBefore(data[n..], end, rest);
      ReadsChunk(data, n, end, rest);
      assert data[..n] + data[n..] == data;
    }
  }

  lemma FramesRoundTrip(data: seq<byte>, rest: seq<byte>)
    ensures ReadFrames(Frames(data) + (Big32(0) + rest)) == Some(Received(data, rest))
  {
    Big32RoundTrip(0);
    ReadsEnd(Big32(0), rest);
    FramesBefore(data, Big32(0) + rest, rest);
  }

  lemma FramesAssociate(a: seq<byte>, b: seq<byte>, c: seq<byte>, d: seq<byte>)
    ensures ((a + b) + c) + d == a + (b + (c + d))
  {
  }

  /** The command is the text `zINSTREAM` and a NUL; a chunk is at most one mebibyte. */
  lemma CommandIsText()
    ensures |COMMAND| == 10 && COMMAND[9] == 0
    ensures forall i :: 0 <= i < 9 ==> COMMAND[i] == "zINSTREAM"[i] as int
    ensures CHUNK_SIZE == 0x10_0000
  {
  }

  /** What was written is read back whole, and nothing beyond it is consumed; no chunk is mistaken for the end. */
  lemma InstreamRoundTrip(data: seq<byte>, rest: seq<byte>)
    ensures ReadInstream(COMMAND + (Frames(data) + Big32(0)) + rest) == Some(Received(data, rest))
  {
    FramesRoundTrip(data, rest);
    ReadsCommand(Frames(data), Big32(0), rest);
  }

  lemma ReadsCommand(frames: seq<byte>, end: seq<byte>, rest: seq<byte>)
    ensures ReadInstream(COMMAND + (frames + end) + rest) == ReadFrames(frames + (end + rest))
  {
    var s := COMMAND + (frames + end) + rest;
    assert s[|COMMAND|..] == frames + (end + rest);
  }
}
