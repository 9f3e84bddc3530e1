/** The length-prefixed frame format: four big-endian length bytes, then the payload. */
module FrameFormat {

  type Byte = b: int | 0 <= b < 256

  const TWO32: nat := 0x1_0000_0000

  datatype ReadError = ShortHeader | TooLarge(size: nat) | ShortBody

  /** What one read makes of a stream: a frame and the bytes after it, or an error. */
  datatype Read = Frame(frame: seq<Byte>, rest: seq<Byte>) | Failed(error: ReadError)

  function PutUint32(n: nat): (h: seq<Byte>)
    requires n < TWO32
    ensures |h| == 4
  {
    [n / 0x100_0000, n / 0x1_0000 % 256, n / 256 % 256, n % 256]
  }

  function Uint32(h: seq<Byte>): (n: nat)
    requires |h| == 4
    ensures n < TWO32
  {
    ((h[0] as int * 256 + h[1]) * 256 + h[2]) * 256 + h[3]
  }

  lemma HeaderRoundTrip(n: nat)
    requires n < TWO32
    ensures Uint32(PutUint32(n)) == n
  {
    var a, b, c := n / 256, n / 0x1_0000, n / 0x100_0000;
    assert n == a * 256 + n % 256;
    assert b == a / 256 && a == b * 256 + a % 256;
    assert c == b / 256 && b == c * 256 + b % 256;
  }

  lemma HeaderOf(h: seq<Byte>)
    requires |h| == 4
    ensures PutUint32(Uint32(h)) == h
  {
    var c: int := h[0];
    var b: int := c * 256 + h[1];
    var a: int := b * 256 + h[2];
    var n: int := a * 256 + h[3];
    assert n / 256 == a && n % 256 == h[3];
    assert n / 0x1_0000 == a / 256 == b && a % 256 == h[2];
    assert n / 0x100_0000 == b / 256 == c && b % 256 == h[1];
  }

  /** a and b first differ at byte i, where a is smaller. */
  ghost predicate SmallerAt(a: seq<Byte>, b: seq<Byte>, i: nat) {
    i < |a| == |b| && a[..i] == b[..i] && a[i] < b[i]
  }

  /** The most significant byte comes first: headers are ordered byte by byte as the
      lengths they stand for. */
  lemma HeaderOrder(a: seq<Byte>, b: seq<Byte>)
    requires |a| == |b| == 4
    ensures Uint32(a) < Uint32(b) <==> exists i :: SmallerAt(a, b, i)
  {
    if i :| 0 <= i < 4 && SmallerAt(a, b, i) {
      assert forall j :: 0 <= j < i ==> a[j] == a[..i][j] == b[..i][j] == b[j];
    } else {
      assert a[..0] == b[..0] && !SmallerAt(a, b, 0);
      if a[0] == b[0] {
        assert a[..1] == b[..1] && !SmallerAt(a, b, 1);
        if a[1] == b[1] {
          assert a[..2] == b[..2] && !SmallerAt(a, b, 2);
          if a[2] == b[2] {
            assert a[..3] == b[..3] && !SmallerAt(a, b, 3);
          }
        }
      }
    }
  }

  /** A frame is encoded as its length, then the frame itself. */
  function Encode(frame: seq<Byte>): (bytes: seq<Byte>)
    requires |frame| < TWO32
    ensures |bytes| == 4 + |frame| && Uint32(bytes[..4]) == |frame| && bytes[4..] == frame
  {
    HeaderRoundTrip(|frame|);
    PutUint32(|frame|) + frame
  }

  function Decode(stream: seq<Byte>, max: nat): Read {
    if |stream| < 4 then Failed(ShortHeader)
    else
      var size := Uint32(stream[..4]);
      if size > max then Failed(TooLarge(size))
      else if |stream| - 4 < size then Failed(ShortBody)
      else Frame(stream[4..4 + size], stream[4 + size..])
  }

  /** Reading accepts exactly the encodings of frames within the limit: a frame comes
      out if and only if the stream begins with its encoding, and exactly those bytes
      are consumed. */
  lemma DecodeAcceptsEncodings(stream: seq<Byte>, max: nat, frame: seq<Byte>, rest: seq<Byte>)
    requires max < TWO32
    ensures Decode(stream, max) == Frame(frame, rest)
            <==> |frame| <= max && |frame| < TWO32 && stream == Encode(frame) + rest
  {
    if Decode(stream, max) == Frame(frame, rest) {
      HeaderOf(stream[..4]);
      assert stream == stream[..4] + stream[4..4 + |frame|] + stream[4 + |frame|..];
    }
    if |frame| <= max && stream == Encode(frame) + rest {
      HeaderRoundTrip(|frame|);
      assert stream[..4] == PutUint32(|frame|);
    }
  }

  /** Exactly when reading fails, and how: without a whole header; on a header over the
      limit, whatever follows; or on what begins an encoding within the limit and stops short. */
  lemma DecodeFailures(stream: seq<Byte>, max: nat)
    requires max < TWO32
    ensures Decode(stream, max) == Failed(ShortHeader) <==> |stream| < 4
    ensures forall n: nat :: Decode(stream, max) == Failed(TooLarge(n)) <==> |stream| >= 4 && Uint32(stream[..4]) == n > max
    ensures Decode(stream, max) == Failed(ShortBody) <==> StopsShort(stream, max)
  {
    hide Uint32, PutUint32;
    if Decode(stream, max) == Failed(ShortBody) {
      Completed(stream, max);
    }
    if StopsShort(stream, max) {
      var frame: seq<Byte> :| |frame| <= max && stream < Encode(frame);
      assert stream[..4] == Encode(frame)[..4];
    }
  }

  lemma Completed(stream: seq<Byte>, max: nat)
    requires max < TWO32 && |stream| >= 4 && |stream| - 4 < Uint32(stream[..4]) <= max
    ensures StopsShort(stream, max)
  {
    var size := Uint32(stream[..4]);
    HeaderOf(stream[..4]);
    hide Uint32, PutUint32;
    var frame: seq<Byte> := stream[4..] + seq(size - (|stream| - 4), _ => 0);
    assert |frame| == size;
    assert Encode(frame) == stream[..4] + frame;
    assert Encode(frame)[..|stream|] == stream;
  }

  /** A proper part of the encoding of a frame within the limit, from its start and past
      the header. */
  ghost predicate StopsShort(stream: seq<Byte>, max: nat)
    requires max < TWO32
  {
    |stream| >= 4 && exists frame: seq<Byte> :: |frame| <= max && stream < Encode(frame)
  }

  function EncodeAll(frames: seq<seq<Byte>>): seq<Byte>
    requires forall i :: 0 <= i < |frames| ==> |frames[i]| < TWO32
  {
    if frames == [] then [] else Encode(frames[0]) + EncodeAll(frames[1..])
  }

  /** What reading several frames makes of a stream. */
  datatype ReadMany = All(frames: seq<seq<Byte>>, rest: seq<Byte>) | Stopped(before: seq<seq<Byte>>, error: ReadError)

  function DecodeAll(stream: seq<Byte>, max: nat, count: nat): ReadMany {
    if count == 0 then All([], stream)
    else
      match Decode(stream, max)
      case Failed(e) => Stopped([], e)
      case Frame(frame, rest) =>
        match DecodeAll(rest, max, count - 1)
        case All(frames, left) => All([frame] + frames, left)
        case Stopped(before, e) => Stopped([frame] + before, e)
  }

  /** Any list of frames within the limit is read back in order, and exactly the bytes
      written are consumed, whatever follows them. */
  lemma {:induction false} RoundTrip(frames: seq<seq<Byte>>, max: nat, rest: seq<Byte>)
    requires max < TWO32 && forall i :: 0 <= i < |frames| ==> |frames[i]| <= max
    ensures DecodeAll(EncodeAll(frames) + rest, max, |frames|) == All(frames, rest)
  {
    hide Decode, Encode;
    if frames == [] {
      assert EncodeAll(frames) + rest == rest;
    } else {
      var stream, tail := EncodeAll(frames) + rest, EncodeAll(frames[1..]) + rest;
      assert stream == Encode(frames[0]) + tail;
      DecodeAcceptsEncodings(stream, max, frames[0], tail);
      RoundTrip(frames[1..], max, rest);
      assert [frames[0]] + frames[1..] == frames;
    }
  }

  lemma {:induction false} EncodeAllAppend(frames: seq<seq<Byte>>, frame: seq<Byte>)
    requires |frame| < TWO32 && forall i :: 0 <= i < |frames| ==> |frames[i]| < TWO32
    ensures EncodeAll(frames + [frame]) == EncodeAll(frames) + Encode(frame)
  {
    if frames == [] {
      assert frames + [frame] == [frame];
    } else {
      assert (frames + [frame])[1..] == frames[1..] + [frame];
      EncodeAllAppend(frames[1..], frame);
    }
  }

  /** A stream cut anywhere inside an encoding is refused. */
  lemma TruncatedIsRefused(frame: seq<Byte>, max: nat, cut: nat)
    requires |frame| <= max < TWO32 && cut < |Encode(frame)|
    ensures Decode(Encode(frame)[..cut], max).Failed?
  {
    var stream := Encode(frame)[..cut];
    if cut >= 4 {
      HeaderRoundTrip(|frame|);
      assert stream[..4] == PutUint32(|frame|);
    }
  }
}

/** The framer over streams that may write less than asked. */
module Framers {
  import opened FrameFormat

  /** A sink that takes, call by call, as much as its schedule says, at least one byte
      unless it fails. A failing call may have taken some bytes. */
  class Writer {
    const takes: nat -> nat
    const fails: nat -> bool
    var calls: nat
    var written: seq<Byte>

    constructor (takes: nat -> nat, fails: nat -> bool)
      ensures written == [] && calls == 0 && this.takes == takes && this.fails == fails
    {
      this.takes, this.fails, calls, written := takes, fails, 0, [];
    }

    method Write(data: seq<Byte>) returns (n: nat, ok: bool)
      requires data != []
      modifies this
      ensures n <= |data| && written == old(written) + data[..n]
      ensures calls == old(calls) + 1 && ok == !fails(old(calls))
      ensures ok ==> n >= 1
    {
      ok := !fails(calls);
      n := takes(calls);
      if n > |data| {
        n := |data|;
      }
      if ok && n == 0 {
        n := 1;
      }
      written := written + data[..n];
      calls := calls + 1;
    }
  }

  /** A source over a fixed stream, read with io.ReadFull. */
  class Reader {
    var stream: seq<Byte>

    constructor (stream: seq<Byte>)
      ensures this.stream == stream
    {
      this.stream := stream;
    }

    method ReadFull(n: nat) returns (data: seq<Byte>, ok: bool)
      modifies this
      ensures ok == (n <= |old(stream)|)
      ensures data == (if ok then old(stream)[..n] else old(stream))
      ensures stream == old(stream)[|data|..]
    {
      ok := n <= |stream|;
      data := if ok then stream[..n] else stream;
      stream := stream[|data|..];
    }
  }

  /** Writes everything, over as many calls as it takes; only a failing call stops it. */
  method WriteFull(w: Writer, data: seq<Byte>) returns (ok: bool)
    modifies w
    ensures ok ==> w.written == old(w.written) + data
    ensures !ok ==> exists k :: 0 <= k <= |data| && w.written == old(w.written) + data[..k]
    ensures (forall c :: !w.fails(c)) ==> ok
  {
    var rest := data;
    ghost var done := 0;
    while |rest| > 0
      invariant 0 <= done <= |data| && rest == data[done..]
      invariant w.written == old(w.written) + data[..done]
      decreases |rest|
    {
      var n, fine := w.Write(rest);
      assert data[..done + n] == data[..done] + rest[..n];
      done := done + n;
      if !fine {
        return false;
      }
      rest := rest[n..];
    }
    assert data[..done] == data;
    return true;
  }

  /** What one call of ReadFrame gives. */
  datatype Received = Got(frame: seq<Byte>) | Broken(error: ReadError)

  class LengthPrefixedFramer {
    const maxFrameBytes: nat

    ghost predicate Valid() {
      maxFrameBytes < TWO32
    }

    constructor (max: nat)
      requires max < TWO32
      ensures Valid() && maxFrameBytes == if max == 0 then 4 * 1024 * 1024 else max
    {
      maxFrameBytes := if max == 0 then 4 * 1024 * 1024 else max;
    }

    /** A frame over the limit is refused and nothing is written; otherwise the bytes
        written are the frame's encoding, or a prefix of it if the sink failed. */
    method WriteFrame(w: Writer, frame: seq<Byte>) returns (ok: bool)
      requires Valid()
      modifies w
      ensures |frame| > maxFrameBytes ==> !ok && w.written == old(w.written)
      ensures ok ==> w.written == old(w.written) + Encode(frame)
      ensures |frame| <= maxFrameBytes && (forall c :: !w.fails(c)) ==> ok
      ensures |frame| <= maxFrameBytes ==>
                exists k :: 0 <= k <= |Encode(frame)| && w.written == old(w.written) + Encode(frame)[..k]
    {
      if |frame| > maxFrameBytes {
        return false;
      }
      ghost var before := w.written;
      var header := PutUint32(|frame|);
      ok := WriteFull(w, header);
      if !ok {
        ghost var k :| 0 <= k <= 4 && w.written == before + header[..k];
        assert Encode(frame)[..k] == header[..k];
        return;
      }
      ok := WriteFull(w, frame);
      if ok {
        assert Encode(frame)[..|Encode(frame)|] == Encode(frame);
        assert w.written == before + Encode(frame);
      } else {
        ghost var k :| 0 <= k <= |frame| && w.written == before + header + frame[..k];
        assert Encode(frame)[..4 + k] == header + frame[..k];
        assert w.written == before + Encode(frame)[..4 + k];
      }
    }

    /** Reading takes exactly one frame off the stream, or fails as the format says. */
    method ReadFrame(r: Reader) returns (result: Received)
      requires Valid()
      modifies r
      ensures match Decode(old(r.stream), maxFrameBytes)
              case Frame(frame, rest) => result == Got(frame) && r.stream == rest
              case Failed(e) => result == Broken(e)
    {
      var header, ok := r.ReadFull(4);
      if !ok {
        return Broken(ShortHeader);
      }
      var size := Uint32(header);
      if size > maxFrameBytes {
        return Broken(TooLarge(size));
      }
      if size == 0 {
        return Got([]);
      }
      var frame;
      frame, ok := r.ReadFull(size);
      if !ok {
        return Broken(ShortBody);
      }
      return Got(frame);
    }
  }

  method SendAll(framer: LengthPrefixedFramer, frames: seq<seq<Byte>>, w: Writer)
    requires framer.Valid() && forall i :: 0 <= i < |frames| ==> |frames[i]| <= framer.maxFrameBytes
    requires forall c :: !w.fails(c)
    modifies w
    ensures w.written == old(w.written) + EncodeAll(frames)
  {
    hide Encode;
    for i := 0 to |frames|
      invariant w.written == old(w.written) + EncodeAll(frames[..i])
    {
      var ok := framer.WriteFrame(w, frames[i]);
      EncodeAllAppend(frames[..i], frames[i]);
      assert frames[..i + 1] == frames[..i] + [frames[i]];
    }
    assert frames[..|frames|] == frames;
  }

  /** Reads frames until there are count of them or a read fails. */
  method ReceiveAll(framer: LengthPrefixedFramer, r: Reader, count: nat) returns (received: seq<seq<Byte>>, ok: bool)
    requires framer.Valid()
    modifies r
    ensures match DecodeAll(old(r.stream), framer.maxFrameBytes, count)
            case All(frames, rest) => ok && received == frames && r.stream == rest
            case Stopped(before, _) => !ok && received == before
    decreases count
  {
    if count == 0 {
      return [], true;
    }
    hide Decode;
    var result := framer.ReadFrame(r);
    if result.Broken? {
      return [], false;
    }
    received, ok := ReceiveAll(framer, r, count - 1);
    received := [result.frame] + received;
  }

  /** Writing frames within the limit to a sink that makes progress, however little it
      takes at a time, and reading the bytes back gives the same frames in order and
      leaves exactly what followed them. */
  method Relay(framer: LengthPrefixedFramer, frames: seq<seq<Byte>>, takes: nat -> nat, trailing: seq<Byte>)
    returns (received: seq<seq<Byte>>, left: seq<Byte>, ok: bool)
    requires framer.Valid() && forall i :: 0 <= i < |frames| ==> |frames[i]| <= framer.maxFrameBytes
    ensures ok && received == frames && left == trailing
  {
    hide DecodeAll, EncodeAll;
    var w := new Writer(takes, c => false);
    SendAll(framer, frames, w);
    assert w.written == EncodeAll(frames);
    var r := new Reader(w.written + trailing);
    RoundTrip(frames, framer.maxFrameBytes, trailing);
    received, ok := ReceiveAll(framer, r, |frames|);
    left := r.stream;
  }
}
