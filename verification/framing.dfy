/**
 * The peer wire format. A sender writes its records back to back and then
 * one all-zero record (netsort.go:81-88); a receiver cuts the incoming byte
 * stream into 100-byte frames (netsort.go:38-61).
 */
module Framing {
  import opened Records

  /** The bytes `sendData` writes on one connection: every record, then the sentinel. */
  function Encode(data: seq<Record>): (bytes: seq<byte>)
    ensures |bytes| == |Flatten(data)| + RecordSize
    ensures bytes[..|Flatten(data)|] == Flatten(data)
    ensures IsSentinel(bytes[|Flatten(data)|..])
  {
    Flatten(data) + Sentinel()
  }

  /** The whole 100-byte frames of a byte stream, in order; a shorter tail is no frame. */
  function Frames(s: seq<byte>): (frames: seq<Record>)
    ensures |frames| == |s| / RecordSize
    ensures forall k :: 0 <= k < |frames| ==> |frames[k]| == RecordSize
    decreases |s|
  {
    if |s| < RecordSize then [] else [s[..RecordSize]] + Frames(s[RecordSize..])
  }

  /** The bytes left over after the last whole frame. */
  function Leftover(s: seq<byte>): (tail: seq<byte>)
    ensures |tail| < RecordSize
    decreases |s|
  {
    if |s| < RecordSize then s else Leftover(s[RecordSize..])
  }

  /** Cutting frames loses nothing: the frames followed by the leftover are the stream. */
  lemma {:induction false} FramesConserve(s: seq<byte>)
    ensures Flatten(Frames(s)) + Leftover(s) == s
    decreases |s|
  {
    if |s| >= RecordSize {
      FramesConserve(s[RecordSize..]);
      assert s == s[..RecordSize] + s[RecordSize..];
    }
  }

  /**
   * Frames and leftover are determined by the stream: any split of a stream
   * into whole frames followed by a short tail is the one Frames and
   * Leftover give.
   */
  lemma {:induction false} FramesUnique(frames: seq<Record>, tail: seq<byte>)
    requires forall k :: 0 <= k < |frames| ==> |frames[k]| == RecordSize
    requires |tail| < RecordSize
    ensures Frames(Flatten(frames) + tail) == frames
    ensures Leftover(Flatten(frames) + tail) == tail
  {
    if frames != [] {
      var s := Flatten(frames) + tail;
      FramesUnique(frames[1..], tail);
      assert s == frames[0] + (Flatten(frames[1..]) + tail);
      assert s[..RecordSize] == frames[0];
      assert s[RecordSize..] == Flatten(frames[1..]) + tail;
      assert frames == [frames[0]] + frames[1..];
    }
  }

  /**
   * Round trip: when every record is 100 bytes long, the frames cut from
   * what a sender writes are its records in order followed by one sentinel,
   * and no bytes are left over.
   */
  lemma RoundTrip(data: seq<Record>)
    requires forall k :: 0 <= k < |data| ==> |data[k]| == RecordSize
    ensures Frames(Encode(data)) == data + [Sentinel()]
    ensures Leftover(Encode(data)) == []
  {
    var sent := data + [Sentinel()];
    FlattenAppend(data, [Sentinel()]);
    assert Flatten([Sentinel()]) == Sentinel();
    FramesUnique(sent, []);
    assert Flatten(sent) + [] == Encode(data);
  }

  /**
   * One read at a time: the frames of the stream extended by a read of at
   * most 100 bytes are the frames so far followed by the frames of the
   * pending bytes plus that read, of which there is at most one; the bytes
   * pending afterwards are those left over from the pending bytes plus
   * the read.
   */
  lemma FramesIncremental(s: seq<byte>, c: seq<byte>)
    requires |c| <= RecordSize
    ensures Frames(s + c) == Frames(s) + Frames(Leftover(s) + c)
    ensures Leftover(s + c) == Leftover(Leftover(s) + c)
    ensures |Frames(Leftover(s) + c)| <= 1
  {
    var t := Leftover(s) + c;
    FramesConserve(s);
    FramesConserve(t);
    FlattenAppend(Frames(s), Frames(t));
    assert s + c == Flatten(Frames(s) + Frames(t)) + Leftover(t);
    FramesUnique(Frames(s) + Frames(t), Leftover(t));
  }

  /**
   * A record shorter than 100 bytes breaks the framing of what follows it.
   * A short input record is the last one read, so it ends its bucket. The
   * front of the sentinel completes the short record's frame, and the rest
   * of the sentinel is left over, to be dropped at end-of-stream. Unless the
   * short record is all zero, that last frame is not a sentinel.
   */
  lemma ShortRecordMisframes(data: seq<Record>, r: Record, i: nat)
    requires forall k :: 0 <= k < |data| ==> |data[k]| == RecordSize
    requires |r| < RecordSize && i < |r| && r[i] != 0
    ensures Frames(Encode(data + [r])) == data + [r + Zeros(RecordSize - |r|)]
    ensures !IsSentinel(Frames(Encode(data + [r]))[|data|])
    ensures Leftover(Encode(data + [r])) == Zeros(|r|)
  {
    var frame, tail := r + Zeros(RecordSize - |r|), Zeros(|r|);
    var sent := data + [frame];
    FlattenAppend(data, [r]);
    FlattenAppend(data, [frame]);
    assert Flatten([r]) == r;
    assert Flatten([frame]) == frame;
    assert r + Sentinel() == frame + tail;
    assert Encode(data + [r]) == Flatten(sent) + tail;
    FramesUnique(sent, tail);
    assert sent[|data|] == frame && frame[i] == r[i];
  }

  /**
   * `handleConnection`: one connection's chunks, in order, each at most 100
   * bytes (the read buffer's size), followed by end-of-stream. Each read is
   * appended to the pending bytes; whenever 100 or more are pending, the
   * first 100 are emitted as a frame. At end-of-stream the pending bytes are
   * dropped. Returns the emitted frames and the dropped bytes.
   */
  method HandleConnection(chunks: seq<seq<byte>>) returns (frames: seq<Record>, dropped: seq<byte>)
    requires forall i :: 0 <= i < |chunks| ==> |chunks[i]| <= RecordSize
    ensures frames == Frames(Flatten(chunks))
    ensures dropped == Leftover(Flatten(chunks))
    ensures Flatten(frames) + dropped == Flatten(chunks)
    ensures |frames| <= |chunks|
  {
    frames := [];
    var pending: seq<byte> := [];
    var i := 0;
    while i < |chunks|
      invariant 0 <= i <= |chunks|
      invariant |pending| < RecordSize
      invariant |frames| <= i
      invariant forall k :: 0 <= k < |frames| ==> |frames[k]| == RecordSize
      invariant Flatten(frames) + pending + Flatten(chunks[i..]) == Flatten(chunks)
    {
      assert Flatten(chunks[i..]) == chunks[i] + Flatten(chunks[i + 1..]) by {
        assert chunks[i..][1..] == chunks[i + 1..];
      }
      pending := pending + chunks[i];
      if |pending| >= RecordSize {
        var frame, rest := pending[..RecordSize], pending[RecordSize..];
        assert Flatten(frames + [frame]) == Flatten(frames) + frame by {
          FlattenAppend(frames, [frame]);
        }
        assert pending == frame + rest;
        frames, pending := frames + [frame], rest;
      }
      i := i + 1;
    }
    assert chunks[i..] == [];
    assert Flatten(frames) + pending == Flatten(chunks);
    FramesUnique(frames, pending);
    dropped := pending;
  }
}
