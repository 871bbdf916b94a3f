/**
 * The loop of `ID3#read_id3v23_frames` as a specification: starting at `pos`, frames
 * are read while `pos - start + 10 < limit`, where `start` is the position at which the
 * loop began and `limit` the size recorded in the tag header. Each frame read is
 * appended and, when its key is one of the common ones, applied to the attributes.
 */
module FrameScan {
  import opened Wrappers
  import opened Unpack
  import opened Records
  import opened Frames
  import opened CommonFields

  /** The loop test; it never holds for a tag size of ten bytes or less. */
  predicate Continues(start: nat, pos: nat, limit: nat)
    ensures start <= pos && Continues(start, pos, limit) ==> FRAME_HEADER_SIZE < limit
  {
    pos - start + FRAME_HEADER_SIZE < limit
  }

  /**
   * The reading half of the loop from `pos` on: the frames it appends, in stream order,
   * and the failure that ends it early, if any. Every appended frame has a nonzero size
   * and is a text frame exactly when its key makes it one.
   */
  function ReadLoop(src: Bytes, start: nat, pos: nat, limit: nat): (r: (seq<Frame>, Option<Error>))
    ensures forall i :: 0 <= i < |r.0| ==> r.0[i].size > 0 && (r.0[i].body.Text? <==> IsTextKey(r.0[i].key))
    ensures !Continues(start, pos, limit) ==> r == ([], None)
    ensures r.1.Some? ==> r.1.value == TruncatedFrame
    decreases |src| - pos, 1
  {
    if !Continues(start, pos, limit) then ([], None)
    else LoopAfter(src, start, pos, limit, ReadFrameAt(src, pos))
  }

  /** The rest of the loop once the frame at `pos` has been read with outcome `step`. */
  function LoopAfter(src: Bytes, start: nat, pos: nat, limit: nat, step: Result<(Option<Frame>, nat), Error>): (r: (seq<Frame>, Option<Error>))
    requires step == ReadFrameAt(src, pos)
    ensures forall i :: 0 <= i < |r.0| ==> r.0[i].size > 0 && (r.0[i].body.Text? <==> IsTextKey(r.0[i].key))
    ensures r.1.Some? ==> r.1.value == TruncatedFrame
    decreases |src| - pos, 0
  {
    ReadFrameAtFacts(src, pos);
    match step
    case Err(e) => ([], Some(e))
    case Ok((None, next)) => ReadLoop(src, start, next, limit)
    case Ok((Some(f), next)) =>
      var tail := ReadLoop(src, start, next, limit);
      assert forall i :: 0 < i < |[f] + tail.0| ==> ([f] + tail.0)[i] == tail.0[i - 1];
      ([f] + tail.0, tail.1)
  }

  /**
   * The whole loop from `pos` on, as one value: the frames appended and the attributes
   * left behind, or the first failure. The loop applies each frame right after reading
   * it, so a failing common frame is met before any read failure that follows it.
   */
  function ScanFrames(src: Bytes, start: nat, pos: nat, limit: nat, fields: Fields): (r: Result<(seq<Frame>, Fields), Error>)
    ensures r.Err? ==> r.error in {TruncatedFrame, UnknownGenre, GenreCodeTooBig}
    ensures r.Ok? ==> forall i :: 0 <= i < |r.value.0| ==> r.value.0[i].size > 0
  {
    var read := ReadLoop(src, start, pos, limit);
    match FoldCommon(fields, read.0)
    case Err(e) => Err(e)
    case Ok(updated) => if read.1.Some? then Err(read.1.value) else Ok((read.0, updated))
  }

  /** The frames `read` already holds, put in front of the result of the rest of the loop. */
  function Prepend(read: seq<Frame>, r: Result<(seq<Frame>, Fields), Error>): Result<(seq<Frame>, Fields), Error> {
    match r
    case Ok((frames, fields)) => Ok((read + frames, fields))
    case Err(e) => Err(e)
  }

  /** The frames as they are, with the attributes a fold of them gives, or the fold's failure. */
  function WithFields(frames: seq<Frame>, r: Result<Fields, Error>): Result<(seq<Frame>, Fields), Error> {
    match r
    case Ok(fields) => Ok((frames, fields))
    case Err(e) => Err(e)
  }

  /** The loop ends at once, changing nothing, when its test fails. */
  lemma ScanStops(src: Bytes, start: nat, pos: nat, limit: nat, fields: Fields)
    requires !Continues(start, pos, limit)
    ensures ScanFrames(src, start, pos, limit, fields) == Ok(([], fields))
  {
  }

  /**
   * One pass of the loop body that reads a frame: the frame is applied, and the loop
   * carries on after it with the attributes it set, or stops with the failure.
   */
  lemma ScanStep(src: Bytes, start: nat, pos: nat, limit: nat, fields: Fields, f: Frame, next: nat)
    requires Continues(start, pos, limit)
    requires ReadFrameAt(src, pos) == Ok((Some(f), next))
    ensures ScanFrames(src, start, pos, limit, fields)
         == match ApplyCommon(fields, f)
            case Err(e) => Err(e)
            case Ok(updated) => Prepend([f], ScanFrames(src, start, next, limit, updated))
  {
    var tail := ReadLoop(src, start, next, limit);
    assert ReadLoop(src, start, pos, limit) == ([f] + tail.0, tail.1);
    assert ([f] + tail.0)[0] == f && ([f] + tail.0)[1..] == tail.0;
  }

  /** A header of size zero is stepped over: nothing is appended and nothing is set. */
  lemma ScanSkipsZeroSize(src: Bytes, start: nat, pos: nat, limit: nat, fields: Fields)
    requires Continues(start, pos, limit)
    requires pos + FRAME_HEADER_SIZE <= |src| && src[pos + 4..pos + 8] == [0, 0, 0, 0]
    ensures ScanFrames(src, start, pos, limit, fields) == ScanFrames(src, start, pos + FRAME_HEADER_SIZE, limit, fields)
  {
    ZeroSizeFrame(src, pos);
    assert ReadLoop(src, start, pos, limit) == LoopAfter(src, start, pos, limit, Ok((None, pos + FRAME_HEADER_SIZE)));
  }

  /** A frame that cannot be read ends the loop with that failure. */
  lemma ScanReadFailure(src: Bytes, start: nat, pos: nat, limit: nat, fields: Fields)
    requires Continues(start, pos, limit) && ReadFrameAt(src, pos).Err?
    ensures ScanFrames(src, start, pos, limit, fields) == Err(ReadFrameAt(src, pos).error)
  {
    assert ReadLoop(src, start, pos, limit) == ([], Some(ReadFrameAt(src, pos).error));
  }

  /** Every frame of the sequence is one a writer can emit. */
  predicate AllWellFormed(frames: seq<Frame>)
    decreases |frames|
  {
    |frames| == 0 || (WellFormedFrame(frames[0]) && AllWellFormed(frames[1..]))
  }

  /** The bytes of a sequence of frames written one after the other. */
  function EncodeFrames(frames: seq<Frame>): (s: Bytes)
    requires AllWellFormed(frames)
    ensures |frames| > 0 ==> |s| > 0
    decreases |frames|
  {
    if |frames| == 0 then [] else EncodeFrame(frames[0]) + EncodeFrames(frames[1..])
  }

  // Bytes that hold a concatenation hold its two parts one after the other.
  lemma SplitRun(src: Bytes, pos: nat, a: Bytes, b: Bytes)
    requires pos + |a| + |b| <= |src| && src[pos..pos + |a| + |b|] == a + b
    ensures src[pos..pos + |a|] == a && src[pos + |a|..pos + |a| + |b|] == b
  {
    var whole := src[pos..pos + |a| + |b|];
    assert whole[..|a|] == a && whole[|a|..] == b;
    SliceOfSlice(src, pos, pos + |a| + |b|, 0, |a|);
    SliceOfSlice(src, pos, pos + |a| + |b|, |a|, |a| + |b|);
  }

  /** The frame reader, started at `pos`, meets `frames` one after the other, each taking its declared size. */
  predicate FramesAt(src: Bytes, pos: nat, frames: seq<Frame>)
    decreases |frames|
  {
    |frames| == 0 ||
      (&& ReadFrameAt(src, pos) == Ok((Some(frames[0]), pos + FRAME_HEADER_SIZE + frames[0].size))
       && FramesAt(src, pos + FRAME_HEADER_SIZE + frames[0].size, frames[1..]))
  }

  /** `frames` lie in `src` one after the other from `pos` on, each as a writer emits it. */
  predicate BytesAt(src: Bytes, pos: nat, frames: seq<Frame>)
    decreases |frames|
  {
    |frames| == 0 ||
      (&& WellFormedFrame(frames[0])
       && pos + FRAME_HEADER_SIZE + frames[0].size <= |src|
       && src[pos..pos + FRAME_HEADER_SIZE + frames[0].size] == EncodeFrame(frames[0])
       && BytesAt(src, pos + FRAME_HEADER_SIZE + frames[0].size, frames[1..]))
  }

  // Frames written out together lie one after the other.
  lemma {:induction false} EncodedBytesAt(src: Bytes, pos: nat, frames: seq<Frame>)
    requires AllWellFormed(frames)
    requires pos + |EncodeFrames(frames)| <= |src| && src[pos..pos + |EncodeFrames(frames)|] == EncodeFrames(frames)
    ensures BytesAt(src, pos, frames) && FramesLength(frames) == |EncodeFrames(frames)|
    decreases |frames|
  {
    if |frames| > 0 {
      var f, others := frames[0], frames[1..];
      SplitRun(src, pos, EncodeFrame(f), EncodeFrames(others));
      EncodedBytesAt(src, pos + FRAME_HEADER_SIZE + f.size, others);
    }
  }

  // Frames lying one after the other are met one after the other.
  lemma {:induction false} BytesFramesAt(src: Bytes, pos: nat, frames: seq<Frame>)
    requires BytesAt(src, pos, frames)
    ensures FramesAt(src, pos, frames)
    decreases |frames|
  {
    if |frames| > 0 {
      var f, others := frames[0], frames[1..];
      var next := pos + FRAME_HEADER_SIZE + f.size;
      BytesAtFirst(src, pos, frames);
      BytesFramesAt(src, next, others);
      FrameRoundTrip(src, pos, f);
      FramesAtStep(src, pos, frames, next);
    }
  }

  // The first of frames lying one after the other, and the rest lying after it.
  lemma BytesAtFirst(src: Bytes, pos: nat, frames: seq<Frame>)
    requires |frames| > 0 && BytesAt(src, pos, frames)
    ensures WellFormedFrame(frames[0]) && pos + FRAME_HEADER_SIZE + frames[0].size <= |src|
    ensures src[pos..pos + FRAME_HEADER_SIZE + frames[0].size] == EncodeFrame(frames[0])
    ensures BytesAt(src, pos + FRAME_HEADER_SIZE + frames[0].size, frames[1..])
  {
  }

  // A frame read at `pos`, followed by the rest read where it ends.
  lemma FramesAtStep(src: Bytes, pos: nat, frames: seq<Frame>, next: nat)
    requires |frames| > 0 && next == pos + FRAME_HEADER_SIZE + frames[0].size
    requires ReadFrameAt(src, pos) == Ok((Some(frames[0]), next)) && FramesAt(src, next, frames[1..])
    ensures FramesAt(src, pos, frames)
  {
  }

  /** The bytes the frames occupy when written one after the other. */
  function FramesLength(frames: seq<Frame>): nat {
    if |frames| == 0 then 0 else FRAME_HEADER_SIZE + frames[0].size + FramesLength(frames[1..])
  }

  /**
   * The tag sizes for which the loop, standing at `pos` in front of `frames`, reads all
   * of them and then stops: the test still holds where the last frame starts, and fails
   * once it has been read. The size a writer records without padding, the frames'
   * length, is one of them whenever the last payload is not empty; the frames' length
   * plus ten is the largest.
   */
  predicate EndsAfter(start: nat, pos: nat, limit: nat, frames: seq<Frame>) {
    && limit <= pos - start + FramesLength(frames) + FRAME_HEADER_SIZE
    && (|frames| > 0 ==> pos - start + FramesLength(frames) - frames[|frames| - 1].size < limit)
  }

  // The last frame takes up its header and its payload at the end of the run.
  lemma {:induction false} FramesLengthLast(frames: seq<Frame>)
    requires |frames| > 0
    ensures FramesLength(frames) >= FRAME_HEADER_SIZE + frames[|frames| - 1].size
    decreases |frames|
  {
    if |frames| > 1 {
      FramesLengthLast(frames[1..]);
    }
  }

  /**
   * Frames lying one after the other, with a tag size for which the loop reads them
   * all, are read back in order and the loop then stops.
   */
  lemma {:induction false} ReadFramesAt(src: Bytes, start: nat, pos: nat, limit: nat, frames: seq<Frame>)
    requires start <= pos && FramesAt(src, pos, frames)
    requires EndsAfter(start, pos, limit, frames)
    ensures ReadLoop(src, start, pos, limit) == (frames, None)
    decreases |frames|
  {
    if |frames| > 0 {
      var f, others := frames[0], frames[1..];
      var next := pos + FRAME_HEADER_SIZE + f.size;
      FramesLengthLast(frames);
      assert Continues(start, pos, limit);
      assert ReadFrameAt(src, pos) == Ok((Some(f), next)) && FramesAt(src, next, others);
      assert next - start + FramesLength(others) == pos - start + FramesLength(frames);
      assert |others| > 0 ==> others[|others| - 1] == frames[|frames| - 1];
      assert EndsAfter(start, next, limit, others);
      ReadFramesAt(src, start, next, limit, others);
      ReadStep(src, start, pos, limit, frames, next);
    }
  }

  // One frame read by the loop, ahead of what the loop reads after it.
  lemma ReadStep(src: Bytes, start: nat, pos: nat, limit: nat, frames: seq<Frame>, next: nat)
    requires Continues(start, pos, limit) && |frames| > 0
    requires ReadFrameAt(src, pos) == Ok((Some(frames[0]), next))
    requires ReadLoop(src, start, next, limit) == (frames[1..], None)
    ensures ReadLoop(src, start, pos, limit) == (frames, None)
  {
    assert [frames[0]] + frames[1..] == frames;
  }

  /** Hence the loop over them returns them all, with the attributes their common frames set. */
  lemma ScanEncoded(src: Bytes, start: nat, pos: nat, limit: nat, frames: seq<Frame>, fields: Fields)
    requires start <= pos && AllWellFormed(frames)
    requires pos + |EncodeFrames(frames)| <= |src| && src[pos..pos + |EncodeFrames(frames)|] == EncodeFrames(frames)
    requires EndsAfter(start, pos, limit, frames)
    ensures ScanFrames(src, start, pos, limit, fields) == WithFields(frames, FoldCommon(fields, frames))
  {
    EncodedBytesAt(src, pos, frames);
    BytesFramesAt(src, pos, frames);
    ReadFramesAt(src, start, pos, limit, frames);
  }

  /** Frames a writer emits are as long as their bytes, and every payload is non-empty. */
  lemma {:induction false} EncodedLength(frames: seq<Frame>)
    requires AllWellFormed(frames)
    ensures FramesLength(frames) == |EncodeFrames(frames)|
    ensures forall i :: 0 <= i < |frames| ==> frames[i].size > 0
    decreases |frames|
  {
    if |frames| > 0 {
      EncodedLength(frames[1..]);
      assert forall i :: 1 <= i < |frames| ==> frames[i] == frames[1..][i - 1];
    }
  }

  /**
   * The sizes a writer records for frames it emits right after the header: their
   * length, without padding, and their length plus ten, both let the loop read them all.
   */
  lemma WriterSizes(start: nat, frames: seq<Frame>)
    requires AllWellFormed(frames)
    ensures EndsAfter(start, start, |EncodeFrames(frames)|, frames)
    ensures EndsAfter(start, start, |EncodeFrames(frames)| + FRAME_HEADER_SIZE, frames)
  {
    EncodedLength(frames);
    if |frames| > 0 {
      FramesLengthLast(frames);
    }
  }

  /**
   * The payload is read whole even when it runs past the tag size: a single frame that
   * overshoots `limit` is returned complete, and the loop then stops.
   */
  lemma ScanReadsPastLimit(f: Frame, rest: Bytes, limit: nat, fields: Fields)
    requires WellFormedFrame(f)
    requires FRAME_HEADER_SIZE < limit <= 2 * FRAME_HEADER_SIZE + f.size
    ensures ScanFrames(EncodeFrame(f) + rest, 0, 0, limit, fields) == WithFields([f], ApplyCommon(fields, f))
  {
    var src := EncodeFrame(f) + rest;
    FrameRoundTrip(src, 0, f);
    ScanStep(src, 0, 0, limit, fields, f, FRAME_HEADER_SIZE + f.size);
    assert [f] + [] == [f];
  }
}
