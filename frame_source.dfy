/** `read_frame_at` (app.py:54-73): where the capture is sought for a
    time, and the bounded backward retry over an abstract decoder.

    OpenCV is an abstract collaborator here. A `Video` records what the
    capture reports (opened or not, the frame rate, the frame count) and
    which positions decode, and to which frame. Times and rates are exact
    reals; IEEE-754 rounding is not modelled. */
module FrameSource {
  import opened Wrappers
  import opened Decimal

  /** A decoded image; its pixels play no part in the model. */
  type Frame

  /** What `cv2.VideoCapture` reports for a file, and which positions it
      can decode: `frames` holds exactly the decodable positions. */
  datatype Video = Video(isOpen: bool, reportedFps: real, reportedCount: real,
                         frames: map<int, Frame>)

  /** The rate assumed when the capture reports 0 (app.py:58). */
  const DefaultFps: real := 30.0

  /** How far before the end a time past the end is moved (app.py:62). */
  const EndMargin: real := 0.1

  /** How many earlier positions are tried after a failed read
      (`range(1, 5)` on app.py:67). */
  const Retries: nat := 4

  function MaxReal(a: real, b: real): real { if a >= b then a else b }
  function MaxInt(a: int, b: int): int { if a >= b then a else b }
  function MinInt(a: int, b: int): int { if a <= b then a else b }

  /** `cap.get(CAP_PROP_FPS) or 30`: a reported 0 falls back to 30, and
      the rate used is never 0, so the `if fps` guard on app.py:60 always
      takes its first branch. */
  function Fps(v: Video): (f: real)
    ensures f != 0.0
    ensures v.reportedFps != 0.0 ==> f == v.reportedFps
    ensures v.reportedFps == 0.0 ==> f == DefaultFps
  {
    if v.reportedFps != 0.0 then v.reportedFps else DefaultFps
  }

  /** `int(cap.get(CAP_PROP_FRAME_COUNT))` (app.py:59). */
  function TotalFrames(v: Video): int {
    Trunc(v.reportedCount)
  }

  /** `total_frames / fps` (app.py:60). */
  function Duration(v: Video): real {
    TotalFrames(v) as real / Fps(v)
  }

  /** The time actually sought (app.py:61-62): a time past a positive
      duration moves to a tenth of a second before the end, or to 0 for a
      video shorter than that; any other time is kept. */
  function EffectiveTime(v: Video, t: real): (e: real)
    ensures var d := Duration(v);
            t > d && d > 0.0 ==> 0.0 <= e < d
    ensures var d := Duration(v);
            t > d && d >= EndMargin ==> e == d - EndMargin
    ensures var d := Duration(v);
            t > d && 0.0 < d < EndMargin ==> e == 0.0
    ensures var d := Duration(v);
            !(t > d && d > 0.0) ==> e == t
    ensures Duration(v) > 0.0 ==> e <= Duration(v)
  {
    var d := Duration(v);
    if t > d && d > 0.0 then MaxReal(0.0, d - EndMargin) else t
  }

  /** The position sought first (app.py:63): the truncated product of
      the effective time and the rate, kept within `[0, total - 1]`; it is
      0 when the video reports no frames. */
  function FrameIndex(v: Video, t: real): (idx: int)
    ensures idx >= 0
    ensures TotalFrames(v) >= 1 ==> idx <= TotalFrames(v) - 1
    ensures TotalFrames(v) <= 1 ==> idx == 0
    ensures var s := Trunc(EffectiveTime(v, t) * Fps(v));
            (0 <= s < TotalFrames(v) ==> idx == s) &&
            (s < 0 ==> idx == 0) &&
            (s >= TotalFrames(v) ==> idx == MaxInt(0, TotalFrames(v) - 1))
  {
    MaxInt(0, MinInt(Trunc(EffectiveTime(v, t) * Fps(v)), TotalFrames(v) - 1))
  }

  /** For a video with a positive rate, a time inside it is sought at
      the frame that is showing then: `idx <= t * fps < idx + 1`. */
  lemma SeekInside(v: Video, t: real)
    requires Fps(v) > 0.0 && 0.0 <= t < Duration(v)
    ensures FrameIndex(v, t) as real <= t * Fps(v) < FrameIndex(v, t) as real + 1.0
  {
    var f := Fps(v);
    var n := TotalFrames(v);
    assert t * f < n as real by {
      assert Duration(v) * f == n as real;
      assert t * f < Duration(v) * f;
    }
  }

  /** For a video with a positive rate that lasts at least a tenth of a
      second, a time past the end is sought at the frame showing a tenth
      of a second before the end. */
  lemma SeekPastEnd(v: Video, t: real)
    requires Fps(v) > 0.0 && Duration(v) >= EndMargin && t > Duration(v)
    ensures var e := Duration(v) - EndMargin;
            FrameIndex(v, t) as real <= e * Fps(v) < FrameIndex(v, t) as real + 1.0
  {
    var f := Fps(v);
    var n := TotalFrames(v);
    var e := Duration(v) - EndMargin;
    assert e * f < n as real by {
      assert Duration(v) * f == n as real;
      assert e * f < Duration(v) * f;
    }
  }

  /** A time past the end of a video shorter than a tenth of a second is
      sought at position 0. */
  lemma SeekPastShortEnd(v: Video, t: real)
    requires 0.0 < Duration(v) < EndMargin && t > Duration(v)
    ensures FrameIndex(v, t) == 0
  {
    assert EffectiveTime(v, t) == 0.0;
    assert Trunc(0.0 * Fps(v)) == 0;
  }

  /** A negative time is sought at position 0. */
  lemma SeekNegative(v: Video, t: real)
    requires Fps(v) > 0.0 && t < 0.0
    ensures FrameIndex(v, t) == 0
  {
    var d := Duration(v);
    if t > d && d > 0.0 {
    } else {
      assert t * Fps(v) < 0.0;
    }
  }

  /** At 30 frames per second over 300 frames (10 s), 15 s is past the
      end and is sought at 9.9 s, frame 297; 9.95 s is inside and is
      sought at frame 298: a later time can land on an earlier frame. */
  lemma ExampleClamp(v: Video)
    requires v.reportedFps == 30.0 && v.reportedCount == 300.0
    ensures FrameIndex(v, 15.0) == 297
    ensures FrameIndex(v, 9.95) == 298
    ensures FrameIndex(v, -2.0) == 0
  {
    assert TotalFrames(v) == 300;
    assert Duration(v) == 10.0;
    assert EffectiveTime(v, 15.0) == 9.9;
    assert Trunc(9.9 * 30.0) == 297;
    assert Trunc(9.95 * 30.0) == 298;
  }

  /** A reported rate of 0 is read as 30 frames per second. */
  lemma ExampleZeroFps(v: Video)
    requires v.reportedFps == 0.0 && v.reportedCount == 90.0
    ensures Duration(v) == 3.0
    ensures FrameIndex(v, 1.0) == 30
    ensures FrameIndex(v, 5.0) == 87
  {
    assert TotalFrames(v) == 90;
    assert EffectiveTime(v, 5.0) == 2.9;
    assert Trunc(2.9 * 30.0) == 87;
  }

  /** A video that reports no frames is always sought at position 0. */
  lemma ExampleNoFrames(v: Video, t: real)
    requires -1.0 < v.reportedCount < 1.0
    ensures FrameIndex(v, t) == 0
  {
  }

  /** The first of the positions `idx - k, idx - k - 1, …, idx - Retries`
      that decodes, as its offset from `idx`. */
  function FirstHit(frames: map<int, Frame>, idx: int, k: nat): (r: Option<nat>)
    ensures r.Some? ==> k <= r.value <= Retries && idx - r.value in frames &&
                        forall p :: idx - r.value < p <= idx - k ==> p !in frames
    ensures r.None? ==> forall p :: idx - Retries <= p <= idx - k ==> p !in frames
    decreases Retries + 1 - k
  {
    if k > Retries then None
    else if idx - k in frames then Some(k)
    else FirstHit(frames, idx, k + 1)
  }

  /** The frame at the first of `idx, idx - 1, …, idx - Retries` that
      decodes, or nothing if none of them does. */
  function FrameNear(frames: map<int, Frame>, idx: int): Option<Frame> {
    match FirstHit(frames, idx, 0)
    case Some(k) => Some(frames[idx - k])
    case None => None
  }

  /** The positions `idx, idx - 1, …` read, `n` of them. */
  function Positions(idx: int, n: nat): (ps: seq<int>)
    ensures |ps| == n
    ensures forall j :: 0 <= j < n ==> ps[j] == idx - j
  {
    if n == 0 then [] else Positions(idx, n - 1) + [idx - (n - 1)]
  }

  /** The positions read while looking for `FrameNear`, in order: up to
      and including the first that decodes, all five if none does. */
  function Tried(frames: map<int, Frame>, idx: int): seq<int> {
    match FirstHit(frames, idx, 0)
    case Some(k) => Positions(idx, k + 1)
    case None => Positions(idx, Retries + 1)
  }

  /** What `read_frame_at` returns: nothing if the capture did not open,
      otherwise the frame near the position sought. */
  function ReadSpec(v: Video, t: real): Option<Frame> {
    if !v.isOpen then None else FrameNear(v.frames, FrameIndex(v, t))
  }

  /** The positions `read_frame_at` reads, in order; none if the capture
      did not open. */
  function Attempts(v: Video, t: real): (ps: seq<int>)
    ensures |ps| <= Retries + 1
  {
    if !v.isOpen then [] else Tried(v.frames, FrameIndex(v, t))
  }

  /** `read_frame_at` finds a frame exactly when the capture opened and one
      of the five positions `idx, …, idx - 4` decodes; the frame is the
      one at the first such position, and that position is the last one
      read. */
  lemma ReadSpecFound(v: Video, t: real)
    ensures var idx := FrameIndex(v, t);
            ReadSpec(v, t).Some? <==>
              v.isOpen && exists p :: idx - Retries <= p <= idx && p in v.frames
    ensures var idx := FrameIndex(v, t);
            var ps := Attempts(v, t);
            ReadSpec(v, t).Some? ==>
              ps != [] && ps[|ps| - 1] in v.frames && ReadSpec(v, t).value == v.frames[ps[|ps| - 1]] &&
              forall j :: 0 <= j < |ps| - 1 ==> ps[j] !in v.frames
    ensures ReadSpec(v, t).None? && v.isOpen ==> |Attempts(v, t)| == Retries + 1
  {
    var idx := FrameIndex(v, t);
    if v.isOpen {
      var h := FirstHit(v.frames, idx, 0);
      if h.Some? {
        var ps := Attempts(v, t);
        assert ps == Positions(idx, h.value + 1);
        assert ps[|ps| - 1] == idx - h.value;
        forall j | 0 <= j < |ps| - 1 ensures ps[j] !in v.frames {
          assert ps[j] == idx - j;
        }
      }
    }
  }

  /** When `idx` and `idx - 1` fail and `idx - 2` decodes, three reads
      are made and the frame at `idx - 2` is returned. */
  lemma ExampleRetry(frames: map<int, Frame>, idx: int)
    requires idx !in frames && idx - 1 !in frames && idx - 2 in frames
    ensures FrameNear(frames, idx) == Some(frames[idx - 2])
    ensures Tried(frames, idx) == [idx, idx - 1, idx - 2]
  {
    assert FirstHit(frames, idx, 0).value == 2;
    assert Positions(idx, 3)[..2] == Positions(idx, 2);
  }

  /** A frame six positions back is never reached: five reads fail and
      nothing is returned. */
  lemma ExampleGiveUp(frames: map<int, Frame>, idx: int)
    requires forall p :: idx - Retries <= p <= idx ==> p !in frames
    requires idx - Retries - 1 in frames
    ensures FrameNear(frames, idx).None?
    ensures |Tried(frames, idx)| == 5
  {
  }

  /** The capture as `read_frame_at` drives it: a cursor `pos` over the
      video, and whether it was released. `readLog` records, in order, every
      position a `read` was attempted at. */
  class VideoCapture {
    const video: Video
    var pos: int
    var released: bool
    ghost var readLog: seq<int>

    /** `cv2.VideoCapture(path)`. */
    constructor (v: Video)
      ensures video == v && pos == 0 && !released && readLog == []
    {
      video := v;
      pos := 0;
      released := false;
      readLog := [];
    }

    /** `cap.isOpened()`. */
    method IsOpened() returns (b: bool)
      ensures b == video.isOpen
    {
      b := video.isOpen;
    }

    /** `cap.set(CAP_PROP_POS_FRAMES, i)`. */
    method Seek(i: int)
      modifies this
      ensures pos == i && released == old(released) && readLog == old(readLog)
    {
      pos := i;
    }

    /** `cap.read()`: succeeds exactly when the position decodes, returns
      the frame there and moves past it; a failed read returns no frame
      and leaves the cursor. */
    method Read() returns (ok: bool, frame: Option<Frame>)
      modifies this
      ensures ok <==> old(pos) in video.frames
      ensures ok ==> frame.Some? && frame.value == video.frames[old(pos)] && pos == old(pos) + 1
      ensures !ok ==> frame.None? && pos == old(pos)
      ensures released == old(released) && readLog == old(readLog) + [old(pos)]
    {
      readLog := readLog + [pos];
      if pos in video.frames {
        ok, frame := true, Some(video.frames[pos]);
        pos := pos + 1;
      } else {
        ok, frame := false, None;
      }
    }

    /** `cap.release()`. */
    method Release()
      modifies this
      ensures released && pos == old(pos) && readLog == old(readLog)
    {
      released := true;
    }
  }

  /** The seek, the read and the bounded backward retry of app.py:63-71
      on an open capture. */
  method ReadNear(cap: VideoCapture, idx: int) returns (ok: bool, frame: Option<Frame>)
    requires !cap.released && cap.readLog == []
    modifies cap
    ensures ok <==> frame.Some?
    ensures frame == FrameNear(cap.video.frames, idx)
    ensures cap.readLog == Tried(cap.video.frames, idx) && !cap.released
    ensures ok ==> cap.readLog != [] && cap.pos == cap.readLog[|cap.readLog| - 1] + 1
    ensures !ok ==> cap.pos == idx - Retries
  {
    var frames := cap.video.frames;
    cap.Seek(idx);
    ok, frame := cap.Read();
    ghost var last := idx;
    if !ok {
      var i := 1;
      while i < Retries + 1
        invariant 1 <= i <= Retries + 1
        invariant !ok && frame.None?
        invariant !cap.released && cap.video.frames == frames
        invariant forall p :: idx - i < p <= idx ==> p !in frames
        invariant cap.readLog == Positions(idx, i)
        invariant cap.pos == idx - i + 1
        decreases Retries + 1 - i
      {
        cap.Seek(idx - i);
        last := idx - i;
        ok, frame := cap.Read();
        if ok {
          break;
        }
        i := i + 1;
      }
    }
    if ok {
      assert cap.readLog[|cap.readLog| - 1] == last && cap.pos == last + 1;
      assert FirstHit(frames, idx, 0).value == idx - last;
    } else {
      assert FirstHit(frames, idx, 0).None?;
    }
  }

  /** `read_frame_at(video_path, time_s)` (app.py:54-73). The video is
      opened afresh on every call. `attempts` are the positions read and
      `releasedAfter` whether the capture was released: it is not when it
      did not open (app.py:56-57). */
  method ReadFrameAt(v: Video, t: real) returns (frame: Option<Frame>, ghost attempts: seq<int>,
                                                 ghost releasedAfter: bool)
    ensures frame == ReadSpec(v, t)
    ensures attempts == Attempts(v, t)
    ensures releasedAfter == v.isOpen
  {
    var cap := new VideoCapture(v);
    var isOpen := cap.IsOpened();
    if !isOpen {
      return None, cap.readLog, cap.released;
    }
    var idx := FrameIndex(v, t);
    var ok;
    ok, frame := ReadNear(cap, idx);
    cap.Release();
    return if ok then frame else None, cap.readLog, cap.released;
  }
}
