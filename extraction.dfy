/** The extraction loop of the `process` handler (app.py:142-151): for
    each parsed time, in order, read a frame; skip the time when there is
    none; otherwise name the image after the time in whole milliseconds,
    save it and append its path to `saved_images`. Also the two input
    checks in front of it (app.py:113-119, app.py:133-140). */
module Extraction {
  import opened Wrappers
  import opened Decimal
  import opened Text
  import opened TimeParse
  import opened Batch
  import opened FrameSource

  const NamePrefix: string := "frame_"
  const NameSuffix: string := "ms.jpg"

  /** `int(t * 1000)`: whole milliseconds, truncated toward zero. */
  function Ms(t: real): int {
    Trunc(t * 1000.0)
  }

  /** `frames_dir / f"frame_{int(t*1000)}ms.jpg"` (app.py:149): every
      image goes to the same directory, so a path is fixed by its whole
      milliseconds; `FileName` spells it out. */
  datatype ImagePath = ImagePath(ms: int)

  /** The path the image for time `t` is saved under. */
  function PathOf(t: real): ImagePath {
    ImagePath(Ms(t))
  }

  /** `f"frame_{int(t*1000)}ms.jpg"` (app.py:149). */
  function FileName(t: real): string {
    NamePrefix + IntToString(Ms(t)) + NameSuffix
  }

  /** Reads the millisecond value back out of a file name. */
  function MsOfName(name: string): Option<int> {
    if |name| >= |NamePrefix| + |NameSuffix| &&
       name[..|NamePrefix|] == NamePrefix && name[|name| - |NameSuffix|..] == NameSuffix
    then ParseInt(name[|NamePrefix|..|name| - |NameSuffix|])
    else None
  }

  /** The name of a time gives its millisecond value back. */
  lemma NameRoundTrip(t: real)
    ensures MsOfName(FileName(t)).Some? && MsOfName(FileName(t)).value == Ms(t)
  {
    var digits := IntToString(Ms(t));
    IntToStringRoundTrip(Ms(t));
    var name := FileName(t);
    assert name == NamePrefix + digits + NameSuffix;
    assert name[..|NamePrefix|] == NamePrefix;
    assert name[|name| - |NameSuffix|..] == NameSuffix;
    assert name[|NamePrefix|..|name| - |NameSuffix|] == digits;
  }

  /** Two times share a file name exactly when they agree in whole
      milliseconds, that is, exactly when they share a path. */
  lemma SameNameIff(t1: real, t2: real)
    ensures FileName(t1) == FileName(t2) <==> Ms(t1) == Ms(t2)
    ensures FileName(t1) == FileName(t2) <==> PathOf(t1) == PathOf(t2)
  {
    NameRoundTrip(t1);
    NameRoundTrip(t2);
  }

  /** Non-negative times within the same millisecond share a name. */
  lemma SameMillisecond(t1: real, t2: real, n: nat)
    requires n as real <= t1 * 1000.0 < n as real + 1.0
    requires n as real <= t2 * 1000.0 < n as real + 1.0
    ensures FileName(t1) == FileName(t2)
  {
    TruncUnique(t1 * 1000.0, n);
    TruncUnique(t2 * 1000.0, n);
    SameNameIff(t1, t2);
  }

  /** A non-negative real in `[n, n + 1)` truncates to `n`. */
  lemma TruncUnique(x: real, n: nat)
    requires n as real <= x < n as real + 1.0
    ensures Trunc(x) == n
  {
    assert x.Floor == n;
  }

  /** 1.5 s is saved as `frame_1500ms.jpg`. */
  lemma ExampleName()
    ensures FileName(1.5) == "frame_1500ms.jpg"
  {
    assert Ms(1.5) == 1500;
    assert IntToString(1500) == "1500";
  }

  /** A negative time keeps its sign: -1.5 s is `frame_-1500ms.jpg`. */
  lemma ExampleNegativeName()
    ensures FileName(-1.5) == "frame_-1500ms.jpg"
  {
    assert Ms(-1.5) == -1500;
    assert IntToString(-1500) == "-1500";
  }

  /** Truncation toward zero: -0.0005 s is `frame_0ms.jpg`. */
  lemma ExampleTruncatedName()
    ensures FileName(-0.0005) == "frame_0ms.jpg"
  {
    assert Ms(-0.0005) == 0;
    assert IntToString(0) == "0";
  }

  /** What `read_frame_at` returns for each time, in order. */
  function Outcomes(v: Video, times: seq<real>): (outs: seq<Option<Frame>>)
    ensures |outs| == |times|
  {
    if times == [] then []
    else Outcomes(v, times[..|times| - 1]) + [ReadSpec(v, times[|times| - 1])]
  }

  /** The times whose read returned a frame, in order: the loop skips
      the others (app.py:143-145). */
  function SavedTimes(times: seq<real>, outs: seq<Option<Frame>>): (kept: seq<real>)
    requires |times| == |outs|
    ensures |kept| <= |times|
  {
    if times == [] then []
    else
      var n := |times| - 1;
      SavedTimes(times[..n], outs[..n]) + (if outs[n].Some? then [times[n]] else [])
  }

  /** The paths of a list of times, in order. */
  function Names(ts: seq<real>): (names: seq<ImagePath>)
    ensures |names| == |ts|
  {
    if ts == [] then [] else Names(ts[..|ts| - 1]) + [PathOf(ts[|ts| - 1])]
  }

  /** `saved_images` after the loop over `times`, whose reads gave
      `outs` (app.py:142-151). */
  function SavedPaths(times: seq<real>, outs: seq<Option<Frame>>): seq<ImagePath>
    requires |times| == |outs|
  {
    Names(SavedTimes(times, outs))
  }

  /** The images on disk after the loop: each saved path holds the frame
      of the last time written to it (app.py:150). */
  function Written(times: seq<real>, outs: seq<Option<Frame>>, files: map<ImagePath, Frame>): map<ImagePath, Frame>
    requires |times| == |outs|
  {
    if times == [] then files
    else
      var n := |times| - 1;
      var before := Written(times[..n], outs[..n], files);
      match outs[n]
      case Some(f) => before[PathOf(times[n]) := f]
      case None => before
  }

  /** The i-th outcome is what `read_frame_at` returns for the i-th time. */
  lemma {:induction false} OutcomesAt(v: Video, times: seq<real>, i: nat)
    requires i < |times|
    ensures Outcomes(v, times)[i] == ReadSpec(v, times[i])
  {
    var n := |times| - 1;
    if i < n {
      OutcomesAt(v, times[..n], i);
      assert times[..n][i] == times[i];
    }
  }

  /** The i-th path is the path of the i-th time. */
  lemma {:induction false} NamesAt(ts: seq<real>, i: nat)
    requires i < |ts|
    ensures Names(ts)[i] == PathOf(ts[i])
  {
    var n := |ts| - 1;
    var init := Names(ts[..n]);
    assert Names(ts) == init + [PathOf(ts[n])];
    if i < n {
      NamesAt(ts[..n], i);
      assert Names(ts)[i] == init[i];
      assert ts[..n][i] == ts[i];
    }
  }

  /** Naming a list piece by piece gives the names of the whole. */
  lemma {:induction false} NamesConcat(a: seq<real>, b: seq<real>)
    ensures Names(a + b) == Names(a) + Names(b)
    decreases |b|
  {
    if b == [] {
      assert a + b == a;
    } else {
      var b' := b[..|b| - 1];
      assert (a + b)[..|a + b| - 1] == a + b';
      assert (a + b)[|a + b| - 1] == b[|b| - 1];
      NamesConcat(a, b');
    }
  }

  /** Running the loop over `a` and then over `b` keeps the times each
      keeps, in order. */
  lemma {:induction false} SavedTimesConcat(a: seq<real>, oa: seq<Option<Frame>>,
                                            b: seq<real>, ob: seq<Option<Frame>>)
    requires |a| == |oa| && |b| == |ob|
    ensures SavedTimes(a + b, oa + ob) == SavedTimes(a, oa) + SavedTimes(b, ob)
    decreases |b|
  {
    if b == [] {
      assert a + b == a;
      assert oa + ob == oa;
    } else {
      var n := |b| - 1;
      assert (a + b)[..|a + b| - 1] == a + b[..n];
      assert (oa + ob)[..|oa + ob| - 1] == oa + ob[..n];
      assert (a + b)[|a + b| - 1] == b[n];
      assert (oa + ob)[|oa + ob| - 1] == ob[n];
      SavedTimesConcat(a, oa, b[..n], ob[..n]);
    }
  }

  /** Every kept time is a time whose read returned a frame, and the k-th
      kept time is no earlier in the list than the k-th time. */
  lemma {:induction false} SavedTimesFrom(times: seq<real>, outs: seq<Option<Frame>>)
    requires |times| == |outs|
    ensures forall k :: 0 <= k < |SavedTimes(times, outs)| ==>
              exists i :: k <= i < |times| && outs[i].Some? && SavedTimes(times, outs)[k] == times[i]
  {
    if times != [] {
      var n := |times| - 1;
      var init, oinit := times[..n], outs[..n];
      SavedTimesFrom(init, oinit);
      var before := SavedTimes(init, oinit);
      var kept := SavedTimes(times, outs);
      assert kept == before + (if outs[n].Some? then [times[n]] else []);
      forall k | 0 <= k < |kept|
        ensures exists i :: k <= i < |times| && outs[i].Some? && kept[k] == times[i]
      {
        if k < |before| {
          var i :| k <= i < |init| && oinit[i].Some? && before[k] == init[i];
          assert times[i] == init[i] && outs[i] == oinit[i] && kept[k] == before[k];
        } else {
          assert kept[k] == times[n] && outs[n].Some?;
        }
      }
    } else {
      assert SavedTimes(times, outs) == [];
    }
  }

  /** Conversely, every time whose read returned a frame is kept. */
  lemma {:induction false} SavedTimesKeeps(times: seq<real>, outs: seq<Option<Frame>>, i: nat)
    requires |times| == |outs| && i < |times| && outs[i].Some?
    ensures times[i] in SavedTimes(times, outs)
  {
    var n := |times| - 1;
    if i < n {
      SavedTimesKeeps(times[..n], outs[..n], i);
    }
  }

  /** When every read returns a frame, every time is kept, in order. */
  lemma {:induction false} SavedTimesAllRead(times: seq<real>, outs: seq<Option<Frame>>)
    requires |times| == |outs|
    requires forall i :: 0 <= i < |outs| ==> outs[i].Some?
    ensures SavedTimes(times, outs) == times
  {
    if times != [] {
      var n := |times| - 1;
      assert forall i :: 0 <= i < n ==> outs[..n][i] == outs[i];
      SavedTimesAllRead(times[..n], outs[..n]);
      assert times[..n] + [times[n]] == times;
    }
  }

  /** When no read returns a frame, `saved_images` stays empty and
      nothing is written. */
  lemma {:induction false} SavedPathsNoneRead(times: seq<real>, outs: seq<Option<Frame>>,
                                              files: map<ImagePath, Frame>)
    requires |times| == |outs|
    requires forall i :: 0 <= i < |outs| ==> outs[i].None?
    ensures SavedTimes(times, outs) == []
    ensures Written(times, outs, files) == files
  {
    if times != [] {
      var n := |times| - 1;
      assert forall i :: 0 <= i < n ==> outs[..n][i] == outs[i];
      SavedPathsNoneRead(times[..n], outs[..n], files);
    }
  }

  /** The images on disk are the earlier ones plus one per saved path. */
  lemma {:induction false} WrittenKeys(times: seq<real>, outs: seq<Option<Frame>>,
                                       files: map<ImagePath, Frame>)
    requires |times| == |outs|
    ensures forall p :: p in Written(times, outs, files) <==> p in files || p in SavedPaths(times, outs)
  {
    if times != [] {
      var n := |times| - 1;
      WrittenKeys(times[..n], outs[..n], files);
      var before := SavedTimes(times[..n], outs[..n]);
      if outs[n].Some? {
        NamesConcat(before, [times[n]]);
        assert [times[n]][..0] == [];
      } else {
        assert before + [] == before;
      }
    }
  }

  /** The image at the path of a time whose read succeeded, and whose path
      no later successful time shares, is that time's frame: the last
      write to a path wins. */
  lemma {:induction false} WrittenLast(times: seq<real>, outs: seq<Option<Frame>>,
                                       files: map<ImagePath, Frame>, i: nat)
    requires |times| == |outs| && i < |times| && outs[i].Some?
    requires forall j :: i < j < |times| && outs[j].Some? ==> PathOf(times[j]) != PathOf(times[i])
    ensures PathOf(times[i]) in Written(times, outs, files)
    ensures Written(times, outs, files)[PathOf(times[i])] == outs[i].value
  {
    var n := |times| - 1;
    if i < n {
      var init, oinit := times[..n], outs[..n];
      forall j | i < j < |init| && oinit[j].Some? ensures PathOf(init[j]) != PathOf(init[i]) {
        assert init[j] == times[j] && oinit[j] == outs[j] && init[i] == times[i];
      }
      WrittenLast(init, oinit, files, i);
      assert init[i] == times[i] && oinit[i] == outs[i];
    }
  }

  /** A path that no successful time maps to keeps what was on disk. */
  lemma {:induction false} WrittenUntouched(times: seq<real>, outs: seq<Option<Frame>>,
                                            files: map<ImagePath, Frame>, p: ImagePath)
    requires |times| == |outs|
    requires forall j :: 0 <= j < |times| && outs[j].Some? ==> PathOf(times[j]) != p
    ensures p in Written(times, outs, files) <==> p in files
    ensures p in files ==> Written(times, outs, files)[p] == files[p]
  {
    if times != [] {
      var n := |times| - 1;
      var init, oinit := times[..n], outs[..n];
      forall j | 0 <= j < |init| && oinit[j].Some? ensures PathOf(init[j]) != p {
        assert init[j] == times[j] && oinit[j] == outs[j];
      }
      WrittenUntouched(init, oinit, files, p);
    }
  }

  /** Two times in the same millisecond whose reads both succeed append the
      same path twice, and the image on disk is the second frame. */
  lemma DuplicateName(t1: real, t2: real, f1: Frame, f2: Frame, files: map<ImagePath, Frame>)
    requires Ms(t1) == Ms(t2)
    ensures var saved := SavedPaths([t1, t2], [Some(f1), Some(f2)]);
            |saved| == 2 && saved[0] == PathOf(t1) && saved[1] == PathOf(t1)
    ensures PathOf(t1) in Written([t1, t2], [Some(f1), Some(f2)], files)
    ensures Written([t1, t2], [Some(f1), Some(f2)], files)[PathOf(t1)] == f2
  {
    SavedTimesAllRead([t1, t2], [Some(f1), Some(f2)]);
    NamesAt([t1, t2], 0);
    NamesAt([t1, t2], 1);
    assert [t1, t2][..1] == [t1];
    assert [Some(f1), Some(f2)][..1] == [Some(f1)];
  }

  /** The loop of app.py:142-151. `saved` is `saved_images`; `files` and
      `filesOut` are the images on disk before and after. The blur score
      computed on app.py:147-148 is discarded and has no part here. */
  method Extract(v: Video, times: seq<real>, files: map<ImagePath, Frame>)
    returns (saved: seq<ImagePath>, filesOut: map<ImagePath, Frame>)
    ensures saved == SavedPaths(times, Outcomes(v, times))
    ensures filesOut == Written(times, Outcomes(v, times), files)
  {
    saved := [];
    filesOut := files;
    var i := 0;
    while i < |times|
      invariant 0 <= i <= |times|
      invariant saved == SavedPaths(times[..i], Outcomes(v, times[..i]))
      invariant filesOut == Written(times[..i], Outcomes(v, times[..i]), files)
    {
      var t := times[i];
      var frame, _, _ := ReadFrameAt(v, t);
      SavedStep(v, times, i, frame);
      WrittenStep(v, times, i, frame, files);
      if frame.Some? {
        var outPath := PathOf(t);
        filesOut := filesOut[outPath := frame.value];
        saved := saved + [outPath];
      }
      i := i + 1;
    }
    assert times[..i] == times;
  }

  /** One more time through the loop: `outs` grows by the read of
      `times[i]`. */
  lemma OutcomesStep(v: Video, times: seq<real>, i: nat, out: Option<Frame>)
    requires i < |times| && out == ReadSpec(v, times[i])
    ensures var outs := Outcomes(v, times[..i + 1]);
            times[..i + 1][..i] == times[..i] && outs[..i] == Outcomes(v, times[..i]) &&
            times[..i + 1][i] == times[i] && outs[i] == out
  {
    assert times[..i + 1][..i] == times[..i];
  }

  /** One more time through the loop appends the name of `times[i]` to
      `saved_images` exactly when its read returned a frame. */
  lemma SavedStep(v: Video, times: seq<real>, i: nat, out: Option<Frame>)
    requires i < |times| && out == ReadSpec(v, times[i])
    ensures SavedPaths(times[..i + 1], Outcomes(v, times[..i + 1])) ==
            SavedPaths(times[..i], Outcomes(v, times[..i])) + (if out.Some? then [PathOf(times[i])] else [])
  {
    OutcomesStep(v, times, i, out);
    var kept := SavedTimes(times[..i], Outcomes(v, times[..i]));
    if out.Some? {
      NamesConcat(kept, [times[i]]);
      assert [times[i]][..0] == [];
    } else {
      assert kept + [] == kept;
    }
  }

  /** One more time through the loop writes the frame read at `times[i]`,
      if any, under its name. */
  lemma WrittenStep(v: Video, times: seq<real>, i: nat, out: Option<Frame>, files: map<ImagePath, Frame>)
    requires i < |times| && out == ReadSpec(v, times[i])
    ensures var before := Written(times[..i], Outcomes(v, times[..i]), files);
            Written(times[..i + 1], Outcomes(v, times[..i + 1]), files) ==
            if out.Some? then before[PathOf(times[i]) := out.value] else before
  {
    OutcomesStep(v, times, i, out);
  }

  /** Why `process` turned the request away before reading any frame. */
  datatype ProcessError =
    | MissingInput                // blank URL or timestamps field (app.py:117-119)
    | InvalidTime(e: TimeError)   // a token `parse_time_str` refused (app.py:138-140)

  /** What the handler does with its two text fields: strip both, refuse
      the request when either is blank, parse the batch of times, and only
      then run the loop. */
  function ProcessSpec(url: string, field: string): (r: Result<seq<real>, ProcessError>)
    ensures r.Ok? <==> !AllSpace(url) && !AllSpace(field) && ParseBatch(Strip(field)).Ok?
    ensures r.Err? && r.error == MissingInput <==> AllSpace(url) || AllSpace(field)
    ensures r.Ok? ==> r.value == ParseBatch(Strip(field)).value
  {
    StripSpec(url);
    StripSpec(field);
    var raw := Strip(field);
    if Strip(url) == [] || raw == [] then Err(MissingInput)
    else match ParseBatch(raw)
      case Err(e) => Err(InvalidTime(e))
      case Ok(times) => Ok(times)
  }

  /** The URL check, the timestamp parsing and the extraction loop of
      `process` (app.py:113-151), for a video already at hand: a refused
      request reads no frame and writes nothing. */
  method Process(url: string, field: string, v: Video, files: map<ImagePath, Frame>)
    returns (r: Result<seq<ImagePath>, ProcessError>, filesOut: map<ImagePath, Frame>)
    ensures ProcessSpec(url, field).Err? ==>
              r.Err? && r.error == ProcessSpec(url, field).error && filesOut == files
    ensures ProcessSpec(url, field).Ok? ==>
              var times := ProcessSpec(url, field).value;
              r.Ok? && r.value == SavedPaths(times, Outcomes(v, times)) &&
              filesOut == Written(times, Outcomes(v, times), files)
  {
    var address := Strip(url);
    var raw := Strip(field);
    if address == [] || raw == [] {
      return Err(MissingInput), files;
    }
    var parsed := ParseBatch(raw);
    if parsed.Err? {
      return Err(InvalidTime(parsed.error)), files;
    }
    var saved;
    saved, filesOut := Extract(v, parsed.value, files);
    r := Ok(saved);
  }
}
