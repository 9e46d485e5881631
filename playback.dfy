/** The decisions of mrViewer's playback threads: which clock is the master, how many
    threads meet at the barrier, and what happens when playback runs off either end of the
    frame range. */
module Playback {
  import opened Wrappers
  import AviImage

  // ---------------------------------------------------------------- clocks and threads

  datatype SyncType = VideoMaster | AudioMaster | ExternalClock

  /** `get_master_sync_type(img)`. */
  function MasterSyncType(requested: SyncType, hasPicture: bool, hasAudio: bool): (r: SyncType)
    ensures r == VideoMaster ==> requested == VideoMaster && hasPicture
    ensures r == AudioMaster ==> requested != ExternalClock && (requested == AudioMaster ==> hasAudio)
    ensures requested == ExternalClock ==> r == ExternalClock
  {
    match requested
    case VideoMaster => if hasPicture then VideoMaster else AudioMaster
    case AudioMaster => if hasAudio then AudioMaster else ExternalClock
    case ExternalClock => ExternalClock
  }

  /** A requested master is kept exactly when the stream that drives it is there. */
  lemma MasterKeptIffSource(requested: SyncType, hasPicture: bool, hasAudio: bool)
    ensures requested == VideoMaster ==> (MasterSyncType(requested, hasPicture, hasAudio) == VideoMaster <==> hasPicture)
    ensures requested == AudioMaster ==> (MasterSyncType(requested, hasPicture, hasAudio) == AudioMaster <==> hasAudio)
  {
  }

  /** A video master without a picture falls back to the audio clock, whether or not there
      is audio: the fallback is not itself checked. */
  lemma VideoFallbackIsNotRechecked(hasAudio: bool)
    ensures MasterSyncType(VideoMaster, false, hasAudio) == AudioMaster
  {
  }

  function Ord(b: bool): nat { if b then 1 else 0 }

  /** `barrier_thread_count(img)`: the decode thread plus one per valid stream. */
  function BarrierThreadCount(validVideo: bool, validAudio: bool, validSubtitle: bool): (r: nat)
    ensures 1 <= r <= 4
    ensures r == 1 <==> !validVideo && !validAudio && !validSubtitle
    ensures r == 4 <==> validVideo && validAudio && validSubtitle
  {
    var r := 1;
    var r := if validVideo then r + 1 else r;
    var r := if validAudio then r + 1 else r;
    if validSubtitle then r + 1 else r
  }

  /** The count grows by one with each stream that becomes valid. */
  lemma BarrierCountsStreams(validVideo: bool, validAudio: bool, validSubtitle: bool)
    ensures BarrierThreadCount(validVideo, validAudio, validSubtitle) == 1 + Ord(validVideo) + Ord(validAudio) + Ord(validSubtitle)
  {
  }

  // ---------------------------------------------------------------- check_loop

  datatype DecodeStatus = DecodeOK | DecodeLoopEnd | DecodeLoopStart | DecodeError

  /** Where an image sits in an EDL reel: its global start frame and its duration, and the
      reel's mapping from global to local frames. */
  datatype EdlPlace = EdlPlace(location: int, duration: int, toLocal: int -> int)

  /** What `check_loop` reads: the timeline range, the image's frame range and streams, and
      its place in the reel when the reel is an EDL. Frame rates are taken to agree, so the
      rescaling is the identity. */
  datatype Clip = Clip(timelineMin: int, timelineMax: int, firstFrame: int, lastFrame: int,
                       hasVideoOrAudio: bool, edl: Option<EdlPlace>)

  /** The first and last frames that `check_loop` stores in its out-parameters. */
  function LoopBounds(c: Clip): (b: (int, int))
    ensures c.edl.None? && !c.hasVideoOrAudio ==>
      b == (c.timelineMin + c.firstFrame - 1, c.timelineMax + c.firstFrame - 1)
    ensures c.edl.None? ==> b.0 >= c.timelineMin + c.firstFrame - 1 && b.1 <= c.timelineMax + c.firstFrame - 1
    ensures c.edl.None? && c.hasVideoOrAudio ==> b.1 <= c.lastFrame
  {
    var last := c.timelineMax + c.firstFrame - 1;
    var first := c.timelineMin + c.firstFrame - 1;
    match c.edl
    case Some(place) =>
      var s := place.location;
      var e := s + place.duration - 1;
      var last := if e < last then e else last;
      var first := if s > first then s else first;
      (place.toLocal(first), place.toLocal(last))
    case None =>
      if !c.hasVideoOrAudio then (first, last)
      else if last > c.lastFrame then (first, c.lastFrame)
      else if c.firstFrame > first then (c.firstFrame, last)
      else (first, last)
  }

  /** Outside an EDL at most one of the two bounds moves: the last frame is lowered to the
      image's end if it is past it, and only otherwise is the first raised to the image's
      start. */
  lemma AtMostOneBoundMoves(c: Clip)
    requires c.edl.None?
    ensures var first := c.timelineMin + c.firstFrame - 1;
      var last := c.timelineMax + c.firstFrame - 1;
      var b := LoopBounds(c);
      (b.0 == first || b.1 == last)
      && (c.hasVideoOrAudio && last > c.lastFrame ==> b == (first, c.lastFrame))
      && (c.hasVideoOrAudio && last <= c.lastFrame ==> b == (Max(first, c.firstFrame), last))
  {
  }

  /** The classification at the end of `check_loop`. */
  function Classify(frame: int, first: int, last: int): (s: DecodeStatus)
    ensures s == DecodeLoopEnd <==> frame > last
    ensures s == DecodeLoopStart <==> frame <= last && frame < first
    ensures s == DecodeOK <==> first <= frame <= last
  {
    if frame > last then DecodeLoopEnd
    else if frame < first then DecodeLoopStart
    else DecodeOK
  }

  datatype LoopMark = NoMark | LoopAtEnd(frame: int) | LoopAtStart(frame: int)

  /** `check_decode_loop`: the status of `check_loop`, and the frame it tells the image to
      loop at (NoMark: it tells the image nothing). */
  function DecodeLoopOutcome(frame: int, c: Clip): (r: (DecodeStatus, LoopMark))
    ensures r.0 == Classify(frame, LoopBounds(c).0, LoopBounds(c).1)
    ensures r.0 == DecodeLoopEnd <==> r.1 == LoopAtEnd(LoopBounds(c).1 + 1)
    ensures r.0 == DecodeLoopStart <==> r.1 == LoopAtStart(LoopBounds(c).0 - 1)
    ensures r.0 == DecodeOK <==> r.1 == NoMark
  {
    var b := LoopBounds(c);
    var s := Classify(frame, b.0, b.1);
    (s, if s == DecodeLoopEnd then LoopAtEnd(b.1 + 1) else if s == DecodeLoopStart then LoopAtStart(b.0 - 1) else NoMark)
  }

  // ---------------------------------------------------------------- handle_loop

  datatype Looping = NoLoop | Loop | PingPong
  datatype EndStatus = EndIgnore | EndStop | EndNextImage | EndChangeDirection | EndLoop

  /** The state `handle_loop` changes: the frame and step of the caller, and the playback of
      the image and of the view. */
  datatype PlayState = PlayState(frame: int, step: int, image: AviImage.Playback, view: AviImage.Playback)

  /** `handle_loop` outside an EDL, for the bounds `check_loop` gives. */
  function LoopTransition(s: PlayState, end: DecodeStatus, loop: Looping, fg: bool, first: int, last: int): (r: (PlayState, EndStatus))
    ensures end != DecodeLoopEnd && end != DecodeLoopStart ==> r == (s, EndIgnore)
    ensures r.1 != EndStop && r.1 != EndNextImage
    ensures r.1 == EndIgnore ==> r.0.frame == s.frame && r.0.step == s.step
    ensures !fg ==> r.0.view == s.view
  {
    match end
    case DecodeLoopEnd =>
      if loop == Loop then (s.(frame := first), EndLoop)
      else if loop == PingPong then
        (PlayState(last, -1, AviImage.Backwards, if fg then AviImage.Backwards else s.view), EndChangeDirection)
      else (s.(image := AviImage.Stopped, view := if fg then AviImage.Stopped else s.view), EndIgnore)
    case DecodeLoopStart =>
      if loop == Loop then (s.(frame := last), EndLoop)
      else if loop == PingPong then
        (PlayState(first, 1, AviImage.Forwards, if fg then AviImage.Forwards else s.view), EndChangeDirection)
      else (s.(image := AviImage.Stopped, view := if fg then AviImage.Stopped else s.view), EndIgnore)
    case _ => (s, EndIgnore)
  }

  /** Looping or bouncing brings the frame back inside a non-empty range, so the next
      check passes. */
  lemma LoopingReentersRange(s: PlayState, end: DecodeStatus, loop: Looping, fg: bool, first: int, last: int)
    requires first <= last && loop != NoLoop
    requires end == DecodeLoopEnd || end == DecodeLoopStart
    ensures Classify(LoopTransition(s, end, loop, fg, first, last).0.frame, first, last) == DecodeOK
  {
  }

  /** Ping-pong at the end and then at the start restores forward play at the first frame. */
  lemma PingPongRoundTrip(s: PlayState, first: int, last: int)
    ensures var r1 := LoopTransition(s, DecodeLoopEnd, PingPong, true, first, last);
      var r2 := LoopTransition(r1.0, DecodeLoopStart, PingPong, true, first, last);
      r1.0.step == -1 && r1.0.image == AviImage.Backwards
      && r2.0 == PlayState(first, 1, AviImage.Forwards, AviImage.Forwards)
      && r2.1 == EndChangeDirection
  {
  }

  /** Without looping, running off either end stops the image and leaves the frame. */
  lemma NoLoopStops(s: PlayState, end: DecodeStatus, fg: bool, first: int, last: int)
    requires end == DecodeLoopEnd || end == DecodeLoopStart
    ensures var r := LoopTransition(s, end, NoLoop, fg, first, last);
      r.0.image == AviImage.Stopped && r.0.frame == s.frame && r.1 == EndIgnore
      && (fg ==> r.0.view == AviImage.Stopped)
  {
  }

  /** The caller's frame and step, and the playback state of the image and the view. */
  class Player {
    var frame: int
    var step: int
    var image: AviImage.Playback
    var view: AviImage.Playback
    var mark: LoopMark

    constructor (frame: int)
      ensures this.frame == frame && step == 1 && image == AviImage.Forwards && view == AviImage.Forwards && mark == NoMark
    {
      this.frame := frame;
      step := 1;
      image := AviImage.Forwards;
      view := AviImage.Forwards;
      mark := NoMark;
    }

    function State(): PlayState
      reads this
    {
      PlayState(frame, step, image, view)
    }

    /** `check_decode_loop(frame, img, ...)`: records where the image should loop. */
    method CheckDecodeLoop(c: Clip) returns (status: DecodeStatus)
      modifies this
      ensures var r := DecodeLoopOutcome(frame, c);
        status == r.0 && (if r.1 == NoMark then mark == old(mark) else mark == r.1)
      ensures State() == old(State())
    {
      var b := LoopBounds(c);
      status := Classify(frame, b.0, b.1);
      if status == DecodeLoopEnd {
        mark := LoopAtEnd(b.1 + 1);
      } else if status == DecodeLoopStart {
        mark := LoopAtStart(b.0 - 1);
      }
    }

    /** `handle_loop(frame, step, img, fg, uiMain, reel, timeline, end)` for a reel that is
        not an EDL. `present` is false when any of img, timeline, reel or uiMain is null. */
    method HandleLoop(present: bool, end: DecodeStatus, loop: Looping, fg: bool, c: Clip) returns (status: EndStatus)
      requires c.edl.None?
      modifies this
      ensures !present ==> status == EndIgnore && State() == old(State())
      ensures present ==> (State(), status) == LoopTransition(old(State()), end, loop, fg, LoopBounds(c).0, LoopBounds(c).1)
      ensures mark == old(mark)
    {
      if !present {
        return EndIgnore;
      }
      status := EndIgnore;
      var b := LoopBounds(c);
      var first, last := b.0, b.1;
      match end {
        case DecodeLoopEnd =>
          if loop == Loop {
            frame := first;
            status := EndLoop;
          } else if loop == PingPong {
            frame := last;
            step := -1;
            image := AviImage.Backwards;
            if fg {
              view := AviImage.Backwards;
            }
            status := EndChangeDirection;
          } else {
            if fg {
              view := AviImage.Stopped;
            }
            image := AviImage.Stopped;
          }
        case DecodeLoopStart =>
          if loop == Loop {
            frame := last;
            status := EndLoop;
          } else if loop == PingPong {
            frame := first;
            step := 1;
            image := AviImage.Forwards;
            if fg {
              view := AviImage.Forwards;
            }
            status := EndChangeDirection;
          } else {
            image := AviImage.Stopped;
            if fg {
              view := AviImage.Stopped;
            }
          }
        case _ =>
      }
    }
  }
}
