/** The EDL editor's track of one reel (mrv::media_track): adding media, finding the media
    under a frame, and moving or trimming media while keeping the reel chained. */
module MediaTrack {
  import opened Wrappers
  import opened Reels
  import Timeline

  /** The reel after media m was moved by `shift_media(m, frame)`: m is placed at frame, the
      media after it follow on, and the media before it are pulled up to meet it. */
  function Shifted(s: seq<Media>, m: nat, frame: int): seq<Media>
  {
    var found := IndexOf(s, m);
    var idx := if found.Some? then found.value else 0;
    var s1 := if found.Some? then s[idx := s[idx].(position := frame)] else s;
    var s2 := ChainForward(s1, idx + 1);
    if idx == 0 then s2 else ChainBackward(s2, idx - 1)
  }

  /** The media m with its first frame moved by diff, when that leaves it at least one frame. */
  function Trimmed(x: Media, diff: int): Media
  {
    if x.position + diff < x.position + Duration(x) then x.(first := x.first + diff) else x
  }

  /** The reel after `shift_media_start(m, diff)`. */
  function ShiftedStart(s: seq<Media>, m: nat, diff: int): seq<Media>
  {
    var found := IndexOf(s, m);
    var idx := if found.Some? then found.value else 0;
    var s1 := if found.Some? then s[idx := Trimmed(s[idx], diff)] else s;
    var s2 := ChainForward(s1, idx + 1);
    if idx == 0 then s2 else ChainBackward(s2, idx - 1)
  }

  /** The last frame m may be trimmed to: after its first frame and not past its end frame. */
  predicate EndTrimOk(x: Media, diff: int)
  {
    x.first < x.last + diff <= x.endFrame
  }

  /** The first index holding m whose end may be trimmed by diff. */
  function TrimmableIndex(s: seq<Media>, m: nat, diff: int): (r: Option<nat>)
    ensures r.Some? ==> r.value < |s| && s[r.value].id == m && EndTrimOk(s[r.value], diff)
    ensures r.Some? ==> forall k :: 0 <= k < r.value ==> !(s[k].id == m && EndTrimOk(s[k], diff))
    ensures r.None? ==> forall k :: 0 <= k < |s| ==> !(s[k].id == m && EndTrimOk(s[k], diff))
  {
    if s == [] then None
    else if s[0].id == m && EndTrimOk(s[0], diff) then Some(0)
    else match TrimmableIndex(s[1..], m, diff)
      case None => None
      case Some(k) => Some(k + 1)
  }

  /** The reel after `shift_media_end(m, diff)`. */
  function ShiftedEnd(s: seq<Media>, m: nat, diff: int): seq<Media>
  {
    match TrimmableIndex(s, m, diff)
    case None => s
    case Some(i) => ChainForward(s[i := s[i].(last := s[i].last + diff)], i + 1)
  }

  /** The reel after `refresh()`: laid out end to end from frame 1. */
  function Refreshed(s: seq<Media>): seq<Media>
  {
    if s == [] then s else ChainForward(s[0 := s[0].(position := 1)], 1)
  }

  /** Moving a media leaves the reel contiguous with the media at the requested frame, and
      changes no media's frames. */
  lemma ShiftedIsContiguous(s: seq<Media>, m: nat, frame: int)
    ensures SameClips(s, Shifted(s, m, frame)) && Contiguous(Shifted(s, m, frame))
    ensures IndexOf(s, m).Some? ==> Shifted(s, m, frame)[IndexOf(s, m).value].position == frame
    ensures IndexOf(s, m) == Some(0) || |s| == 0 ==> forall k :: 0 <= k < |s| ==> Shifted(s, m, frame)[k].position == ChainForward(s[0 := s[0].(position := frame)], 1)[k].position
  {
    var found := IndexOf(s, m);
    var idx := if found.Some? then found.value else 0;
    var s1 := if found.Some? then s[idx := s[idx].(position := frame)] else s;
    ChainForwardProperties(s1, idx + 1);
    var s2 := ChainForward(s1, idx + 1);
    if idx > 0 {
      ChainBackwardProperties(s2, idx - 1);
    }
  }

  /** Trimming the start changes the media's first frame exactly when the trim leaves it a
      frame, and the reel is contiguous again in every case. */
  lemma ShiftedStartIsContiguous(s: seq<Media>, m: nat, diff: int)
    ensures Contiguous(ShiftedStart(s, m, diff)) && |ShiftedStart(s, m, diff)| == |s|
    ensures IndexOf(s, m).Some? ==> var i := IndexOf(s, m).value;
      ShiftedStart(s, m, diff)[i].first == (if diff < Duration(s[i]) then s[i].first + diff else s[i].first)
      && ShiftedStart(s, m, diff)[i].last == s[i].last
      && ShiftedStart(s, m, diff)[i].id == s[i].id && ShiftedStart(s, m, diff)[i].endFrame == s[i].endFrame
      && forall k :: 0 <= k < |s| && k != i ==> Clip(ShiftedStart(s, m, diff)[k]) == Clip(s[k])
    ensures IndexOf(s, m).None? ==> SameClips(s, ShiftedStart(s, m, diff))
  {
    var found := IndexOf(s, m);
    var idx := if found.Some? then found.value else 0;
    var s1 := if found.Some? then s[idx := Trimmed(s[idx], diff)] else s;
    ChainForwardProperties(s1, idx + 1);
    var s2 := ChainForward(s1, idx + 1);
    if idx > 0 {
      ChainBackwardProperties(s2, idx - 1);
    }
  }

  /** Trimming the end changes a last frame only when the new one lies in (first, end]; only
      then are the media after it re-chained, and the media before it never move. */
  lemma ShiftedEndProperties(s: seq<Media>, m: nat, diff: int)
    ensures TrimmableIndex(s, m, diff).None? ==> ShiftedEnd(s, m, diff) == s
    ensures TrimmableIndex(s, m, diff).Some? ==> var i := TrimmableIndex(s, m, diff).value;
      var r := ShiftedEnd(s, m, diff);
      |r| == |s| && r[i].last == s[i].last + diff && r[i].first == s[i].first
      && (forall k :: 0 <= k < i ==> r[k] == s[k])
      && ChainedFrom(r, i + 1)
  {
    var t := TrimmableIndex(s, m, diff);
    if t.Some? {
      var i := t.value;
      ChainForwardProperties(s[i := s[i].(last := s[i].last + diff)], i + 1);
    }
  }

  /** After `refresh()` the reel starts at frame 1, has no gaps, and ends one past its total
      duration. */
  lemma RefreshedLayout(s: seq<Media>)
    ensures SameClips(s, Refreshed(s)) && Contiguous(Refreshed(s))
    ensures |s| > 0 ==>
      Refreshed(s)[0].position == 1 && End(Refreshed(s)[|s| - 1]) == 1 + Timeline.TotalDuration(s)
  {
    if |s| > 0 {
      var s1 := s[0 := s[0].(position := 1)];
      ChainForwardProperties(s1, 1);
      var r := Refreshed(s);
      Timeline.EndsAreRunningTotals(r, |s| - 1);
      assert r[..|s|] == r;
      SameClipsSameTotal(r, s);
    }
  }

  lemma {:induction false} SameClipsSameTotal(a: seq<Media>, b: seq<Media>)
    requires SameClips(a, b)
    ensures Timeline.TotalDuration(a) == Timeline.TotalDuration(b)
    decreases |a|
  {
    if |a| > 0 {
      assert Duration(a[|a| - 1]) == Duration(Clip(a[|a| - 1]));
      assert Duration(b[|b| - 1]) == Duration(Clip(b[|b| - 1]));
      SameClipsSameTotal(a[..|a| - 1], b[..|b| - 1]);
    }
  }

  /** The media whose span [position, position + duration) holds f. */
  predicate Covers(x: Media, f: int) { x.position <= f < End(x) }

  /** mrv::media_track over its reel (null when the browser has none) and the EDL
      window's timeline. */
  class Track {
    const reel: Reel?
    const timeline: Timeline.Timeline

    constructor (reel: Reel?, timeline: Timeline.Timeline)
      ensures this.reel == reel && this.timeline == timeline
    {
      this.reel := reel;
      this.timeline := timeline;
    }

    /** `add(m, frame)`, called once the browser has appended m to the reel; frame NoPts
        asks for the end of the reel. */
    method Add(m: nat, frame: int)
      requires reel != null ==> |reel.images| > 0
      modifies reel, timeline
      ensures reel == null ==> unchanged(timeline)
      ensures reel != null ==>
        var s := old(reel.images);
        var at := if frame != NoPts then frame else if |s| < 2 then 1 else End(s[|s| - 2]);
        reel.images == (match IndexOf(s, m) case Some(i) => s[i := s[i].(position := at)] case None => s)
        && timeline.maximum == at + Duration(s[|s| - 1])
        && timeline.displayMax == at + Duration(s[|s| - 1])
      ensures reel != null ==>
        timeline.minimum == old(timeline.minimum) && timeline.displayMin == old(timeline.displayMin)
        && timeline.edl == old(timeline.edl) && timeline.frame == old(timeline.frame)
        && timeline.startFrame == old(timeline.startFrame) && timeline.endFrame == old(timeline.endFrame)
    {
      if reel == null {
        return;
      }
      var s := reel.images;
      var at := frame;
      if at == NoPts {
        var e := |s|;
        if e < 2 {
          at := 1;
        } else {
          var o := s[e - 2];
          at := o.position;
          at := at + Duration(o);
        }
      }
      match IndexOf(s, m) {
        case Some(i) => reel.images := s[i := s[i].(position := at)];
        case None =>
      }
      var o := s[|s| - 1];
      timeline.SetMaximum(at + Duration(o));
    }

    /** `media_at(frame)`: the first media whose span holds the frame, or none. */
    method MediaAt(f: int) returns (r: Option<Media>)
      ensures reel == null ==> r == None
      ensures reel != null && r.None? ==> forall k :: 0 <= k < |reel.images| ==> !Covers(reel.images[k], f)
      ensures reel != null && r.Some? ==>
        exists k :: 0 <= k < |reel.images| && r.value == reel.images[k] && Covers(reel.images[k], f)
          && forall j :: 0 <= j < k ==> !Covers(reel.images[j], f)
    {
      if reel == null {
        return None;
      }
      var s := reel.images;
      var i := 0;
      while i < |s|
        invariant 0 <= i <= |s|
        invariant forall j :: 0 <= j < i ==> !Covers(s[j], f)
      {
        var start := s[i].position;
        var end := s[i].position;
        end := end + Duration(s[i]);
        if f >= start && f < end {
          return Some(s[i]);
        }
        i := i + 1;
      }
      return None;
    }

    /** The re-chaining loop after a media: each later one starts where its predecessor ends. */
    static method ChainAfter(s: seq<Media>, idx: nat) returns (r: seq<Media>)
      ensures r == ChainForward(s, idx + 1)
    {
      r := s;
      var i := idx + 1;
      while i < |r|
        invariant |r| == |s| && i >= idx + 1
        invariant ChainForward(r, i) == ChainForward(s, idx + 1)
        decreases |r| - i
      {
        var end := r[i - 1].position + Duration(r[i - 1]);
        r := r[i := r[i].(position := end)];
        i := i + 1;
      }
    }

    /** The re-chaining loop before a media: each earlier one ends where its successor
        starts. */
    static method ChainBefore(s: seq<Media>, idx: nat) returns (r: seq<Media>)
      requires 0 < idx < |s|
      ensures r == ChainBackward(s, idx - 1)
    {
      r := s;
      var i: int := idx - 1;
      while i >= 0
        invariant -1 <= i < |s| - 1 && |r| == |s|
        invariant ChainBackward(r, i) == ChainBackward(s, idx - 1)
        decreases i + 1
      {
        var start := r[i + 1].position;
        var ee := r[i].position + Duration(r[i]);
        var ss := r[i].position;
        r := r[i := r[i].(position := start - (ee - ss))];
        i := i - 1;
      }
    }

    /** `shift_media(m, frame)`. */
    method ShiftMedia(m: nat, frame: int)
      modifies reel
      ensures reel != null ==> reel.images == Shifted(old(reel.images), m, frame)
    {
      if reel == null {
        return;
      }
      var s := reel.images;
      var idx := 0;
      var i := 0;
      var stop := false;
      while i < |s| && !stop
        invariant 0 <= i <= |s|
        invariant forall k :: 0 <= k < i ==> s[k].id != m
        invariant stop ==> i < |s| && IndexOf(s, m) == Some(i) && idx == i
        invariant !stop ==> idx == 0
        decreases |s| - i, if stop then 0 else 1
      {
        if s[i].id == m {
          idx := i;
          stop := true;
        } else {
          i := i + 1;
        }
      }
      var s1 := s;
      if stop {
        s1 := s[idx := s[idx].(position := frame)];
      }
      var s2 := ChainAfter(s1, idx);
      if idx == 0 {
        reel.images := s2;
        return;
      }
      reel.images := ChainBefore(s2, idx);
    }

    /** `shift_media_start(m, diff)`. */
    method ShiftMediaStart(m: nat, diff: int)
      modifies reel
      ensures reel != null ==> reel.images == ShiftedStart(old(reel.images), m, diff)
    {
      if reel == null {
        return;
      }
      var s := reel.images;
      var idx := 0;
      var i := 0;
      var stop := false;
      while i < |s| && !stop
        invariant 0 <= i <= |s|
        invariant forall k :: 0 <= k < i ==> s[k].id != m
        invariant stop ==> i < |s| && IndexOf(s, m) == Some(i) && idx == i
        invariant !stop ==> idx == 0
        decreases |s| - i, if stop then 0 else 1
      {
        if s[i].id == m {
          idx := i;
          stop := true;
        } else {
          i := i + 1;
        }
      }
      var s1 := s;
      if stop {
        var newpos := s[idx].position + diff;
        if newpos < s[idx].position + Duration(s[idx]) {
          s1 := s[idx := s[idx].(first := s[idx].first + diff)];
        }
        assert s1 == s[idx := Trimmed(s[idx], diff)];
      }
      var s2 := ChainAfter(s1, idx);
      if idx == 0 {
        reel.images := s2;
        return;
      }
      reel.images := ChainBefore(s2, idx);
    }

    /** `shift_media_end(m, diff)`. An empty reel makes the source read past the vector, so
        the reel must hold a media. */
    method ShiftMediaEnd(m: nat, diff: int)
      requires reel != null ==> |reel.images| > 0
      modifies reel
      ensures reel != null ==> reel.images == ShiftedEnd(old(reel.images), m, diff)
    {
      if reel == null {
        return;
      }
      var s := reel.images;
      var e := |s|;
      var i := 0;
      var stop := false;
      while i < e && !stop
        invariant 0 <= i <= e
        invariant forall k :: 0 <= k < i ==> !(s[k].id == m && EndTrimOk(s[k], diff))
        invariant stop ==> i < e && TrimmableIndex(s, m, diff) == Some(i)
        decreases e - i, if stop then 0 else 1
      {
        if s[i].id == m {
          var pos := s[i].last + diff;
          if pos > s[i].first && pos <= s[i].endFrame {
            stop := true;
          }
        }
        if !stop {
          i := i + 1;
        }
      }
      if stop {
        s := s[i := s[i].(last := s[i].last + diff)];
        s := ChainAfter(s, i);
      }
      reel.images := s;
    }

    /** `refresh()`. */
    method Refresh()
      modifies reel
      ensures reel != null ==> reel.images == Refreshed(old(reel.images))
    {
      if reel == null {
        return;
      }
      var s := reel.images;
      if |s| == 0 {
        return;
      }
      var r := s[0 := s[0].(position := 1)];
      r := ChainAfter(r, 0);
      reel.images := r;
    }

    /** `minimum()`: the position of the first media, NoPts without one. */
    method Minimum() returns (r: int)
      ensures reel == null || |reel.images| == 0 ==> r == NoPts
      ensures reel != null && |reel.images| > 0 ==> r == reel.images[0].position
    {
      if reel == null || |reel.images| == 0 {
        return NoPts;
      }
      return reel.images[0].position;
    }

    /** `maximum()`: where the last media ends. The source indexes the vector without a
        check, so a non-null reel must hold a media. */
    method Maximum() returns (r: int)
      requires reel != null ==> |reel.images| > 0
      ensures reel == null ==> r == NoPts
      ensures reel != null ==> r == End(reel.images[|reel.images| - 1])
    {
      if reel == null {
        return NoPts;
      }
      var e := |reel.images| - 1;
      return reel.images[e].position + Duration(reel.images[e]);
    }
  }
}
