/** mrViewer's timeline slider: its frame range and displayed range, the EDL placement of
    the current reel's media, and the lookup from a frame to the index of its media. */
module Timeline {
  import opened Wrappers
  import opened Reels

  /** The total duration of the media, summed from the front. */
  function TotalDuration(s: seq<Media>): int
  {
    if s == [] then 0 else TotalDuration(s[..|s| - 1]) + Duration(s[|s| - 1])
  }

  /** The media at index k as `edl(true)` leaves it: placed at the running total of the
      durations before it if it had no position, otherwise where it was. */
  function PlaceAt(s: seq<Media>, k: nat): Media
    requires k < |s|
  {
    if s[k].position == NoPts then s[k].(position := TotalDuration(s[..k])) else s[k]
  }

  function Placed(s: seq<Media>): (r: seq<Media>)
    ensures |r| == |s| && forall k :: 0 <= k < |s| ==> r[k] == PlaceAt(s, k)
  {
    seq(|s|, k requires 0 <= k < |s| => PlaceAt(s, k))
  }

  lemma TotalDurationSnoc(s: seq<Media>, k: nat)
    requires k < |s|
    ensures TotalDuration(s[..k + 1]) == TotalDuration(s[..k]) + Duration(s[k])
  {
    assert s[..k + 1][..k] == s[..k];
  }

  /** A reel of media none of which is placed yet is laid out end to end from frame 0, and
      `edl(true)` leaves placed media alone. */
  lemma PlacedFreshReelIsContiguous(s: seq<Media>)
    requires forall k :: 0 <= k < |s| ==> s[k].position == NoPts
    ensures Contiguous(Placed(s)) && SameClips(s, Placed(s))
    ensures |s| > 0 ==> Placed(s)[0].position == 0
  {
    var r := Placed(s);
    forall k | 1 <= k < |r| ensures r[k].position == End(r[k - 1]) {
      TotalDurationSnoc(s, k - 1);
    }
    if |s| > 0 {
      assert s[..0] == [];
    }
  }

  /** `edl(true)` keeps the media that are already placed where they are. */
  lemma PlacedKeepsPositions(s: seq<Media>, k: nat)
    requires k < |s| && s[k].position != NoPts
    ensures Placed(s)[k] == s[k]
  {
  }

  /** The frame just past media k when the reel is laid out end to end from frame 1. */
  function EndFromOne(s: seq<Media>, k: nat): int
    requires k < |s|
  {
    1 + TotalDuration(s[..k + 1])
  }

  /** The first index r from `from` on whose media ends, counting from frame 1, past f;
      |s| when there is none. */
  function CoveringFrom(s: seq<Media>, f: int, from: nat): (r: nat)
    requires from <= |s|
    ensures from <= r <= |s|
    ensures forall k :: from <= k < r ==> EndFromOne(s, k) <= f
    ensures r < |s| ==> EndFromOne(s, r) > f
    decreases |s| - from
  {
    if from == |s| then |s|
    else if EndFromOne(s, from) > f then from
    else CoveringFrom(s, f, from + 1)
  }

  /** The value of `index(f)` for a slider range [mn, mx] (in either order), as a size_t. */
  function IndexSpec(s: seq<Media>, f: int, mn: int, mx: int): (r: int)
    ensures 0 <= r
  {
    var lo := if mn > mx then mx else mn;
    var hi := if mn > mx then mn else mx;
    if f < lo then 0
    else if f > hi then |s| % UintModulus
    else
      var c := CoveringFrom(s, f, 0);
      if c >= |s| then (|s| - 1) % SizeModulus else c
  }

  /** The index names a media of a non-empty reel; f before the range gives 0 and f after
      it gives the count of media; an empty reel wraps to the largest size_t. */
  lemma IndexSpecCases(s: seq<Media>, f: int, mn: int, mx: int)
    requires |s| < UintModulus
    ensures f < Min(mn, mx) ==> IndexSpec(s, f, mn, mx) == 0
    ensures f > Max(mn, mx) ==> IndexSpec(s, f, mn, mx) == |s|
    ensures Min(mn, mx) <= f <= Max(mn, mx) && |s| > 0 ==> IndexSpec(s, f, mn, mx) < |s|
    ensures Min(mn, mx) <= f <= Max(mn, mx) && |s| == 0 ==> IndexSpec(s, f, mn, mx) == SizeModulus - 1
    ensures IndexSpec(s, f, mn, mx) == IndexSpec(s, f, mx, mn)
  {
  }

  /** On a reel laid out from frame 1 without gaps, the index of a frame inside the reel is
      that of the media whose span holds it. */
  lemma IndexFindsCoveringMedia(s: seq<Media>, f: int, k: nat)
    requires Contiguous(s) && |s| > 0 && s[0].position == 1
    requires forall j :: 0 <= j < |s| ==> Duration(s[j]) > 0
    requires k < |s| && s[k].position <= f < End(s[k])
    ensures CoveringFrom(s, f, 0) == k
  {
    EndsAreRunningTotals(s, k);
    forall j | 0 <= j < k ensures EndFromOne(s, j) <= f {
      EndsAreRunningTotals(s, j);
      StartsGrow(s, j + 1, k);
    }
    assert EndFromOne(s, k) > f;
  }

  lemma {:induction false} EndsAreRunningTotals(s: seq<Media>, k: nat)
    requires Contiguous(s) && |s| > 0 && s[0].position == 1 && k < |s|
    ensures End(s[k]) == 1 + TotalDuration(s[..k + 1])
    decreases k
  {
    TotalDurationSnoc(s, k);
    if k == 0 {
      assert s[..0] == [];
    } else {
      EndsAreRunningTotals(s, k - 1);
    }
  }

  lemma {:induction false} StartsGrow(s: seq<Media>, j: nat, k: nat)
    requires Contiguous(s) && j <= k < |s|
    requires forall i :: 0 <= i < |s| ==> Duration(s[i]) > 0
    ensures s[j].position <= s[k].position
    decreases k - j
  {
    if j < k {
      StartsGrow(s, j + 1, k);
    }
  }

  /** mrv::Timeline: the slider range, the displayed range, the EDL switch, and the frame
      widgets (uiFrame, uiStartFrame, uiEndFrame) it sets. */
  class Timeline {
    var minimum: int
    var maximum: int
    var displayMin: int
    var displayMax: int
    var edl: bool
    var frame: int
    var startFrame: int
    var endFrame: int

    constructor ()
      ensures minimum == 1 && maximum == 50 && displayMin == 1 && displayMax == 50 && !edl
    {
      minimum, maximum := 1, 50;
      displayMin, displayMax := 1, 50;
      edl := false;
      frame, startFrame, endFrame := 1, 1, 50;
    }

    /** `display_minimum(x)`, outside EDL mode. */
    method DisplayMinimum(x: int)
      modifies this
      ensures x >= minimum ==> displayMin == x
      ensures x < minimum ==> displayMin == old(displayMin)
      ensures minimum == old(minimum) && maximum == old(maximum) && displayMax == old(displayMax)
      ensures edl == old(edl) && frame == old(frame)
    {
      if x >= minimum {
        displayMin := x;
      }
    }

    /** `display_maximum(x)`, outside EDL mode. */
    method DisplayMaximum(x: int)
      modifies this
      ensures x <= maximum ==> displayMax == x
      ensures x > maximum ==> displayMax == old(displayMax)
      ensures minimum == old(minimum) && maximum == old(maximum) && displayMin == old(displayMin)
      ensures edl == old(edl) && frame == old(frame)
    {
      if x <= maximum {
        displayMax := x;
      }
    }

    /** `minimum(x)`: the slider bound and the displayed bound. */
    method SetMinimum(x: int)
      modifies this
      ensures minimum == x && displayMin == x
      ensures maximum == old(maximum) && displayMax == old(displayMax) && edl == old(edl)
      ensures frame == old(frame) && startFrame == old(startFrame) && endFrame == old(endFrame)
    {
      minimum := x;
      displayMin := x;
    }

    /** `maximum(x)`: the slider bound and the displayed bound. */
    method SetMaximum(x: int)
      modifies this
      ensures maximum == x && displayMax == x
      ensures minimum == old(minimum) && displayMin == old(displayMin) && edl == old(edl)
      ensures frame == old(frame) && startFrame == old(startFrame) && endFrame == old(endFrame)
    {
      maximum := x;
      displayMax := x;
    }

    /** `edl(x)`. `hasUi` says whether uiMain and the image browser exist; `reel` is the
        browser's current reel. */
    method Edl(x: bool, hasUi: bool, reel: Reel?) returns (ghost total: int)
      modifies this, reel
      ensures edl == x
      ensures !(x && hasUi) ==>
        minimum == old(minimum) && maximum == old(maximum) && frame == old(frame)
        && displayMin == old(displayMin) && displayMax == old(displayMax)
        && startFrame == old(startFrame) && endFrame == old(endFrame)
      ensures !(x && hasUi) && reel != null ==> reel.images == old(reel.images)
      ensures x && hasUi ==> minimum == 1 && displayMin == 1 && startFrame == 1
      ensures x && hasUi && reel == null ==>
        frame == Max(old(frame), 1) && maximum == old(maximum)
        && displayMax == old(displayMax) && endFrame == old(endFrame)
      ensures x && hasUi && reel != null ==>
        total == TotalDuration(old(reel.images))
        && reel.images == Placed(old(reel.images))
        && maximum == total && displayMax == total && endFrame == total
        && frame == (if Max(old(frame), 1) > total then total else Max(old(frame), 1))
      ensures x && hasUi && reel != null && total >= 1 ==> 1 <= frame <= total
    {
      edl := x;
      total := 0;
      if !(x && hasUi) {
        return;
      }
      SetMinimum(1);
      startFrame := 1;
      if frame < 1 {
        frame := 1;
      }
      if reel == null {
        return;
      }
      var s := reel.images;
      var placed := s;
      var t := 0;
      var i := 0;
      while i < |s|
        invariant 0 <= i <= |s| && |placed| == |s|
        invariant t == TotalDuration(s[..i])
        invariant forall k :: 0 <= k < i ==> placed[k] == PlaceAt(s, k)
        invariant forall k :: i <= k < |s| ==> placed[k] == s[k]
        modifies {}
      {
        if placed[i].position == NoPts {
          placed := placed[i := placed[i].(position := t)];
        }
        TotalDurationSnoc(s, i);
        t := t + Duration(s[i]);
        i := i + 1;
      }
      assert s[..i] == s;
      assert placed == Placed(s);
      reel.images := placed;
      total := t;
      SetMaximum(t);
      endFrame := t;
      if frame > t {
        frame := t;
      }
    }

    /** `index(f)` over the current reel; null gives 0. */
    method Index(f: int, reel: Reel?) returns (r: int)
      ensures reel == null ==> r == 0
      ensures reel != null ==> r == IndexSpec(reel.images, f, minimum, maximum)
    {
      if reel == null {
        return 0;
      }
      var s := reel.images;
      var mn, mx := minimum, maximum;
      if mn > mx {
        var tmp := mx;
        mx := mn;
        mn := tmp;
      }
      if f < mn {
        return 0;
      }
      if f > mx {
        return |s| % UintModulus;
      }
      ghost var c := CoveringFrom(s, f, 0);
      var t := 1;
      r := 0;
      var stop := false;
      assert s[..0] == [];
      while r < |s| && !stop
        invariant 0 <= r <= |s|
        invariant !stop ==> t == 1 + TotalDuration(s[..r]) && CoveringFrom(s, f, r) == c
        invariant stop ==> r < |s| && r == c
        decreases |s| - r, if stop then 0 else 1
      {
        TotalDurationSnoc(s, r);
        t := t + Duration(s[r]);
        if t > f {
          stop := true;
        } else {
          r := r + 1;
        }
      }
      if r >= |s| {
        r := (|s| - 1) % SizeModulus;
      }
    }
  }
}
