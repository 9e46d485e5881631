/** mrViewer's reels: the ordered media of a reel, each placed on the EDL timeline at a
    position, and the rules that chain them end to start. */
module Reels {
  import opened Wrappers

  /** MRV_NOPTS_VALUE, the position of a media not yet placed (ffmpeg's AV_NOPTS_VALUE). */
  const NoPts: int := Int64Min

  /** A media of a reel: the identity of its shared object, its position on the timeline,
      and its image's first, last and end frames. */
  datatype Media = Media(id: nat, position: int, first: int, last: int, endFrame: int)

  /** CMedia::duration(): the frames from the first to the last, both included. */
  function Duration(m: Media): int { m.last - m.first + 1 }

  /** The timeline frame just past the media. */
  function End(m: Media): int { m.position + Duration(m) }

  /** The media with its position forgotten. */
  function Clip(m: Media): Media { m.(position := 0) }

  /** Each media from index i on starts where the one before it ends. */
  predicate ChainedFrom(s: seq<Media>, i: nat)
  {
    forall k :: i <= k < |s| && k >= 1 ==> s[k].position == End(s[k - 1])
  }

  /** The reel has no gaps and no overlaps. */
  predicate Contiguous(s: seq<Media>) { ChainedFrom(s, 1) }

  /** The two reels hold the same media in the same order, wherever they are placed. */
  predicate SameClips(a: seq<Media>, b: seq<Media>)
  {
    |a| == |b| && forall k :: 0 <= k < |a| ==> Clip(a[k]) == Clip(b[k])
  }

  /** Re-chaining forward from index i: each media is moved to where its predecessor ends. */
  function ChainForward(s: seq<Media>, i: nat): (r: seq<Media>)
    requires i >= 1
    ensures |r| == |s|
    decreases |s| - i
  {
    if i >= |s| then s else ChainForward(s[i := s[i].(position := End(s[i - 1]))], i + 1)
  }

  lemma {:induction false} ChainForwardProperties(s: seq<Media>, i: nat)
    requires i >= 1
    ensures var r := ChainForward(s, i);
      SameClips(s, r) && (forall k :: 0 <= k < i && k < |s| ==> r[k] == s[k]) && ChainedFrom(r, i)
    decreases |s| - i
  {
    if i < |s| {
      var s' := s[i := s[i].(position := End(s[i - 1]))];
      ChainForwardProperties(s', i + 1);
    }
  }

  /** Re-chaining backward from index i down to 0: each media is moved to end where its
      successor starts. */
  function ChainBackward(s: seq<Media>, i: int): (r: seq<Media>)
    requires -1 <= i < |s| - 1
    ensures |r| == |s|
    decreases i + 1
  {
    if i < 0 then s
    else ChainBackward(s[i := s[i].(position := s[i + 1].position - Duration(s[i]))], i - 1)
  }

  lemma {:induction false} ChainBackwardProperties(s: seq<Media>, i: int)
    requires -1 <= i < |s| - 1
    ensures var r := ChainBackward(s, i);
      SameClips(s, r)
      && (forall k :: i < k < |s| ==> r[k] == s[k])
      && (forall k :: 0 <= k <= i ==> End(r[k]) == r[k + 1].position)
    decreases i + 1
  {
    if i >= 0 {
      var s' := s[i := s[i].(position := s[i + 1].position - Duration(s[i]))];
      ChainBackwardProperties(s', i - 1);
    }
  }

  /** The first index holding the media object with this identity. */
  function IndexOf(s: seq<Media>, id: nat): (r: Option<nat>)
    ensures r.Some? ==> r.value < |s| && s[r.value].id == id && forall k :: 0 <= k < r.value ==> s[k].id != id
    ensures r.None? ==> forall k :: 0 <= k < |s| ==> s[k].id != id
  {
    if s == [] then None
    else if s[0].id == id then Some(0)
    else match IndexOf(s[1..], id)
      case None => None
      case Some(k) => Some(k + 1)
  }

  /** mrv::Reel: its media, in order, and whether it plays as an EDL. */
  class Reel {
    var images: seq<Media>
    var edl: bool

    constructor (images: seq<Media>, edl: bool)
      ensures this.images == images && this.edl == edl
    {
      this.images := images;
      this.edl := edl;
    }
  }
}
