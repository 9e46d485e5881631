/** The parts of mrViewer's ffmpeg-backed movie reader that are plain logic: the magic-byte
    test that claims a file for it, the relative path written into saved reels, and the cache
    of decoded pictures kept sorted by frame. */
module AviImage {
  import opened Wrappers

  // ---------------------------------------------------------------- relativePath

  /** A path as its elements (root elements first), as boost::filesystem iterates it. */
  datatype FsPath = FsPath(rootPath: seq<string>, elems: seq<string>)

  /** The element an iterator designates; the end iterator designates the empty path. */
  function Elem(s: seq<string>, i: nat): string
  {
    if i < |s| then s[i] else ""
  }

  function Dots(n: nat): (r: seq<string>)
    ensures |r| == n && forall k :: 0 <= k < n ==> r[k] == ".."
  {
    if n == 0 then [] else Dots(n - 1) + [".."]
  }

  /** k is where the two element lists diverge. */
  predicate DivergeAt(p: seq<string>, r: seq<string>, k: nat)
  {
    k <= |p| && k <= |r| && p[..k] == r[..k] && (k == |p| || k == |r| || p[k] != r[k])
  }

  /** The length of the common prefix of two element lists. */
  function CommonPrefix(p: seq<string>, r: seq<string>): (k: nat)
    ensures DivergeAt(p, r, k)
  {
    if p == [] || r == [] || p[0] != r[0] then 0
    else
      var k := 1 + CommonPrefix(p[1..], r[1..]);
      assert p[..k] == [p[0]] + p[1..][..k - 1] && r[..k] == [r[0]] + r[1..][..k - 1];
      k
  }

  /** The divergence point is unique. */
  lemma DivergeUnique(p: seq<string>, r: seq<string>, k1: nat, k2: nat)
    requires DivergeAt(p, r, k1) && DivergeAt(p, r, k2)
    ensures k1 == k2
  {
  }

  /** The path of `relativePath(path, relative_to)` on absolute paths, as the list of its
      elements: a ".." for each element of relative_to past the common prefix, then the rest
      of path. */
  function RelativeElements(ps: seq<string>, rs: seq<string>): seq<string>
  {
    var k := CommonPrefix(ps, rs);
    Dots(|rs| - k) + ps[k..]
  }

  /** The first loop of `relativePath`: the iterators advance while they designate equal
      elements and neither is at its end. */
  method Diverge(ps: seq<string>, rs: seq<string>) returns (i: nat)
    ensures i == CommonPrefix(ps, rs)
  {
    i := 0;
    while Elem(ps, i) == Elem(rs, i) && i < |ps| && i < |rs|
      invariant i <= |ps| && i <= |rs| && ps[..i] == rs[..i]
    {
      assert ps[..i + 1] == ps[..i] + [ps[i]] && rs[..i + 1] == rs[..i] + [rs[i]];
      i := i + 1;
    }
    DivergeUnique(ps, rs, i, CommonPrefix(ps, rs));
  }

  /** The second loop: a ".." for each remaining element of relative_to. */
  method UpDots(n: nat) returns (result: seq<string>)
    ensures result == Dots(n)
  {
    result := [];
    var j := 0;
    while j < n
      invariant j <= n && result == Dots(j)
    {
      result := result + [".."];
      j := j + 1;
    }
  }

  /** The third loop: the remaining elements of path, from i on, appended to result. */
  method AppendRest(result0: seq<string>, ps: seq<string>, i: nat) returns (result: seq<string>)
    requires i <= |ps|
    ensures result == result0 + ps[i..]
  {
    result := result0;
    var m := i;
    while m < |ps|
      invariant i <= m <= |ps| && result == result0 + ps[i..m]
    {
      assert ps[i..m + 1] == ps[i..m] + [ps[m]];
      result := result + [ps[m]];
      m := m + 1;
    }
    assert ps[i..m] == ps[i..];
  }

  /** `relativePath(path, relative_to)`. The Windows upper-casing is not part of this model. */
  method RelativePath(p: FsPath, r: FsPath) returns (result: seq<string>)
    ensures p.rootPath != r.rootPath ==> result == p.rootPath + p.elems
    ensures p.rootPath == r.rootPath ==> result == RelativeElements(p.rootPath + p.elems, r.rootPath + r.elems)
  {
    if p.rootPath != r.rootPath {
      return p.rootPath + p.elems;
    }
    var ps := p.rootPath + p.elems;
    var rs := r.rootPath + r.elems;
    var i := Diverge(ps, rs);
    result := UpDots(|rs| - i);
    result := AppendRest(result, ps, i);
  }

  /** Walking a relative path from a directory: ".." goes up one element, anything else down. */
  function Resolve(base: seq<string>, rel: seq<string>): seq<string>
    decreases |rel|
  {
    if rel == [] then base
    else if rel[0] == ".." then Resolve(if base == [] then [] else base[..|base| - 1], rel[1..])
    else Resolve(base + [rel[0]], rel[1..])
  }

  lemma {:induction false} ResolveDots(base: seq<string>, n: nat, rest: seq<string>)
    requires n <= |base|
    ensures Resolve(base, Dots(n) + rest) == Resolve(base[..|base| - n], rest)
    decreases n
  {
    if n > 0 {
      var d := Dots(n - 1);
      assert Dots(n) + rest == [".."] + (d + rest) by {
        assert Dots(n) == [".."] + d by { DotsCons(n); }
      }
      assert ([".."] + (d + rest))[1..] == d + rest;
      ResolveDots(base[..|base| - 1], n - 1, rest);
      assert base[..|base| - 1][..|base| - 1 - (n - 1)] == base[..|base| - n];
    } else {
      assert Dots(0) + rest == rest && base[..|base|] == base;
    }
  }

  lemma {:induction false} DotsCons(n: nat)
    requires n > 0
    ensures Dots(n) == [".."] + Dots(n - 1)
    decreases n
  {
    if n > 1 {
      DotsCons(n - 1);
    }
  }

  lemma {:induction false} ResolvePlain(base: seq<string>, rest: seq<string>)
    requires forall k :: 0 <= k < |rest| ==> rest[k] != ".."
    ensures Resolve(base, rest) == base + rest
    decreases |rest|
  {
    if rest != [] {
      ResolvePlain(base + [rest[0]], rest[1..]);
      assert base + [rest[0]] + rest[1..] == base + rest;
    }
  }

  /** The relative path leads from `relative_to` back to `path`, as long as the path itself
      has no ".." element. */
  lemma RelativePathRoundTrip(ps: seq<string>, rs: seq<string>)
    requires forall m :: 0 <= m < |ps| ==> ps[m] != ".."
    ensures Resolve(rs, RelativeElements(ps, rs)) == ps
  {
    var k := CommonPrefix(ps, rs);
    ResolveDots(rs, |rs| - k, ps[k..]);
    assert rs[..k] == ps[..k];
    ResolvePlain(ps[..k], ps[k..]);
    assert ps[..k] + ps[k..] == ps;
  }

  /** A path relative to itself is empty, and relative to one of its ancestors it is the
      remaining elements. */
  lemma RelativeToAncestor(ps: seq<string>, tail: seq<string>)
    ensures RelativeElements(ps, ps) == []
    ensures RelativeElements(ps + tail, ps) == tail
  {
    DivergeUnique(ps, ps, CommonPrefix(ps, ps), |ps|);
    assert (ps + tail)[..|ps|] == ps;
    DivergeUnique(ps + tail, ps, CommonPrefix(ps + tail, ps), |ps|);
    assert (ps + tail)[|ps|..] == tail;
  }

  // ---------------------------------------------------------------- aviImage::test

  /** `ntohl` of the four bytes at off. */
  function BigEndian32(data: seq<bv8>, off: nat): bv32
    requires off + 4 <= |data|
  {
    (data[off] as bv32 << 24) | (data[off + 1] as bv32 << 16) | (data[off + 2] as bv32 << 8) | (data[off + 3] as bv32)
  }

  function Bytes(s: string): seq<bv8>
    requires forall k :: 0 <= k < |s| ==> s[k] < 256 as char
  {
    seq(|s|, k requires 0 <= k < |s| => s[k] as bv8)
  }

  /** strncmp(data + off, lit, |lit|) == 0 for a literal without NUL: the bytes are equal. */
  predicate BytesAt(data: seq<bv8>, off: nat, lit: seq<bv8>)
  {
    off + |lit| <= |data| && data[off..off + |lit|] == lit
  }

  const FLV: seq<bv8> := [0x46, 0x4C, 0x56]
  const GIF89a: seq<bv8> := [0x47, 0x49, 0x46, 0x38, 0x39, 0x61]
  const GIF87a: seq<bv8> := [0x47, 0x49, 0x46, 0x38, 0x37, 0x61]
  const RMF: seq<bv8> := [0x2E, 0x52, 0x4D, 0x46]
  const OggS: seq<bv8> := [0x4F, 0x67, 0x67, 0x53]
  const RIFF: seq<bv8> := [0x52, 0x49, 0x46, 0x46]
  const AVI_: seq<bv8> := [0x41, 0x56, 0x49, 0x20]
  const WAVE: seq<bv8> := [0x57, 0x41, 0x56, 0x45]
  const CDXA: seq<bv8> := [0x43, 0x44, 0x58, 0x41]
  const ID3: seq<bv8> := [0x49, 0x44, 0x33]
  const RED1: seq<bv8> := [0x52, 0x45, 0x44, 0x31]
  const YUV4MPEG2: seq<bv8> := [0x59, 0x55, 0x56, 0x34, 0x4D, 0x50, 0x45, 0x47, 0x32]
  const QuickTimeAtoms: seq<seq<bv8>> := [
    [0x66, 0x74, 0x79, 0x70],  // ftyp
    [0x6D, 0x6F, 0x6F, 0x76],  // moov
    [0x66, 0x72, 0x65, 0x65],  // free
    [0x6D, 0x64, 0x61, 0x74],  // mdat
    [0x77, 0x69, 0x64, 0x65]]  // wide

  /** The branch of the test that a header of at least 12 bytes falls into. */
  datatype Branch = Mpeg | Matroska | Wmv | Flv | Gif | RealMedia | Ogg | Riff | Mp3 | Red | Mxf | Yuv4Mpeg | QuickTime

  function HeaderBranch(data: seq<bv8>): Branch
    requires |data| >= 12
  {
    var magic := BigEndian32(data, 0);
    if magic == 0x000001ba || magic == 0x00000001 then Mpeg
    else if magic == 0x1a45dfa3 then Matroska
    else if magic == 0x3026B275 then Wmv
    else if BytesAt(data, 0, FLV) then Flv
    else if BytesAt(data, 0, GIF89a) || BytesAt(data, 0, GIF87a) then Gif
    else if BytesAt(data, 0, RMF) then RealMedia
    else if BytesAt(data, 0, OggS) then Ogg
    else if BytesAt(data, 0, RIFF) then Riff
    else if BytesAt(data, 0, ID3) || (magic & 0xFFE00000) == 0xFFE00000 || magic == 0 then Mp3
    else if magic == 0x00000144 then Red
    else if magic == 0x060E2B34 then Mxf
    else if BytesAt(data, 0, YUV4MPEG2) then Yuv4Mpeg
    else QuickTime
  }

  /** The three words of the ASF header GUID that follow its first word. */
  predicate WmvGuidTail(data: seq<bv8>)
    requires |data| >= 16
  {
    BigEndian32(data, 4) == 0x8E66CF11 && BigEndian32(data, 8) == 0xA6D900AA && BigEndian32(data, 12) == 0x0062CE6C
  }

  /** How far into the buffer the WMV branch of the test reads as written: it checks the
      third word, at offset 12, after only 12 bytes were required. */
  function WmvReadExtentAsWritten(data: seq<bv8>): nat
    requires |data| >= 12
  {
    if BigEndian32(data, 0) != 0x3026B275 then 4
    else if BigEndian32(data, 4) != 0x8E66CF11 then 8
    else if BigEndian32(data, 8) != 0xA6D900AA then 12
    else 16
  }

  /** A 12-byte ASF header start passes the length guard, and the test then reads 16 bytes. */
  lemma WmvReadsPastTheBuffer()
    ensures var data: seq<bv8> := [0x30, 0x26, 0xB2, 0x75, 0x8E, 0x66, 0xCF, 0x11, 0xA6, 0xD9, 0x00, 0xAA];
      |data| == 12 && WmvReadExtentAsWritten(data) > |data|
  {
  }

  /** `aviImage::test(data, len)`, with the WMV branch given the 16 bytes it inspects. Each
      branch decides, so the ffmpeg probe after them is never reached. */
  function Test(data: seq<bv8>): (ok: bool)
    ensures |data| < 12 ==> !ok
  {
    if |data| < 12 then false
    else
      var magic := BigEndian32(data, 0);
      match HeaderBranch(data)
      case Mpeg => true
      case Matroska => true
      case Wmv => |data| >= 16 && WmvGuidTail(data)
      case Flv => true
      case Gif => true
      case RealMedia => true
      case Ogg => true
      case Riff => BytesAt(data, 8, AVI_) || BytesAt(data, 8, WAVE) || BytesAt(data, 8, CDXA)
      case Mp3 => !(magic != 0 && ((magic & 0xF000) == 0xF000 || (magic & 0xF000) == 0))
      case Red => BytesAt(data, 4, RED1)
      case Mxf => BigEndian32(data, 4) == 0x02050101 && BigEndian32(data, 8) == 0x0D010201
      case Yuv4Mpeg => true
      case QuickTime => exists k :: 0 <= k < |QuickTimeAtoms| && BytesAt(data, 4, QuickTimeAtoms[k])
  }

  /** A RIFF file is accepted exactly when its form type is "AVI ", "WAVE" or "CDXA". */
  lemma RiffNeedsFormType(data: seq<bv8>)
    requires |data| >= 12 && BytesAt(data, 0, RIFF)
    ensures Test(data) <==> BytesAt(data, 8, AVI_) || BytesAt(data, 8, WAVE) || BytesAt(data, 8, CDXA)
  {
    assert data[..4] == RIFF;
    assert data[0] == 0x52 && data[1] == 0x49 && data[2] == 0x46 && data[3] == 0x46;
    assert BigEndian32(data, 0) == 0x52494646;
    assert !BytesAt(data, 0, FLV) by { assert data[..3] != FLV; }
    assert !BytesAt(data, 0, GIF89a) && !BytesAt(data, 0, GIF87a) by {
      assert data[..6][0] != GIF89a[0] && data[..6][0] != GIF87a[0];
    }
    assert !BytesAt(data, 0, RMF) && !BytesAt(data, 0, OggS);
    assert HeaderBranch(data) == Riff;
  }

  /** An ASF header is accepted exactly when it holds the whole 16-byte GUID. */
  lemma WmvNeedsWholeGuid(data: seq<bv8>)
    requires |data| >= 12 && BigEndian32(data, 0) == 0x3026B275
    ensures Test(data) <==> |data| >= 16 && WmvGuidTail(data)
  {
  }

  /** A header that no earlier branch claims is accepted only for an ftyp, moov, free, mdat
      or wide atom at offset 4. */
  lemma QuickTimeFallback(data: seq<bv8>)
    requires |data| >= 12 && HeaderBranch(data) == QuickTime
    ensures Test(data) <==> exists k :: 0 <= k < 5 && BytesAt(data, 4, QuickTimeAtoms[k])
  {
  }

  /** An MP4 file starting with a 24-byte ftyp atom is claimed. */
  lemma Mp4Accepted(rest: seq<bv8>)
    requires |rest| >= 4
    ensures Test([0, 0, 0, 0x18, 0x66, 0x74, 0x79, 0x70] + rest)
  {
    var data: seq<bv8> := [0, 0, 0, 0x18, 0x66, 0x74, 0x79, 0x70] + rest;
    assert data[0] == 0 && data[1] == 0 && data[2] == 0 && data[3] == 0x18;
    assert BigEndian32(data, 0) == 0x18;
    assert data[..3] != FLV && data[..3] != ID3;
    assert data[..6] != GIF89a && data[..6] != GIF87a;
    assert data[..4] != RMF && data[..4] != OggS && data[..4] != RIFF;
    assert data[..9] != YUV4MPEG2;
    assert HeaderBranch(data) == QuickTime;
    assert data[4..8] == QuickTimeAtoms[0];
  }

  // ---------------------------------------------------------------- the picture cache

  /** A decoded picture: its frame and an opaque handle on its pixels. */
  datatype Picture = Picture(frame: int, pixels: nat)

  predicate StrictlySorted(s: seq<Picture>)
  {
    forall i, j :: 0 <= i < j < |s| ==> s[i].frame < s[j].frame
  }

  predicate HasFrame(s: seq<Picture>, f: int)
  {
    exists i :: 0 <= i < |s| && s[i].frame == f
  }

  /** The cache after storing a picture, as the specification of `store_image`: the picture
      goes before the first one that is not older, replacing one of the same frame. */
  function Stored(s: seq<Picture>, pic: Picture): seq<Picture>
  {
    if s == [] then [pic]
    else if s[0].frame < pic.frame then [s[0]] + Stored(s[1..], pic)
    else if s[0].frame == pic.frame then [pic] + s[1..]
    else [pic] + s
  }

  lemma SortedTail(s: seq<Picture>)
    requires StrictlySorted(s) && s != []
    ensures StrictlySorted(s[1..])
    ensures forall q :: q in s[1..] ==> s[0].frame < q.frame
  {
    forall q | q in s[1..] ensures s[0].frame < q.frame {
      var m :| 0 <= m < |s[1..]| && s[1..][m] == q;
      assert s[m + 1] == q;
    }
  }

  lemma SortedCons(x: Picture, t: seq<Picture>)
    requires StrictlySorted(t) && forall q :: q in t ==> x.frame < q.frame
    ensures StrictlySorted([x] + t)
  {
    forall i, j | 0 <= i < j < |[x] + t| ensures ([x] + t)[i].frame < ([x] + t)[j].frame {
      assert ([x] + t)[j] == t[j - 1];
      if i > 0 { assert ([x] + t)[i] == t[i - 1]; }
    }
  }

  /** Storing puts the new picture at its frame and keeps every other frame's picture. */
  lemma {:induction false} StoredMembers(s: seq<Picture>, pic: Picture)
    requires StrictlySorted(s)
    ensures forall q :: q in Stored(s, pic) <==> q == pic || (q in s && q.frame != pic.frame)
  {
    if s != [] {
      SortedTail(s);
      assert s == [s[0]] + s[1..];
      if s[0].frame < pic.frame {
        StoredMembers(s[1..], pic);
      }
    }
  }

  /** Storing keeps the cache strictly sorted. */
  lemma {:induction false} StoredSorted(s: seq<Picture>, pic: Picture)
    requires StrictlySorted(s)
    ensures StrictlySorted(Stored(s, pic))
  {
    if s != [] {
      SortedTail(s);
      if s[0].frame < pic.frame {
        StoredSorted(s[1..], pic);
        StoredMembers(s[1..], pic);
        SortedCons(s[0], Stored(s[1..], pic));
      } else if s[0].frame == pic.frame {
        SortedCons(pic, s[1..]);
      } else {
        assert s == [s[0]] + s[1..];
        SortedCons(pic, s);
      }
    }
  }

  /** The frames in the cache after storing are the old ones plus the new one. */
  lemma StoredFrames(s: seq<Picture>, pic: Picture, f: int)
    requires StrictlySorted(s)
    ensures HasFrame(Stored(s, pic), f) <==> f == pic.frame || HasFrame(s, f)
  {
    StoredMembers(s, pic);
    var t := Stored(s, pic);
    if HasFrame(t, f) {
      var i :| 0 <= i < |t| && t[i].frame == f;
      assert t[i] in t;
      if t[i] != pic {
        var m :| 0 <= m < |s| && s[m] == t[i];
      }
    }
    if HasFrame(s, f) && f != pic.frame {
      var m :| 0 <= m < |s| && s[m].frame == f;
      assert s[m] in t;
      var i :| 0 <= i < |t| && t[i] == s[m];
    }
    if f == pic.frame {
      var i :| 0 <= i < |t| && t[i] == pic;
    }
  }

  /** Storing two pictures of the same frame leaves only the second. */
  lemma StoreTwiceKeepsLast(s: seq<Picture>, p1: Picture, p2: Picture)
    requires StrictlySorted(s) && p1.frame == p2.frame
    ensures p1 != p2 ==> p1 !in Stored(Stored(s, p1), p2)
    ensures p2 in Stored(Stored(s, p1), p2)
  {
    StoredMembers(s, p1);
    StoredSorted(s, p1);
    StoredMembers(Stored(s, p1), p2);
  }

  lemma {:induction false} StoredIsInsertion(s: seq<Picture>, pic: Picture, k: nat)
    requires StrictlySorted(s) && k <= |s|
    requires forall i :: 0 <= i < k ==> s[i].frame < pic.frame
    requires forall i :: k <= i < |s| ==> s[i].frame >= pic.frame
    ensures Stored(s, pic) ==
      if k < |s| && s[k].frame == pic.frame then s[..k] + [pic] + s[k + 1..] else s[..k] + [pic] + s[k..]
  {
    if k > 0 {
      StoredIsInsertion(s[1..], pic, k - 1);
      assert s[1..][..k - 1] == s[..k][1..];
      assert s[..k] == [s[0]] + s[1..][..k - 1];
      if k < |s| {
        assert s[1..][k - 1] == s[k];
        assert s[1..][k - 1 + 1..] == s[k + 1..] && s[1..][k - 1..] == s[k..];
      } else {
        assert s[1..][k - 1..] == s[k..];
      }
    } else {
      assert s[..0] == [];
      if s != [] { assert s[1..] == s[0 + 1..]; }
    }
  }

  /** std::lower_bound over the cache: the first picture whose frame is not older. */
  method LowerBound(s: seq<Picture>, f: int) returns (k: nat)
    requires StrictlySorted(s)
    ensures k <= |s|
    ensures forall i :: 0 <= i < k ==> s[i].frame < f
    ensures forall i :: k <= i < |s| ==> s[i].frame >= f
  {
    var lo, hi := 0, |s|;
    while lo < hi
      invariant 0 <= lo <= hi <= |s|
      invariant forall i :: 0 <= i < lo ==> s[i].frame < f
      invariant forall i :: hi <= i < |s| ==> s[i].frame >= f
    {
      var mid := lo + (hi - lo) / 2;
      if s[mid].frame < f {
        lo := mid + 1;
      } else {
        hi := mid;
      }
    }
    k := lo;
  }

  datatype Playback = Backwards | Stopped | Forwards

  /** The window that `limit_video_store` keeps around frame, widened to reach `_dts`. */
  function VideoWindow(pb: Playback, frame: int, maxFrames: int, dts: int): (w: (int, int))
    ensures pb == Backwards ==> w == (Min(frame - maxFrames, dts), frame)
    ensures pb != Backwards ==> w == (Min(frame - maxFrames, dts), Max(frame + maxFrames, dts))
  {
    match pb
    case Backwards =>
      var first := frame - maxFrames;
      (if dts < first then dts else first, frame)
    case _ =>
      var first := frame - maxFrames;
      var last := frame + maxFrames;
      (if dts < first then dts else first, if dts > last then dts else last)
  }

  /** The window always holds `_dts` from below, and the current frame whenever at least
      one frame is cached around it; playing forwards or stopped it also holds `_dts` from
      above. */
  lemma WindowHoldsFrameAndDts(pb: Playback, frame: int, maxFrames: int, dts: int)
    requires maxFrames >= 0
    ensures var w := VideoWindow(pb, frame, maxFrames, dts);
      w.0 <= frame <= w.1 && w.0 <= dts && (pb != Backwards ==> dts <= w.1)
  {
  }

  /** NotInRangeFunctor(first, last): a picture outside [first, last]. */
  predicate NotInRange(q: Picture, first: int, last: int) { q.frame < first || q.frame > last }

  /** The pictures kept by `remove_if`, in order. */
  function KeepInRange(s: seq<Picture>, first: int, last: int): seq<Picture>
  {
    if s == [] then []
    else (if NotInRange(s[0], first, last) then [] else [s[0]]) + KeepInRange(s[1..], first, last)
  }

  /** Trimming keeps exactly the pictures inside the window, in order, so the cache stays
      sorted. */
  lemma {:induction false} KeepInRangeProperties(s: seq<Picture>, first: int, last: int)
    ensures forall q :: q in KeepInRange(s, first, last) <==> q in s && first <= q.frame <= last
    ensures StrictlySorted(s) ==> StrictlySorted(KeepInRange(s, first, last))
  {
    if s != [] {
      KeepInRangeProperties(s[1..], first, last);
      assert s == [s[0]] + s[1..];
      if StrictlySorted(s) {
        SortedTail(s);
        if !NotInRange(s[0], first, last) {
          SortedCons(s[0], KeepInRange(s[1..], first, last));
        }
      }
    }
  }

  /** std::remove_if(NotInRangeFunctor(first, last)) followed by the erase. */
  method RemoveNotInRange(s: seq<Picture>, first: int, last: int) returns (kept: seq<Picture>)
    ensures kept == KeepInRange(s, first, last)
  {
    kept := [];
    var i := 0;
    while i < |s|
      invariant 0 <= i <= |s|
      invariant KeepInRange(s, first, last) == kept + KeepInRange(s[i..], first, last)
    {
      assert s[i..] == [s[i]] + s[i + 1..];
      if !NotInRange(s[i], first, last) {
        kept := kept + [s[i]];
      }
      i := i + 1;
    }
    assert s[i..] == [];
  }

  /** The video side of aviImage: the picture cache and the selected stream. */
  class VideoCache {
    /** `_images` */
    var images: seq<Picture>
    /** `_video_index` */
    var videoIndex: int
    /** `_num_channels` */
    var numChannels: nat
    /** `_dts` */
    var dts: int
    /** number_of_video_streams() */
    const streamCount: nat

    predicate Valid()
      reads this
    {
      StrictlySorted(images)
    }

    constructor (streamCount: nat)
      ensures Valid() && images == [] && videoIndex == -1 && this.streamCount == streamCount
    {
      images := [];
      videoIndex := -1;
      numChannels := 0;
      dts := 0;
      this.streamCount := streamCount;
    }

    /** The cache insertion of `store_image`: append a newer picture, else insert at the
        lower bound, replacing a picture of the same frame. */
    method StoreImage(pic: Picture)
      requires Valid()
      modifies this
      ensures Valid()
      ensures images == Stored(old(images), pic)
      ensures videoIndex == old(videoIndex) && dts == old(dts) && numChannels == old(numChannels)
    {
      StoredSorted(images, pic);
      if images == [] || images[|images| - 1].frame < pic.frame {
        StoredIsInsertion(images, pic, |images|);
        images := images + [pic];
      } else {
        var at := LowerBound(images, pic.frame);
        StoredIsInsertion(images, pic, at);
        if at < |images| && images[at].frame == pic.frame {
          images := images[..at] + images[at + 1..];
        }
        images := images[..at] + [pic] + images[at..];
      }
    }

    /** `in_video_store(frame)`. */
    method InVideoStore(frame: int) returns (found: bool)
      ensures found <==> HasFrame(images, frame)
    {
      var i := 0;
      while i < |images|
        invariant 0 <= i <= |images|
        invariant forall k :: 0 <= k < i ==> images[k].frame != frame
      {
        if images[i].frame == frame {
          return true;
        }
        i := i + 1;
      }
      return false;
    }

    /** `limit_video_store(frame)`, with the playback direction and max_video_frames(). */
    method LimitVideoStore(frame: int, pb: Playback, maxFrames: int)
      requires Valid()
      modifies this
      ensures Valid()
      ensures var w := VideoWindow(pb, frame, maxFrames, old(dts));
        images == KeepInRange(old(images), w.0, w.1)
      ensures videoIndex == old(videoIndex) && dts == old(dts)
    {
      var w := VideoWindow(pb, frame, maxFrames, dts);
      KeepInRangeProperties(images, w.0, w.1);
      if images == [] {
        return;
      }
      images := RemoveNotInRange(images, w.0, w.1);
    }

    /** `video_stream(x)` with -1 accepted as "no stream", as its documentation says. */
    method VideoStream(x: int)
      modifies this
      ensures VideoStreamAccepts(x, streamCount) ==> videoIndex == x && numChannels == 0
      ensures !VideoStreamAccepts(x, streamCount) ==> videoIndex == old(videoIndex) && numChannels == old(numChannels)
      ensures images == old(images) && dts == old(dts)
    {
      if !VideoStreamAccepts(x, streamCount) {
        return;
      }
      videoIndex := x;
      numChannels := 0;
    }
  }

  /** The guard of `video_stream` as written: `x < -1 || unsigned(x) >= count` rejects. */
  predicate VideoStreamAcceptsAsWritten(x: int, count: nat)
  {
    !(x < -1 || (x % UintModulus) >= count)
  }

  /** unsigned(-1) is 2^32-1, so "no stream" is rejected for any real stream count. */
  lemma NoStreamRejectedAsWritten(count: nat)
    requires count < UintModulus
    ensures !VideoStreamAcceptsAsWritten(-1, count)
  {
  }

  /** The evident guard: -1, or an index of an existing stream. */
  predicate VideoStreamAccepts(x: int, count: nat)
  {
    x == -1 || 0 <= x < count
  }

  /** The two guards agree on every non-negative index. */
  lemma VideoStreamGuardsAgree(x: int, count: nat)
    requires x >= 0 && x < UintModulus
    ensures VideoStreamAcceptsAsWritten(x, count) <==> VideoStreamAccepts(x, count)
  {
  }

  /** The final clamp of `queue_packets` into [first_frame, last_frame]. */
  function ClampDts(dts: int, first: int, last: int): (r: int)
    ensures first <= last ==> first <= r <= last
    ensures first <= dts <= last ==> r == dts
    ensures dts > last ==> r == last
    ensures dts < first && dts <= last ==> r == first
  {
    if dts > last then last else if dts < first then first else dts
  }
}
