/** mrViewer's image-sequence names: the frame-spec validator, the split of a file name into
    root, frame and extension, the padding read from a frame spec, the printf-style file
    root, and the lines of a reel file. */
module FrameSequence {
  import opened Wrappers
  import opened Text

  /** The open range of a load entry: the limits of a signed 64-bit frame number. */
  const kMinFrame: int := Int64Min
  const kMaxFrame: int := Int64Max

  predicate IsSep(c: char) { c == '/' || c == '\\' }

  // ---------------------------------------------------------------- is_valid_frame_spec

  predicate RangeChar(c: char) { c == '-' || IsDigit(c) }

  /** A frame spec is valid when it starts with a printf, hash or at-sign pattern, or when,
      past its first character, it is digits and exactly one '-'. */
  predicate ValidFrameSpec(spec: string)
  {
    |spec| > 0 &&
    (spec[0] == '%' || spec[0] == '#' || spec[0] == '@' ||
     (Count(spec[1..], '-') == 1 && forall k :: 1 <= k < |spec| ==> RangeChar(spec[k])))
  }

  /** `is_valid_frame_spec`: the scan over the characters after the first. */
  method IsValidFrameSpec(spec: string) returns (ok: bool)
    ensures ok == ValidFrameSpec(spec)
  {
    if |spec| == 0 {
      return false;
    }
    if spec[0] == '%' || spec[0] == '#' || spec[0] == '@' {
      return true;
    }
    var rangeFound := false;
    var i := 1;
    while i < |spec|
      invariant 1 <= i <= |spec|
      invariant forall k :: 1 <= k < i ==> RangeChar(spec[k])
      invariant Count(spec[1..i], '-') == (if rangeFound then 1 else 0)
    {
      var c := spec[i];
      assert spec[1..i + 1] == spec[1..i] + [c];
      CountAppend(spec[1..i], [c], '-');
      if !rangeFound && c == '-' {
        rangeFound := true;
        i := i + 1;
      } else if c != '+' && IsDigit(c) {
        i := i + 1;
      } else {
        if c == '-' {
          assert spec[1..] == spec[1..i + 1] + spec[i + 1..];
          CountAppend(spec[1..i + 1], spec[i + 1..], '-');
        }
        return false;
      }
    }
    assert spec[1..i] == spec[1..];
    return rangeFound;
  }

  lemma FrameSpecExamples()
    ensures ValidFrameSpec("%04d") && ValidFrameSpec("#") && ValidFrameSpec("@@@")
    ensures ValidFrameSpec("1-10")
    ensures !ValidFrameSpec("0001")
    ensures !ValidFrameSpec("1+2")
  {
    assert "1-10"[1..] == "-10";
    assert Count("-10", '-') == 1 by {
      assert "-10"[1..] == "10";
      assert "10"[1..] == "0";
      assert "0"[1..] == [];
    }
    assert !RangeChar("1+2"[1]);
    assert "0001"[1..] == "001";
    assert '-' !in "001";
  }

  // ---------------------------------------------------------------- split_sequence

  /** The characters the scan accepts between the last and the second-to-last separator. */
  predicate FramePatternChar(c: char)
  {
    c == '@' || c == '#' || c == 'd' || c == 'l' || c == '%' || c == '-' || c == 'I' || IsDigit(c)
  }

  /** The variables of the backward scan: separators found, their positions (idx0 the last,
      idx1 the one before) and the '-' signs seen after the first one. */
  datatype ScanState = ScanState(count: nat, idx0: int, idx1: int, minus: nat)

  predicate ScanStateOk(file: string, st: ScanState)
  {
    st.count <= 2
    && (st.count >= 1 ==> 0 <= st.idx0 < |file| && file[st.idx0] == '.')
    && (st.count == 2 ==> 0 <= st.idx1 < st.idx0 && (file[st.idx1] == '.' || file[st.idx1] == '_'))
  }

  /** The backward scan of `split_sequence` from position i: it stops at a path separator,
      at the start of the string, at the second separator, or, once a '.' has been seen,
      at a character that cannot be part of a frame pattern. */
  function ScanFrom(file: string, i: int, st: ScanState): (r: ScanState)
    requires -1 <= i < |file|
    requires ScanStateOk(file, st) && st.count <= 1 && (st.count == 1 ==> i < st.idx0)
    decreases i + 1
    ensures ScanStateOk(file, r) && r.count >= st.count
    ensures st.count >= 1 ==> r.idx0 == st.idx0
  {
    if i < 0 || IsSep(file[i]) then st
    else if file[i] == '.' || (st.count > 0 && file[i] == '_') then
      if st.count == 0 then ScanFrom(file, i - 1, st.(count := 1, idx0 := i))
      else st.(count := 2, idx1 := i)
    else if st.count == 1 && !FramePatternChar(file[i]) then st
    else ScanFrom(file, i - 1, if st.count == 1 && file[i] == '-' then st.(minus := st.minus + 1) else st)
  }

  function Scan(file: string): (r: ScanState)
    ensures ScanStateOk(file, r)
  {
    ScanFrom(file, |file| - 1, ScanState(0, 0, 0, 0))
  }

  /** d is the last '.' of the last path component. */
  predicate LastDotOfLeaf(file: string, d: int)
  {
    0 <= d < |file| && file[d] == '.' && forall m :: d < m < |file| ==> file[m] != '.' && !IsSep(file[m])
  }

  predicate LeafHasDot(file: string)
  {
    exists k :: 0 <= k < |file| && file[k] == '.' && forall m :: k < m < |file| ==> !IsSep(file[m])
  }

  lemma {:induction false} ScanFindsLastDot(file: string, i: int, st: ScanState)
    requires -1 <= i < |file| && st.count == 0
    requires forall m :: i < m < |file| ==> file[m] != '.' && !IsSep(file[m])
    ensures ScanFrom(file, i, st).count == 0 <==>
      !exists k :: 0 <= k <= i && file[k] == '.' && forall m :: k < m <= i ==> !IsSep(file[m])
    ensures ScanFrom(file, i, st).count >= 1 ==> LastDotOfLeaf(file, ScanFrom(file, i, st).idx0)
    decreases i + 1
  {
    if i < 0 {
    } else if IsSep(file[i]) {
      assert forall k :: 0 <= k <= i && file[k] == '.' ==> k < i && IsSep(file[i]);
    } else if file[i] == '.' {
      assert LastDotOfLeaf(file, i);
    } else {
      ScanFindsLastDot(file, i - 1, st);
      if exists k :: 0 <= k <= i && file[k] == '.' && forall m :: k < m <= i ==> !IsSep(file[m]) {
        var k :| 0 <= k <= i && file[k] == '.' && forall m :: k < m <= i ==> !IsSep(file[m]);
        assert k <= i - 1 && forall m :: k < m <= i - 1 ==> !IsSep(file[m]);
      }
    }
  }

  /** The scan finds a separator exactly when the last path component has a '.', and its
      first separator is that component's last '.'. */
  lemma ScanAndLeaf(file: string)
    ensures Scan(file).count >= 1 <==> LeafHasDot(file)
    ensures Scan(file).count >= 1 ==> LastDotOfLeaf(file, Scan(file).idx0)
  {
    ScanFindsLastDot(file, |file| - 1, ScanState(0, 0, 0, 0));
    if LeafHasDot(file) {
      var k :| 0 <= k < |file| && file[k] == '.' && forall m :: k < m < |file| ==> !IsSep(file[m]);
      assert 0 <= k <= |file| - 1 && forall m :: k < m <= |file| - 1 ==> !IsSep(file[m]);
    }
  }

  const MovieExtensions: set<string> := {".avi", ".mov", ".divx", ".wmv", ".mpeg", ".mpg", ".qt", ".wav", ".vob"}

  predicate FrameTextChar(c: char) { IsDigit(c) || c == '-' || c == '+' }

  /** The outcome of `split_sequence` and the three out-parameters it leaves. */
  datatype Split = Split(ok: bool, root: string, frame: string, ext: string)

  /** `split_sequence(root0, frame0, ext0, file)` in terms of the scan: no separator leaves
      the out-parameters alone; two separators (and fewer than two '-') cut the name in
      three; otherwise the text after the last '.' must be a frame number or range. */
  function SplitSequence(file: string, root0: string, frame0: string, ext0: string): Split
  {
    var st := Scan(file);
    if st.count == 0 then Split(false, root0, frame0, ext0)
    else if st.count == 2 && st.minus < 2 then CutAtTwo(file, st)
    else CutAtOne(file, st)
  }

  /** The cut at two separators: root up to the first, frame between, ext from the last. */
  function CutAtTwo(file: string, st: ScanState): Split
    requires ScanStateOk(file, st) && st.count == 2
  {
    var root := file[..st.idx1 + 1];
    var frame := file[st.idx1 + 1..st.idx0];
    var ext := file[st.idx0..];
    Split(ToLower(ext) !in MovieExtensions && ValidFrameSpec(frame), root, frame, ext)
  }

  /** The cut at the last '.' alone: what follows it must be a frame number or range. */
  function CutAtOne(file: string, st: ScanState): Split
    requires ScanStateOk(file, st) && st.count >= 1
  {
    var root := file[..st.idx0 + 1];
    var tail := file[st.idx0 + 1..];
    if forall k :: 0 <= k < |tail| ==> FrameTextChar(tail[k]) then Split(true, root, tail, "")
    else Split(false, root, "", tail)
  }

  /** The backward pointer scan of `split_sequence`: from the end of the name to the last
      separator, it finds the last '.' and the '.' or '_' before it, counting the '-'
      between them. */
  method ScanBack(file: string) returns (st: ScanState)
    ensures st == Scan(file)
  {
    var count, idx0, idx1, minus := 0, 0, 0, 0;
    var i := |file| - 1;
    var done := false;
    while i >= 0 && !done
      invariant -1 <= i < |file|
      invariant ScanStateOk(file, ScanState(count, idx0, idx1, minus))
      invariant !done ==> count <= 1 && (count == 1 ==> i < idx0)
      invariant !done ==> ScanFrom(file, i, ScanState(count, idx0, idx1, minus)) == Scan(file)
      invariant done ==> ScanState(count, idx0, idx1, minus) == Scan(file)
      decreases i + 1, if done then 0 else 1
    {
      var c := file[i];
      if IsSep(c) {
        done := true;
      } else if c == '.' || (count > 0 && c == '_') {
        if count == 0 {
          idx0 := i;
          count := 1;
          i := i - 1;
        } else {
          idx1 := i;
          count := 2;
          done := true;
        }
      } else if count == 1 && !FramePatternChar(c) {
        done := true;
      } else {
        if count == 1 && c == '-' {
          minus := minus + 1;
        }
        i := i - 1;
      }
    }
    st := ScanState(count, idx0, idx1, minus);
  }

  /** The loop over the text after the last '.': whether every character of it may be part
      of a frame number. */
  method AllFrameText(tail: string) returns (ok: bool)
    ensures ok <==> forall k :: 0 <= k < |tail| ==> FrameTextChar(tail[k])
  {
    var j := 0;
    while j < |tail|
      invariant 0 <= j <= |tail|
      invariant forall k :: 0 <= k < j ==> FrameTextChar(tail[k])
    {
      if !FrameTextChar(tail[j]) {
        return false;
      }
      j := j + 1;
    }
    return true;
  }

  /** `split_sequence`: the backward pointer scan, then the cut. */
  method SplitSequenceScan(file: string, root0: string, frame0: string, ext0: string)
    returns (ok: bool, root: string, frame: string, ext: string)
    ensures Split(ok, root, frame, ext) == SplitSequence(file, root0, frame0, ext0)
  {
    root, frame, ext := root0, frame0, ext0;
    var st := ScanBack(file);
    if st.count == 0 {
      return false, root, frame, ext;
    }
    if st.count == 2 && st.minus < 2 {
      root := file[..st.idx1 + 1];
      frame := file[st.idx1 + 1..st.idx0];
      ext := file[st.idx0..];
      var tmp := ToLower(ext);
      if tmp in MovieExtensions {
        return false, root, frame, ext;
      }
      ok := IsValidFrameSpec(frame);
      return ok, root, frame, ext;
    }
    root := file[..st.idx0 + 1];
    ext := file[st.idx0 + 1..];
    ok := AllFrameText(ext);
    if !ok {
      frame := "";
      return false, root, frame, ext;
    }
    frame := ext;
    ext := "";
    return true, root, frame, ext;
  }

  /** A name whose last component has no '.' is not a sequence, and the out-parameters are
      left as they were. */
  lemma SplitWithoutDot(file: string, root0: string, frame0: string, ext0: string)
    requires !LeafHasDot(file)
    ensures SplitSequence(file, root0, frame0, ext0) == Split(false, root0, frame0, ext0)
  {
    ScanAndLeaf(file);
  }

  /** With two separators and fewer than two '-', the three parts put back together give the
      name; the extension starts at the leaf's last '.'. The result is true iff that
      extension is not a movie or audio one (in any case) and the frame is a valid spec. */
  lemma SplitTwoSeparators(file: string, root0: string, frame0: string, ext0: string)
    requires Scan(file).count == 2 && Scan(file).minus < 2
    ensures var s := SplitSequence(file, root0, frame0, ext0);
      s.root + s.frame + s.ext == file
      && (exists d :: LastDotOfLeaf(file, d) && s.ext == file[d..])
      && (s.ok <==> ToLower(s.ext) !in MovieExtensions && ValidFrameSpec(s.frame))
  {
    ScanAndLeaf(file);
    var st := Scan(file);
    assert SplitSequence(file, root0, frame0, ext0) == CutAtTwo(file, st);
    CutAtTwoParts(file, st);
  }

  lemma CutAtTwoParts(file: string, st: ScanState)
    requires ScanStateOk(file, st) && st.count == 2
    ensures var s := CutAtTwo(file, st); s.root + s.frame + s.ext == file && s.ext == file[st.idx0..]
  {
    var i, j := st.idx1 + 1, st.idx0;
    assert file[..i] + file[i..j] == file[..j];
    assert file[..j] + file[j..] == file;
  }

  /** Otherwise (one separator, or two or more '-'), the text after the leaf's last '.' decides:
      the name is a sequence iff that text is only digits, '-' and '+'; then it is the frame,
      the extension is empty and root and frame give the name back. */
  lemma SplitOneSeparator(file: string, root0: string, frame0: string, ext0: string, d: int)
    requires LastDotOfLeaf(file, d)
    requires !(Scan(file).count == 2 && Scan(file).minus < 2)
    ensures var s := SplitSequence(file, root0, frame0, ext0);
      var tail := file[d + 1..];
      (s.ok <==> forall k :: 0 <= k < |tail| ==> FrameTextChar(tail[k]))
      && (s.ok ==> s.frame == tail && s.ext == "" && s.root + s.frame == file)
      && (!s.ok ==> s.frame == "" && s.ext == tail && s.root + s.ext == file)
  {
    assert LeafHasDot(file);
    ScanAndLeaf(file);
    var e := Scan(file).idx0;
    assert LastDotOfLeaf(file, e);
    assert e == d;
    assert file[..d + 1] + file[d + 1..] == file;
  }

  // ---------------------------------------------------------------- padded_digits

  /** `padded_digits`: "#" is four digits, an at-sign or zero pattern is as wide as itself, a
      printf pattern gives the number between '%' and its last character, anything else 1. */
  function PaddedDigits(frame: string): (r: int)
    ensures frame == "#" ==> r == 4
    ensures frame != "#" && |frame| > 0 && (frame[0] == '@' || frame[0] == '0') ==> r == |frame|
    ensures frame != "#" && (|frame| == 0 || (frame[0] != '@' && frame[0] != '0' && frame[0] != '%')) ==> r == 1
  {
    if frame == "#" then 4
    else if |frame| > 0 && (frame[0] == '@' || frame[0] == '0') then |frame|
    else if |frame| > 0 && frame[0] == '%' then
      // size()-2 wraps to npos for "%", and substr(1, npos) of "%" is empty
      Atoi(if |frame| >= 2 then frame[1..|frame| - 1] else "")
    else 1
  }

  /** The padding of "%0<n>d" is n; a lone "%" has padding 0. */
  lemma PaddedDigitsOfPrintfSpec(n: nat)
    ensures PaddedDigits("%0" + NatToString(n) + "d") == n
    ensures PaddedDigits("%") == 0
  {
    var ds := NatToString(n);
    var f := "%0" + ds + "d";
    assert f[1..|f| - 1] == ['0'] + ds;
    DigitsValueLeadingZero(ds);
    AtoiOfDigits(['0'] + ds, []);
    assert ['0'] + ds + [] == ['0'] + ds;
    NatToStringValue(n);
  }

  // ---------------------------------------------------------------- fileroot

  /** The printf pattern `fileroot` writes for a padding: "%0<pad>" or, for padding 0, "%",
      followed by the conversion. */
  function PrintfPattern(pad: int, conversion: string): (p: string)
    ensures |p| > 0 && p[0] == '%'
  {
    if pad == 0 then "%" + conversion else "%0" + IntToString(pad) + conversion
  }

  /** Reading the padding back from the pattern written for it gives the padding. */
  lemma PrintfPatternPaddingRoundTrip(n: nat)
    ensures PaddedDigits(PrintfPattern(n, "d")) == n
  {
    if n == 0 {
      assert PrintfPattern(0, "d") == "%d";
      assert "%d"[1..1] == [];
    } else {
      PaddedDigitsOfPrintfSpec(n);
      assert PrintfPattern(n, "d") == "%0" + NatToString(n) + "d";
    }
  }

  /** `fileroot(file)`: for a sequence, the root, a printf pattern of the padded width
      (`prid64` stands for the PRId64 conversion) and the extension; otherwise the name itself. */
  function Fileroot(file: string, prid64: string): (r: (bool, string))
    ensures var s := SplitSequence(file, "", "", "");
      r.0 == s.ok
      && (!s.ok ==> r.1 == file)
      && (s.ok ==> r.1 == s.root + PrintfPattern(PaddedDigits(s.frame), prid64) + s.ext)
  {
    var s := SplitSequence(file, "", "", "");
    if !s.ok then (false, file)
    else (true, s.root + PrintfPattern(PaddedDigits(s.frame), prid64) + s.ext)
  }

  /** The printf conversion that PRId64 stands for: a non-empty length modifier and letter
      that starts neither with a digit nor with '%'. */
  predicate IsConversion(conv: string)
  {
    |conv| > 0 && !IsDigit(conv[0]) && conv[0] != '%'
  }

  /** printf of the pattern written for a padding prints the frame number padded to it. */
  lemma PrintfPatternPrints(pad: nat, conv: string, n: int, ext: string)
    requires IsConversion(conv) && NoPercent(ext)
    ensures Sprintf(PrintfPattern(pad, conv) + ext, conv, n) == PadInt(n, pad, pad > 0) + ext
  {
    if pad == 0 {
      assert PrintfPattern(pad, conv) + ext == ['%'] + ([] + (conv + ext));
      SprintfConversion([], conv, ext, n);
    } else {
      var ds := ['0'] + NatToString(pad);
      assert PrintfPattern(pad, conv) + ext == ['%'] + (ds + (conv + ext));
      DigitsValueLeadingZero(NatToString(pad));
      NatToStringValue(pad);
      SprintfConversion(ds, conv, ext, n);
    }
  }

  /** printf of what `fileroot` returns for a sequence whose root and extension hold no '%'
      prints the name of that frame: the root, the frame number padded as the sequence's
      frame spec says, and the extension. */
  lemma FilerootPrintsFrame(file: string, prid64: string, n: int)
    requires IsConversion(prid64)
    requires var s := SplitSequence(file, "", "", "");
      s.ok && NoPercent(s.root) && NoPercent(s.ext) && PaddedDigits(s.frame) >= 0
    ensures var s := SplitSequence(file, "", "", "");
      var pad := PaddedDigits(s.frame);
      Sprintf(Fileroot(file, prid64).1, prid64, n) == s.root + PadInt(n, pad, pad > 0) + s.ext
  {
    var s := SplitSequence(file, "", "", "");
    RootPatternPrints(s.root, PaddedDigits(s.frame), prid64, n, s.ext);
  }

  lemma RootPatternPrints(root: string, pad: nat, conv: string, n: int, ext: string)
    requires IsConversion(conv) && NoPercent(root) && NoPercent(ext)
    ensures Sprintf(root + PrintfPattern(pad, conv) + ext, conv, n) == root + PadInt(n, pad, pad > 0) + ext
  {
    assert root + PrintfPattern(pad, conv) + ext == root + (PrintfPattern(pad, conv) + ext);
    SprintfPlainPrefix(root, PrintfPattern(pad, conv) + ext, conv, n);
    PrintfPatternPrints(pad, conv, n, ext);
  }

  // ---------------------------------------------------------------- parse_reel

  /** One entry of the load list: a file and its frame range, and an audio file. */
  datatype LoadInfo = LoadInfo(file: string, start: int, end: int, audio: string)

  /** What one line of a reel file is. */
  datatype ReelLine = SkipLine | AudioLine(audio: string) | EdlLine | EntryLine(info: LoadInfo)

  /** The backward scan from s for the blank that precedes a trailing token of digits and
      '-' signs; it never looks at position 0. */
  function RangeBlankFrom(c: string, s: nat): (r: Option<nat>)
    requires s < |c|
    ensures r.Some? ==> 0 < r.value <= s && IsBlank(c[r.value])
    ensures r.Some? ==> forall k :: r.value < k <= s ==> RangeChar(c[k])
  {
    if s == 0 then None
    else if IsBlank(c[s]) then Some(s)
    else if c[s] != '-' && !IsDigit(c[s]) then None
    else RangeBlankFrom(c, s - 1)
  }

  /** Where the blanks written over with NULs, going back from s, end: the root's length. */
  function RootEnd(c: string, s: nat): (e: nat)
    requires s < |c|
    ensures 0 < e <= s + 1
    ensures forall k :: e <= k <= s ==> IsBlank(c[k])
    ensures e == 1 || !IsBlank(c[e - 1])
  {
    if s == 0 || !IsBlank(c[s]) then s + 1 else RootEnd(c, s - 1)
  }

  /** The frame range of a trailing token: "A-B" is [A,B], "A-" is [A,A], a token without
      '-' (or no token) is the open range. */
  function TokenRange(range: string): (r: (int, int))
    ensures '-' !in range ==> r == (kMinFrame, kMaxFrame)
  {
    match FindChar(range, '-', 0)
    case None => (kMinFrame, kMaxFrame)
    case Some(d) =>
      var start := Atoi(range[..d]);
      (start, if d + 1 < |range| then Atoi(range[d + 1..]) else start)
  }

  /** An entry line (the newline already removed): the file, then an optional range token. */
  function ParseEntry(body: string): (info: LoadInfo)
    requires |body| >= 1
    ensures info.audio == ""
  {
    match RangeBlankFrom(body, |body| - 1)
    case None => LoadInfo(body, kMinFrame, kMaxFrame, "")
    case Some(b) =>
      var rg := TokenRange(body[b + 1..]);
      LoadInfo(body[..RootEnd(body, b)], rg.0, rg.1, "")
  }

  /** The meaning of one line as `fgets` returns it (with its newline). */
  function ParseLine(line: string): (r: ReelLine)
    ensures |line| > 0 && line[0] == '#' ==> r == SkipLine
    ensures |DropBlanks(line)| <= 1 ==> r == SkipLine
    ensures r.EdlLine? <==>
      !(|line| > 0 && line[0] == '#') && |DropBlanks(line)| == 4 && DropBlanks(line)[..3] == "EDL"
  {
    if |line| > 0 && line[0] == '#' then SkipLine
    else
      var c := DropBlanks(line);
      if |c| <= 1 then SkipLine
      else
        // the last character is taken to be the newline and cut off
        var body := c[..|c| - 1];
        if StartsWith(body, "audio: ") then AudioLine(body[7..])
        else if body == "EDL" then EdlLine
        else EntryLine(ParseEntry(body))
  }

  /** The state `parse_reel` builds: the load list and the EDL flag. */
  datatype Reel = Reel(sequences: seq<LoadInfo>, edl: bool)

  /** One line's effect: an audio line attaches to the previous entry only. */
  function ReelStep(r: Reel, line: string): Reel
  {
    match ParseLine(line)
    case SkipLine => r
    case AudioLine(a) =>
      if r.sequences == [] then r
      else r.(sequences := r.sequences[..|r.sequences| - 1] + [r.sequences[|r.sequences| - 1].(audio := a)])
    case EdlLine => r.(edl := true)
    case EntryLine(info) => r.(sequences := r.sequences + [info])
  }

  function ParseLines(start: Reel, lines: seq<string>): Reel
  {
    if lines == [] then start else ReelStep(ParseLines(start, lines[..|lines| - 1]), lines[|lines| - 1])
  }

  /** The body of `parse_reel`'s loop for one line. */
  method ReadLine(sequences0: seq<LoadInfo>, edl0: bool, line: string) returns (sequences: seq<LoadInfo>, edl: bool)
    ensures Reel(sequences, edl) == ReelStep(Reel(sequences0, edl0), line)
  {
    sequences, edl := sequences0, edl0;
    var kind := ParseLine(line);
    match kind {
      case SkipLine =>
      case AudioLine(a) =>
        if sequences != [] {
          sequences := sequences[..|sequences| - 1] + [sequences[|sequences| - 1].(audio := a)];
        }
      case EdlLine =>
        edl := true;
      case EntryLine(info) =>
        sequences := sequences + [info];
    }
  }

  /** `parse_reel` over the lines of the file, appending to `sequences`; `edl` starts false. */
  method ParseReel(sequences0: seq<LoadInfo>, lines: seq<string>) returns (sequences: seq<LoadInfo>, edl: bool)
    ensures Reel(sequences, edl) == ParseLines(Reel(sequences0, false), lines)
  {
    sequences, edl := sequences0, false;
    var i := 0;
    while i < |lines|
      invariant 0 <= i <= |lines|
      invariant Reel(sequences, edl) == ParseLines(Reel(sequences0, false), lines[..i])
    {
      assert lines[..i + 1][..i] == lines[..i];
      sequences, edl := ReadLine(sequences, edl, lines[i]);
      i := i + 1;
    }
    assert lines[..i] == lines;
  }

  function EntryCount(lines: seq<string>): nat
  {
    if lines == [] then 0
    else EntryCount(lines[..|lines| - 1]) + (if ParseLine(lines[|lines| - 1]).EntryLine? then 1 else 0)
  }

  lemma ReelStepShape(r: Reel, line: string)
    ensures |ReelStep(r, line).sequences| == |r.sequences| + (if ParseLine(line).EntryLine? then 1 else 0)
    ensures ReelStep(r, line).edl <==> r.edl || ParseLine(line).EdlLine?
  {
  }

  /** Each entry line adds one load entry and no other line does. */
  lemma {:induction false} ParseLinesCount(start: Reel, lines: seq<string>)
    ensures |ParseLines(start, lines).sequences| == |start.sequences| + EntryCount(lines)
  {
    if lines != [] {
      var init := lines[..|lines| - 1];
      ParseLinesCount(start, init);
      ReelStepShape(ParseLines(start, init), lines[|lines| - 1]);
    }
  }

  predicate IsEdlLine(line: string) { ParseLine(line).EdlLine? }

  /** Some line among these is "EDL", looking from the last line back. */
  predicate EdlAmong(lines: seq<string>)
  {
    lines != [] && (IsEdlLine(lines[|lines| - 1]) || EdlAmong(lines[..|lines| - 1]))
  }

  lemma {:induction false} EdlAmongExists(lines: seq<string>)
    ensures EdlAmong(lines) <==> exists k :: 0 <= k < |lines| && IsEdlLine(lines[k])
  {
    if lines != [] {
      var init := lines[..|lines| - 1];
      EdlAmongExists(init);
      assert forall k :: 0 <= k < |init| ==> init[k] == lines[k];
    }
  }

  lemma {:induction false} ParseLinesEdlAmong(start: Reel, lines: seq<string>)
    ensures ParseLines(start, lines).edl <==> start.edl || EdlAmong(lines)
  {
    if lines != [] {
      var init := lines[..|lines| - 1];
      ParseLinesEdlAmong(start, init);
      ReelStepShape(ParseLines(start, init), lines[|lines| - 1]);
    }
  }

  /** `edl` is set iff some line is "EDL". */
  lemma ParseLinesEdl(start: Reel, lines: seq<string>)
    ensures ParseLines(start, lines).edl <==> start.edl || exists k :: 0 <= k < |lines| && IsEdlLine(lines[k])
  {
    ParseLinesEdlAmong(start, lines);
    EdlAmongExists(lines);
  }

  /** An audio line changes only the audio of the last entry. */
  lemma AudioAttachesToPrevious(r: Reel, line: string, a: string)
    requires ParseLine(line) == AudioLine(a)
    ensures |ReelStep(r, line).sequences| == |r.sequences|
    ensures r.sequences != [] ==>
      ReelStep(r, line).sequences[..|r.sequences| - 1] == r.sequences[..|r.sequences| - 1]
      && ReelStep(r, line).sequences[|r.sequences| - 1] == r.sequences[|r.sequences| - 1].(audio := a)
  {
  }

  /** The text "audio: X" followed by its newline is read as an audio line naming X. */
  lemma AudioLineText(a: string)
    ensures ParseLine("audio: " + a + "\n") == AudioLine(a)
  {
    var line := "audio: " + a + "\n";
    assert line[0] == 'a' && !IsBlank(line[0]);
    assert DropBlanks(line) == line;
    var body := line[..|line| - 1];
    assert body == "audio: " + a;
    assert body[..7] == "audio: " && body[7..] == a;
  }

  lemma {:induction false} RangeBlankFindsToken(body: string, b: nat, s: nat)
    requires 0 < b <= s < |body| && IsBlank(body[b])
    requires forall k :: b < k <= s ==> RangeChar(body[k])
    ensures RangeBlankFrom(body, s) == Some(b)
    decreases s
  {
    if s > b {
      RangeBlankFindsToken(body, b, s - 1);
    }
  }

  /** A line that is neither a comment, blank, audio nor "EDL" line is a load entry. */
  lemma LineIsEntry(body: string)
    requires |body| >= 1 && !IsBlank(body[0]) && body[0] != '#'
    requires !StartsWith(body, "audio: ") && body != "EDL"
    ensures ParseLine(body + "\n") == EntryLine(ParseEntry(body))
  {
    var line := body + "\n";
    assert line[0] == body[0];
    assert DropBlanks(line) == line;
    assert line[..|line| - 1] == body;
  }

  lemma BlankBeforeToken(root: string, token: string)
    requires |root| > 0
    requires forall k :: 0 <= k < |token| ==> RangeChar(token[k])
    ensures RangeBlankFrom(root + " " + token, |root| + |token|) == Some(|root|)
  {
    var body := root + " " + token;
    JoinedParts(root, token);
    RangeBlankFindsToken(body, |root|, |body| - 1);
  }

  /** A file name followed by a blank and a token of digits and '-' signs. */
  lemma EntryOfRootAndToken(root: string, token: string)
    requires |root| > 0 && !IsBlank(root[|root| - 1])
    requires forall k :: 0 <= k < |token| ==> RangeChar(token[k])
    ensures ParseEntry(root + " " + token) ==
      LoadInfo(root, TokenRange(token).0, TokenRange(token).1, "")
  {
    var body := root + " " + token;
    var b := |root|;
    BlankBeforeToken(root, token);
    ParseEntryAtBlank(body, b);
    JoinedParts(root, token);
    RootEndAfterWord(body, b);
  }

  /** The parts of root + " " + token. */
  lemma JoinedParts(root: string, token: string)
    requires |root| > 0
    ensures var body := root + " " + token;
      |body| == |root| + 1 + |token| && body[..|root|] == root && body[|root|] == ' '
      && body[|root| - 1] == root[|root| - 1] && body[|root| + 1..] == token
      && forall k :: |root| < k < |body| ==> body[k] == token[k - |root| - 1]
  {
    var body := root + " " + token;
    assert body == root + ([' '] + token);
    assert body[|root|..] == [' '] + token;
  }

  /** An entry whose trailing token starts after the blank at b. */
  lemma ParseEntryAtBlank(body: string, b: nat)
    requires |body| >= 1 && RangeBlankFrom(body, |body| - 1) == Some(b)
    ensures ParseEntry(body) == LoadInfo(body[..RootEnd(body, b)], TokenRange(body[b + 1..]).0, TokenRange(body[b + 1..]).1, "")
  {
  }

  /** A single blank at b after a non-blank: the root ends at b. */
  lemma RootEndAfterWord(body: string, b: nat)
    requires 0 < b < |body| && IsBlank(body[b]) && !IsBlank(body[b - 1])
    ensures RootEnd(body, b) == b
  {
  }

  /** "A-B" is [A,B] and "A-" is [A,A]. */
  lemma TokenRangeOfDigits(a: string, tail: string)
    requires |a| > 0 && AllDigits(a) && AllDigits(tail)
    ensures TokenRange(a + "-" + tail) ==
      (DigitsValue(a), if tail == [] then DigitsValue(a) else DigitsValue(tail))
  {
    var token := a + "-" + tail;
    assert FindChar(token, '-', 0) == Some(|a|) by {
      assert forall k :: 0 <= k < |a| ==> token[k] == a[k] && token[k] != '-';
      assert token[|a|] == '-';
    }
    assert token[..|a|] == a + [];
    AtoiOfDigits(a, []);
    if tail != [] {
      assert token[|a| + 1..] == tail + [];
      AtoiOfDigits(tail, []);
    }
  }

  /** A line "root A-B" (A, B digits, root not ending in a blank) loads root over [A,B];
      "root A-" loads [A,A]. */
  lemma EntryWithRange(root: string, a: string, tail: string)
    requires |root| > 0 && !IsBlank(root[0]) && root[0] != '#' && !IsBlank(root[|root| - 1])
    requires |a| > 0 && AllDigits(a) && AllDigits(tail)
    requires !StartsWith(root + " " + a + "-" + tail, "audio: ")
    ensures ParseLine(root + " " + a + "-" + tail + "\n") ==
      EntryLine(LoadInfo(root, DigitsValue(a), if tail == [] then DigitsValue(a) else DigitsValue(tail), ""))
  {
    var token := a + "-" + tail;
    var body := root + " " + token;
    assert body == root + " " + a + "-" + tail;
    assert body[0] == root[0];
    assert body[|root|] == ' ';
    assert ' ' in body && ' ' !in "EDL";
    LineIsEntry(body);
    forall k | 0 <= k < |token| ensures RangeChar(token[k]) {
      if k < |a| { assert token[k] == a[k]; }
      else if k > |a| { assert token[k] == tail[k - |a| - 1]; }
    }
    EntryOfRootAndToken(root, token);
    TokenRangeOfDigits(a, tail);
  }

  /** A line "root A" whose token has no '-' loads root over the open range. */
  lemma EntryWithoutDash(root: string, a: string)
    requires |root| > 0 && !IsBlank(root[0]) && root[0] != '#' && !IsBlank(root[|root| - 1])
    requires |a| > 0 && AllDigits(a)
    requires !StartsWith(root + " " + a, "audio: ")
    ensures ParseLine(root + " " + a + "\n") == EntryLine(LoadInfo(root, kMinFrame, kMaxFrame, ""))
  {
    var body := root + " " + a;
    assert body[0] == root[0];
    assert body[|root|] == ' ';
    assert ' ' in body && ' ' !in "EDL";
    LineIsEntry(body);
    EntryOfRootAndToken(root, a);
    assert '-' !in a;
  }
}
