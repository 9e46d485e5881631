/** How mrViewer guesses the reader for a file name: stereo view substitution, the checks on
    the name, the first-match walk over the table of image formats, and the quoting of the
    name in the "not found" message. */
module GuessImage {
  import opened Wrappers
  import opened Text
  import FrameSequence
  import AviImage

  // ---------------------------------------------------------------- stereo views

  /** The common shape of `get_short_view` and `get_long_view`: split the pair string at its
      first ':'; without one, fall back to the built-in names. */
  function ViewOf(pairs: string, left: bool, fallbackLeft: string, fallbackRight: string): (v: string)
    ensures ':' !in pairs ==> v == (if left then fallbackLeft else fallbackRight)
    ensures ':' in pairs && left ==> ':' !in v && |v| < |pairs| && pairs[..|v|] == v && pairs[|v|] == ':'
    ensures ':' in pairs && !left ==> |v| < |pairs| && pairs[|pairs| - |v|..] == v && pairs[|pairs| - |v| - 1] == ':'
  {
    match FindChar(pairs, ':', 0)
    case None =>
      assert forall k :: 0 <= k < |pairs| ==> pairs[k] != ':';
      if left then fallbackLeft else fallbackRight
    case Some(idx) =>
      if left then pairs[..idx] else pairs[idx + 1..]
  }

  /** The left and right views are the two sides of the first ':' of the pair string. */
  lemma ViewsSplitPairs(pairs: string, fallbackLeft: string, fallbackRight: string)
    requires ':' in pairs
    ensures ViewOf(pairs, true, fallbackLeft, fallbackRight) + ":" + ViewOf(pairs, false, fallbackLeft, fallbackRight) == pairs
  {
    var idx := FindChar(pairs, ':', 0).value;
    assert pairs == pairs[..idx] + ":" + pairs[idx + 1..];
  }

  /** `get_short_view(left)`, with the value of MRV_STEREO_CHAR_PAIRS passed in. */
  function GetShortView(env: Option<string>, left: bool): (v: string)
    ensures env.None? ==> v == (if left then "L" else "R")
    ensures env.Some? && ':' !in env.value ==> v == (if left then "L" else "R")
  {
    ViewOf(if env.None? then "L:R" else env.value, left, "L", "R")
  }

  /** `get_long_view(left)`, with the value of MRV_STEREO_NAME_PAIRS passed in. */
  function GetLongView(env: Option<string>, left: bool): (v: string)
    ensures env.None? ==> v == (if left then "left" else "right")
    ensures env.Some? && ':' !in env.value ==> v == (if left then "left" else "right")
  {
    ViewOf(if env.None? then "left:right" else env.value, left, "left", "right")
  }

  /** The views used when the environment variables are not set. */
  lemma DefaultViews()
    ensures GetShortView(None, true) == "L" && GetShortView(None, false) == "R"
    ensures GetLongView(None, true) == "left" && GetLongView(None, false) == "right"
  {
    assert "L:R"[1] == ':';
    assert "L:R"[..1] == "L" && "L:R"[2..] == "R";
    assert "left:right"[4] == ':';
    assert "left:right"[..4] == "left" && "left:right"[5..] == "right";
  }

  /** `parse_view(root, left)`: the first "%V" becomes the long view; only without one does
      the first "%v" become the short view. */
  function ParseView(root: string, left: bool, shortEnv: Option<string>, longEnv: Option<string>): string
  {
    match FindSub(root, "%V")
    case Some(i) => root[..i] + GetLongView(longEnv, left) + root[i + 2..]
    case None =>
      match FindSub(root, "%v")
      case Some(i) => root[..i] + GetShortView(shortEnv, left) + root[i + 2..]
      case None => root
  }

  predicate FirstOccurrence(root: string, pat: string, a: string)
  {
    StartsWith(root, a + pat) && forall k :: 0 <= k < |a| ==> !OccursAt(root, pat, k)
  }

  lemma FindsFirstOccurrence(root: string, pat: string, a: string)
    requires FirstOccurrence(root, pat, a)
    ensures FindSub(root, pat) == Some(|a|)
  {
    assert root[|a|..|a| + |pat|] == (a + pat)[|a|..];
    assert OccursAt(root, pat, |a|);
  }

  /** Only the first "%V" is replaced, by the long view. */
  lemma ParseViewLong(a: string, b: string, left: bool, shortEnv: Option<string>, longEnv: Option<string>)
    requires FirstOccurrence(a + "%V" + b, "%V", a)
    ensures ParseView(a + "%V" + b, left, shortEnv, longEnv) == a + GetLongView(longEnv, left) + b
  {
    var root := a + "%V" + b;
    FindsFirstOccurrence(root, "%V", a);
    assert root[..|a|] == a && root[|a| + 2..] == b;
  }

  /** Without any "%V", only the first "%v" is replaced, by the short view. */
  lemma ParseViewShort(a: string, b: string, left: bool, shortEnv: Option<string>, longEnv: Option<string>)
    requires !Contains(a + "%v" + b, "%V")
    requires FirstOccurrence(a + "%v" + b, "%v", a)
    ensures ParseView(a + "%v" + b, left, shortEnv, longEnv) == a + GetShortView(shortEnv, left) + b
  {
    var root := a + "%v" + b;
    FindsFirstOccurrence(root, "%v", a);
    assert root[..|a|] == a && root[|a| + 2..] == b;
  }

  /** A name is stereo when it holds "%V" or "%v". */
  predicate IsStereo(root: string)
  {
    Contains(root, "%V") || Contains(root, "%v")
  }

  /** A name that is not stereo goes through `parse_view` unchanged. */
  lemma ParseViewOfMono(root: string, left: bool, shortEnv: Option<string>, longEnv: Option<string>)
    requires !IsStereo(root)
    ensures ParseView(root, left, shortEnv, longEnv) == root
  {
  }

  // ---------------------------------------------------------------- the name checks

  /** The outcome of `guess_image` before any file is read. */
  datatype NameCheck =
    | OutOfRange          // `substr(size() - 4)` on a name shorter than 4 characters throws
    | NotAnImage          // ".xml", ".XML" and "~" names give NULL
    | Open(isSeq: bool, isStereo: bool, root: string, name: string)

  predicate Excluded(root: string)
    requires |root| >= 4
  {
    root[|root| - 4..] == ".xml" || root[|root| - 4..] == ".XML" || root[|root| - 1..] == "~"
  }

  /** `guess_image(file, ..., start, end)` up to the open: it is a sequence only when limits
      are given and `fileroot` recognises the name; the printf conversion of the frame is
      prid64; the stereo name is that of the left view; a sequence opens the name printed
      for its first frame, start. */
  function CheckName(file: string, start: int, end: int, prid64: string,
                     shortEnv: Option<string>, longEnv: Option<string>): (c: NameCheck)
    ensures start == Int64Max && end == Int64Min && |file| >= 4 && !Excluded(file) ==>
      c.Open? && !c.isSeq && c.root == file
    ensures c.Open? ==> c.isStereo == IsStereo(file) && |c.root| >= 4 && !Excluded(c.root)
    ensures c.Open? ==> c.isSeq == ((start != Int64Max || end != Int64Min) && FrameSequence.Fileroot(file, prid64).0)
    ensures c.Open? && !c.isSeq ==> c.root == file
    ensures c.Open? && !c.isSeq && !c.isStereo ==> c.name == file
    ensures c.Open? && !c.isSeq && c.isStereo ==> c.name == ParseView(file, true, shortEnv, longEnv)
    ensures c.Open? && c.isSeq && !c.isStereo ==> c.name == Sprintf(c.root, prid64, start)
    ensures c.Open? && c.isSeq && c.isStereo ==>
      c.name == Sprintf(ParseView(c.root, true, shortEnv, longEnv), prid64, start)
  {
    var isStereo := IsStereo(file);
    var fr := FrameSequence.Fileroot(file, prid64);
    var isSeq := (start != Int64Max || end != Int64Min) && fr.0;
    var root := if isSeq then fr.1 else file;
    var view := if isStereo then ParseView(root, true, shortEnv, longEnv) else root;
    if |root| < 4 then OutOfRange
    else if Excluded(root) then NotAnImage
    else Open(isSeq, isStereo, root, if isSeq then Sprintf(view, prid64, start) else view)
  }

  /** With frame limits, a mono sequence whose root and extension hold no '%' opens the
      file of its first frame: the root, start padded as the frame spec says, and the
      extension. */
  lemma SequenceOpensFirstFrame(file: string, start: int, end: int, prid64: string,
                                shortEnv: Option<string>, longEnv: Option<string>)
    requires start != Int64Max || end != Int64Min
    requires !IsStereo(file) && FrameSequence.IsConversion(prid64)
    requires var s := FrameSequence.SplitSequence(file, "", "", "");
      s.ok && NoPercent(s.root) && NoPercent(s.ext) && FrameSequence.PaddedDigits(s.frame) >= 0
    ensures var s := FrameSequence.SplitSequence(file, "", "", "");
      var pad := FrameSequence.PaddedDigits(s.frame);
      var c := CheckName(file, start, end, prid64, shortEnv, longEnv);
      c.Open? ==> c.isSeq && c.name == s.root + PadInt(start, pad, pad > 0) + s.ext
  {
    FrameSequence.FilerootPrintsFrame(file, prid64, start);
  }

  /** XML files and editor backups are never opened. */
  lemma XmlAndBackupsRejected(stem: string, start: int, end: int, prid64: string,
                               shortEnv: Option<string>, longEnv: Option<string>)
    requires start == Int64Max && end == Int64Min
    ensures CheckName(stem + ".xml", start, end, prid64, shortEnv, longEnv) == NotAnImage
    ensures CheckName(stem + ".XML", start, end, prid64, shortEnv, longEnv) == NotAnImage
    ensures |stem| >= 3 ==> CheckName(stem + "~", start, end, prid64, shortEnv, longEnv) == NotAnImage
  {
    var x := stem + ".xml";
    assert x[|x| - 4..] == ".xml";
    var y := stem + ".XML";
    assert y[|y| - 4..] == ".XML";
    var z := stem + "~";
    if |z| >= 4 {
      assert z[|z| - 1..] == "~";
    }
  }

  /** Without frame limits a name shorter than four characters makes the substring throw. */
  lemma ShortNameThrows(file: string, prid64: string, shortEnv: Option<string>, longEnv: Option<string>)
    requires |file| < 4
    ensures CheckName(file, Int64Max, Int64Min, prid64, shortEnv, longEnv) == OutOfRange
  {
  }

  // ---------------------------------------------------------------- test_image

  datatype ImageKind = Stub | Exr | Iff | MapKind | Hdr | Avi | Wand | Dds | Shmap | Mray | Pxrz

  /** How a table entry recognises its files: by bytes (with an optional name test as a
      second chance), or by name alone. */
  datatype Probe =
    | ByBytes(bytes: seq<bv8> -> bool, nameAlso: Option<string -> bool>)
    | ByName(name: string -> bool)

  datatype Entry = Entry(kind: ImageKind, probe: Probe)

  predicate Accepts(e: Entry, name: string, data: seq<bv8>)
  {
    match e.probe
    case ByBytes(t, n) => t(data) || (n.Some? && n.value(name))
    case ByName(n) => n(name)
  }

  /** The byte and name tests of the readers other than aviImage, which are not part of
      this model. */
  datatype OtherTests = OtherTests(
    stub: seq<bv8> -> bool, exr: seq<bv8> -> bool, iff: seq<bv8> -> bool, mapFile: seq<bv8> -> bool,
    hdr: seq<bv8> -> bool, wandName: string -> bool, dds: seq<bv8> -> bool, shmap: seq<bv8> -> bool,
    mray: seq<bv8> -> bool, pxrz: seq<bv8> -> bool)

  /** `image_filetypes`, without its terminator. */
  function ImageFiletypes(o: OtherTests): (t: seq<Entry>)
    ensures |t| == 11 && t[5] == Entry(Avi, ByBytes(AviImage.Test, None))
  {
    [Entry(Stub, ByBytes(o.stub, None)),
     Entry(Exr, ByBytes(o.exr, None)),
     Entry(Iff, ByBytes(o.iff, None)),
     Entry(MapKind, ByBytes(o.mapFile, None)),
     Entry(Hdr, ByBytes(o.hdr, None)),
     Entry(Avi, ByBytes(AviImage.Test, None)),
     Entry(Wand, ByName(o.wandName)),
     Entry(Dds, ByBytes(o.dds, None)),
     Entry(Shmap, ByBytes(o.shmap, None)),
     Entry(Mray, ByBytes(o.mray, None)),
     Entry(Pxrz, ByBytes(o.pxrz, None))]
  }

  /** The kind of the first entry that accepts, if any. */
  function FirstAccepting(table: seq<Entry>, name: string, data: seq<bv8>): Option<ImageKind>
  {
    if table == [] then None
    else if Accepts(table[0], name, data) then Some(table[0].kind)
    else FirstAccepting(table[1..], name, data)
  }

  /** The first accepting entry is chosen, and None only when no entry accepts. */
  lemma {:induction false} FirstAcceptingIsFirst(table: seq<Entry>, name: string, data: seq<bv8>)
    ensures FirstAccepting(table, name, data).None? <==> forall i :: 0 <= i < |table| ==> !Accepts(table[i], name, data)
    ensures FirstAccepting(table, name, data).Some? ==>
      exists i :: 0 <= i < |table| && Accepts(table[i], name, data) && table[i].kind == FirstAccepting(table, name, data).value
        && forall j :: 0 <= j < i ==> !Accepts(table[j], name, data)
  {
    if table != [] {
      FirstAcceptingIsFirst(table[1..], name, data);
      if !Accepts(table[0], name, data) {
        if FirstAccepting(table[1..], name, data).Some? {
          var i :| 0 <= i < |table[1..]| && Accepts(table[1..][i], name, data)
            && table[1..][i].kind == FirstAccepting(table[1..], name, data).value
            && forall j :: 0 <= j < i ==> !Accepts(table[1..][j], name, data);
          assert table[i + 1] == table[1..][i];
          forall j | 0 <= j < i + 1 ensures !Accepts(table[j], name, data) {
            if j > 0 { assert table[j] == table[1..][j - 1]; }
          }
        } else {
          forall i | 0 <= i < |table| ensures !Accepts(table[i], name, data) {
            if i > 0 { assert table[i] == table[1..][i - 1]; }
          }
        }
      }
    }
  }

  /** `test_image(name, datas, size)`: the walk over the table until the terminator. */
  method TestImage(table: seq<Entry>, name: string, data: seq<bv8>) returns (r: Option<ImageKind>)
    ensures r == FirstAccepting(table, name, data)
  {
    var i := 0;
    while i < |table|
      invariant 0 <= i <= |table|
      invariant FirstAccepting(table, name, data) == FirstAccepting(table[i..], name, data)
    {
      assert table[i..][1..] == table[i + 1..];
      match table[i].probe {
        case ByBytes(t, n) =>
          if t(data) {
            return Some(table[i].kind);
          } else if n.Some? && n.value(name) {
            return Some(table[i].kind);
          }
        case ByName(n) =>
          if n(name) {
            return Some(table[i].kind);
          }
      }
      i := i + 1;
    }
    assert table[i..] == [];
    return None;
  }

  lemma {:induction false} FirstAcceptingSkips(table: seq<Entry>, name: string, data: seq<bv8>, k: nat)
    requires k <= |table|
    requires forall j :: 0 <= j < k ==> !Accepts(table[j], name, data)
    ensures FirstAccepting(table, name, data) == FirstAccepting(table[k..], name, data)
  {
    if k > 0 {
      assert !Accepts(table[0], name, data);
      FirstAcceptingSkips(table[1..], name, data, k - 1);
      assert table[1..][k - 1..] == table[k..];
    }
  }

  /** A movie header that none of the first five readers claims goes to aviImage. */
  lemma MoviesGoToAvi(o: OtherTests, name: string, data: seq<bv8>)
    requires !o.stub(data) && !o.exr(data) && !o.iff(data) && !o.mapFile(data) && !o.hdr(data)
    requires AviImage.Test(data)
    ensures FirstAccepting(ImageFiletypes(o), name, data) == Some(Avi)
  {
    var t := ImageFiletypes(o);
    FirstAcceptingSkips(t, name, data, 5);
    assert t[5..][0] == t[5];
  }

  /** Bytes shorter than twelve and no earlier claim leave the file to the name test of
      ImageMagick's reader. */
  lemma ShortFilesGoToWand(o: OtherTests, name: string, data: seq<bv8>)
    requires !o.stub(data) && !o.exr(data) && !o.iff(data) && !o.mapFile(data) && !o.hdr(data)
    requires |data| < 12 && o.wandName(name)
    ensures FirstAccepting(ImageFiletypes(o), name, data) == Some(Wand)
  {
    var t := ImageFiletypes(o);
    FirstAcceptingSkips(t, name, data, 6);
    assert t[6..][0] == t[6];
  }

  // ---------------------------------------------------------------- quoting

  /** The message text of a name: every '%' doubled, so that printf shows the name. */
  function DoublePercent(s: string): (q: string)
  {
    if s == [] then [] else (if s[0] == '%' then "%%" else [s[0]]) + DoublePercent(s[1..])
  }

  lemma {:induction false} DoublePercentAppend(a: string, b: string)
    ensures DoublePercent(a + b) == DoublePercent(a) + DoublePercent(b)
  {
    if a == [] {
      assert a + b == b;
    } else {
      assert (a + b)[1..] == a[1..] + b;
      DoublePercentAppend(a[1..], b);
    }
  }

  lemma {:induction false} DoublePercentPlain(s: string)
    requires '%' !in s
    ensures DoublePercent(s) == s
  {
    if s != [] {
      DoublePercentPlain(s[1..]);
      assert s == [s[0]] + s[1..];
    }
  }

  /** The quoted name grows by one character per '%'. */
  lemma {:induction false} DoublePercentLength(s: string)
    ensures |DoublePercent(s)| == |s| + Count(s, '%')
  {
    if s != [] {
      DoublePercentLength(s[1..]);
    }
  }

  /** printf's reading of a format: "%%" prints one '%'. */
  function PrintfUnquote(q: string): string
  {
    if |q| >= 2 && q[0] == '%' && q[1] == '%' then "%" + PrintfUnquote(q[2..])
    else if q == [] then []
    else [q[0]] + PrintfUnquote(q[1..])
  }

  /** Printing the quoted name shows the name itself. */
  lemma {:induction false} DoublePercentRoundTrip(s: string)
    ensures PrintfUnquote(DoublePercent(s)) == s
  {
    if s != [] {
      DoublePercentRoundTrip(s[1..]);
      var q := DoublePercent(s);
      if s[0] == '%' {
        assert q == "%%" + DoublePercent(s[1..]);
        assert q[2..] == DoublePercent(s[1..]);
      } else {
        assert q == [s[0]] + DoublePercent(s[1..]);
        assert q[1..] == DoublePercent(s[1..]);
      }
      assert s == [s[0]] + s[1..];
    }
  }

  /** DoublePercent over the text up to and including the next '%'. */
  lemma QuoteStep(root: string, j: nat, m: nat)
    requires j <= m < |root| && root[m] == '%' && '%' !in root[j..m]
    ensures DoublePercent(root[..m + 1]) == DoublePercent(root[..j]) + root[j..m] + "%%"
  {
    assert root[..m + 1] == root[..j] + root[j..m] + [root[m]];
    DoublePercentAppend(root[..j] + root[j..m], [root[m]]);
    DoublePercentAppend(root[..j], root[j..m]);
    DoublePercentPlain(root[j..m]);
    assert DoublePercent([root[m]]) == "%%";
  }

  /** What a search from loc finds in a text whose first loc characters are already done. */
  lemma FindInRest(quoted: string, done: string, rest: string)
    requires quoted == done + rest
    ensures FindChar(quoted, '%', |done|).None? ==> '%' !in rest
    ensures FindChar(quoted, '%', |done|).Some? ==>
      var m := FindChar(quoted, '%', |done|).value - |done|;
      m < |rest| && rest[m] == '%' && '%' !in rest[..m]
  {
    var r := FindChar(quoted, '%', |done|);
    if r.None? {
      forall k | 0 <= k < |rest| ensures rest[k] != '%' {
        assert quoted[|done| + k] == rest[k];
      }
    } else {
      var m := r.value - |done|;
      assert quoted[r.value] == rest[m];
      forall k | 0 <= k < m ensures rest[..m][k] != '%' {
        assert quoted[|done| + k] == rest[k];
      }
    }
  }

  /** One turn of the quoting loop: the '%' found at p is the next one of root, and after
      doubling it the text is quoted one character further. */
  lemma QuoteAdvance(root: string, j: nat, quoted: string, p: nat)
    requires j <= |root| && quoted == DoublePercent(root[..j]) + root[j..]
    requires FindChar(quoted, '%', |DoublePercent(root[..j])|) == Some(p)
    ensures var m := j + (p - |DoublePercent(root[..j])|);
      m < |root| && p + 2 == |DoublePercent(root[..m + 1])|
      && quoted[..p] + "%" + quoted[p..] == DoublePercent(root[..m + 1]) + root[m + 1..]
  {
    var done := DoublePercent(root[..j]);
    var rest := root[j..];
    FindInRest(quoted, done, rest);
    var k := p - |done|;
    var m := j + k;
    assert rest[..k] == root[j..m] && rest[k] == root[m] && rest[k + 1..] == root[m + 1..];
    QuoteStep(root, j, m);
    DoubleAt(quoted, done, rest, k);
  }

  /** Inserting a '%' before the one found k characters into the rest doubles it. */
  lemma DoubleAt(quoted: string, done: string, rest: string, k: nat)
    requires quoted == done + rest && k < |rest| && rest[k] == '%'
    ensures quoted[..|done| + k] + "%" + quoted[|done| + k..] == done + rest[..k] + "%%" + rest[k + 1..]
  {
    var p := |done| + k;
    assert quoted[..p] == done + rest[..k];
    assert quoted[p..] == rest[k..];
    assert rest[k..] == [rest[k]] + rest[k + 1..];
  }

  /** When no '%' is left, the text is quoted throughout. */
  lemma QuoteFinish(root: string, j: nat, quoted: string)
    requires j <= |root| && quoted == DoublePercent(root[..j]) + root[j..]
    requires FindChar(quoted, '%', |DoublePercent(root[..j])|).None?
    ensures quoted == DoublePercent(root)
  {
    FindInRest(quoted, DoublePercent(root[..j]), root[j..]);
    DoublePercentAppend(root[..j], root[j..]);
    DoublePercentPlain(root[j..]);
    assert root[..j] + root[j..] == root;
  }

  /** The quoting loop of `guess_image`: find the next '%' from loc, insert another before
      it, and continue after the pair. */
  method QuotePercent(root: string) returns (quoted: string)
    ensures quoted == DoublePercent(root)
  {
    quoted := root;
    var loc := 0;
    ghost var j := 0;
    assert root[..0] == [];
    var stop := false;
    while !stop
      invariant j <= |root| && quoted == DoublePercent(root[..j]) + root[j..]
      invariant loc == |DoublePercent(root[..j])|
      invariant stop ==> quoted == DoublePercent(root)
      decreases |root| - j, if stop then 0 else 1
    {
      var found := FindChar(quoted, '%', loc);
      if found.None? {
        QuoteFinish(root, j, quoted);
        stop := true;
      } else {
        var p := found.value;
        QuoteAdvance(root, j, quoted, p);
        j := j + (p - loc);
        j := j + 1;
        quoted := quoted[..p] + "%" + quoted[p..];
        loc := p + 2;
      }
    }
  }
}
