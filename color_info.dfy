/** mrViewer's colour-information panel: the text that "Copy/Color" puts on the clipboard,
    the browser's line filter, and the clamping of a selection to the picture. */
module ColorInfo {
  import opened Wrappers
  import opened Text

  /** A browser line's label with everything up to and including its first tab dropped. A
      label with no tab loses its last character: the source takes size - 1 characters from position 0
      (npos + 1 wraps to 0). */
  function AfterTab(entry: string): string
  {
    match FindChar(entry, '\t', 0)
    case Some(i) => entry[i + 1..]
    case None => if entry == [] then [] else entry[..|entry| - 1]
  }

  /** One round of marker stripping: the first '@' and the first ';' after it, with the
      character before the '@' when there is one, are cut out; None when there is no such
      pair. */
  function StripStep(line: string): (r: Option<string>)
    ensures r.Some? ==> |r.value| < |line|
  {
    match FindChar(line, '@', 0)
    case None => None
    case Some(st) =>
      match FindChar(line, ';', st)
      case None => None
      case Some(la) => Some(if st > 0 then line[..st - 1] + line[la + 1..] else line[la + 1..])
  }

  /** The line once no '@' is followed by a ';'. */
  function StripMarkers(line: string): (r: string)
    ensures StripStep(r).None? && |r| <= |line|
    decreases |line|
  {
    match StripStep(line)
    case None => line
    case Some(l) => StripMarkers(l)
  }

  /** Stripping is idempotent. */
  lemma StripMarkersIdempotent(line: string)
    ensures StripMarkers(StripMarkers(line)) == StripMarkers(line)
  {
  }

  lemma FindCharAt(s: string, c: char, from: nat, i: nat)
    requires from <= i < |s| && s[i] == c
    requires forall k :: from <= k < i ==> s[k] != c
    ensures FindChar(s, c, from) == Some(i)
  {
  }

  /** A marker "@m;" after a text p without '@' disappears together with p's last
      character; at the very start it disappears alone. */
  lemma StripMarkerCases(p: string, m: string, rest: string)
    requires forall k :: 0 <= k < |p| ==> p[k] != '@'
    requires forall k :: 0 <= k < |m| ==> m[k] != ';'
    ensures |p| > 0 ==> StripMarkers(p + ['@'] + m + [';'] + rest) == StripMarkers(p[..|p| - 1] + rest)
    ensures |p| == 0 ==> StripMarkers(['@'] + m + [';'] + rest) == StripMarkers(rest)
  {
    var s := p + ['@'] + m + [';'] + rest;
    var la := |p| + 1 + |m|;
    FindCharAt(s, '@', 0, |p|);
    FindCharAt(s, ';', |p|, la);
    assert s[la + 1..] == rest;
    if |p| > 0 {
      assert s[..|p| - 1] == p[..|p| - 1];
    } else {
      assert s == ['@'] + m + [';'] + rest;
    }
  }

  /** std::string::find_first_not_of("\t ", from). */
  function FindNonBlank(s: string, from: nat): (r: Option<nat>)
    ensures r.Some? ==> from <= r.value < |s| && !IsBlank(s[r.value])
    ensures r.Some? ==> forall k :: from <= k < r.value ==> IsBlank(s[k])
    ensures r.None? ==> forall k :: from <= k < |s| ==> IsBlank(s[k])
    decreases |s| - from
  {
    if from >= |s| then None
    else if !IsBlank(s[from]) then Some(from)
    else FindNonBlank(s, from + 1)
  }

  /** std::string::find_first_of("\t ", from), with npos read as the size. */
  function FindBlankOrEnd(s: string, from: nat): (r: nat)
    requires from <= |s|
    ensures from <= r <= |s| && (r < |s| ==> IsBlank(s[r]))
    ensures forall k :: from <= k < r ==> !IsBlank(s[k])
    decreases |s| - from
  {
    if from == |s| then |s|
    else if IsBlank(s[from]) then from
    else FindBlankOrEnd(s, from + 1)
  }

  /** A non-empty run of characters other than tab and space. */
  predicate IsWord(w: string)
  {
    |w| > 0 && forall k :: 0 <= k < |w| ==> !IsBlank(w[k])
  }

  /** The tab- and space-separated words of s from index `from` on, as the copy loop finds
      them: from the next non-blank to the next blank or the end. */
  function TokensAt(s: string, from: nat): (r: seq<string>)
    requires from <= |s|
    ensures forall i :: 0 <= i < |r| ==> IsWord(r[i])
    decreases |s| - from
  {
    match FindNonBlank(s, from)
    case None => []
    case Some(st) =>
      var la := FindBlankOrEnd(s, st);
      assert la > st;
      [s[st..la]] + TokensAt(s, la)
  }

  /** The words of a line, in order. */
  function Tokens(s: string): (r: seq<string>)
    ensures forall i :: 0 <= i < |r| ==> IsWord(r[i])
  {
    TokensAt(s, 0)
  }

  /** Each word followed by exactly one space. */
  function Joined(words: seq<string>): string
  {
    if words == [] then [] else words[0] + [' '] + Joined(words[1..])
  }

  /** What "Copy/Color" puts on the clipboard for a browser line. */
  function CopyText(entry: string): string
  {
    [' '] + Joined(Tokens(StripMarkers(AfterTab(entry))))
  }

  lemma FindNonBlankAt(s: string, from: nat, i: nat)
    requires from <= i < |s| && !IsBlank(s[i])
    requires forall k :: from <= k < i ==> IsBlank(s[k])
    ensures FindNonBlank(s, from) == Some(i)
  {
  }

  lemma FindBlankAt(s: string, from: nat, i: nat)
    requires from <= i <= |s| && (i < |s| ==> IsBlank(s[i]))
    requires forall k :: from <= k < i ==> !IsBlank(s[k])
    ensures FindBlankOrEnd(s, from) == i
  {
  }

  /** The copy never holds a tab, starts with a space, and splitting it into words again
      gives back the words of the cleaned line. */
  lemma CopyTextShape(entry: string)
    ensures |CopyText(entry)| > 0 && CopyText(entry)[0] == ' '
    ensures forall k :: 0 <= k < |CopyText(entry)| ==> CopyText(entry)[k] != '\t'
    ensures Tokens(CopyText(entry)) == Tokens(StripMarkers(AfterTab(entry)))
  {
    var words := Tokens(StripMarkers(AfterTab(entry)));
    JoinedHasNoTabs(words);
    TokensOfJoined(words);
  }

  lemma {:induction false} JoinedHasNoTabs(words: seq<string>)
    requires forall i :: 0 <= i < |words| ==> IsWord(words[i])
    ensures forall k :: 0 <= k < |Joined(words)| ==> Joined(words)[k] != '\t'
  {
    if words != [] {
      JoinedHasNoTabs(words[1..]);
      var j := Joined(words);
      assert j == words[0] + [' '] + Joined(words[1..]);
      forall k | 0 <= k < |j| ensures j[k] != '\t' {
        if k < |words[0]| {
          assert j[k] == words[0][k];
        } else if k > |words[0]| {
          assert j[k] == Joined(words[1..])[k - |words[0]| - 1];
        }
      }
    }
  }

  /** Re-splitting " w1 w2 ... wn " gives back w1 .. wn. */
  lemma TokensOfJoined(words: seq<string>)
    requires forall i :: 0 <= i < |words| ==> IsWord(words[i])
    ensures Tokens([' '] + Joined(words)) == words
  {
    TokensAtJoined([' '] + Joined(words), 0, words);
  }

  lemma {:induction false} TokensAtJoined(s: string, from: nat, words: seq<string>)
    requires from <= |s| && s[from..] == [' '] + Joined(words)
    requires forall i :: 0 <= i < |words| ==> IsWord(words[i])
    ensures TokensAt(s, from) == words
    decreases |words|
  {
    if words == [] {
      FindNonBlankNone(s, from);
    } else {
      var w := words[0];
      var la := from + 1 + |w|;
      JoinedHead(s, from, words);
      FindNonBlankAt(s, from, from + 1);
      FindBlankAt(s, from + 1, la);
      TokensAtJoined(s, la, words[1..]);
    }
  }

  /** Where the first word of a joined text lies. */
  lemma JoinedHead(s: string, from: nat, words: seq<string>)
    requires from <= |s| && s[from..] == [' '] + Joined(words) && words != []
    ensures var w := words[0]; var la := from + 1 + |w|;
      la < |s| && s[from] == ' ' && s[la] == ' '
      && (forall k :: 0 <= k < |w| ==> s[from + 1 + k] == w[k])
      && s[from + 1..la] == w && s[la..] == [' '] + Joined(words[1..])
  {
    var w := words[0];
    var la := from + 1 + |w|;
    var r := s[from..];
    var rest := [' '] + Joined(words[1..]);
    assert r == [' '] + w + rest;
    assert r[0] == ' ' && r[1 + |w|] == ' ';
    forall k | 0 <= k < |w|
      ensures s[from + 1 + k] == w[k]
    {
      assert s[from + 1 + k] == r[1 + k];
    }
    assert s[from + 1..la] == w;
    assert s[la..] == r[1 + |w|..];
  }

  lemma FindNonBlankNone(s: string, from: nat)
    requires from <= |s| && s[from..] == [' ']
    ensures FindNonBlank(s, from) == None
  {
    assert s[from] == ' ';
  }

  /** `copy_color_cb`: the text copied for the selected line, none when the selection is
      outside the browser's lines. */
  method CopyColor(value: int, entries: seq<string>) returns (copy: Option<string>)
    ensures value < 0 || value >= |entries| ==> copy == None
    ensures 0 <= value < |entries| ==> copy == Some(CopyText(entries[value]))
  {
    if value < 0 || value >= |entries| {
      return None;
    }
    var line := entries[value];
    match FindChar(line, '\t', 0) {
      case Some(start) => line := line[start + 1..];
      case None => if line != [] { line := line[..|line| - 1]; }
    }
    line := RemoveMarkers(line);
    var text := SpaceWords(line);
    return Some(text);
  }

  /** The marker loop of `copy_color_cb`. */
  method RemoveMarkers(s: string) returns (line: string)
    ensures line == StripMarkers(s)
  {
    line := s;
    var stop := false;
    while !stop
      invariant StripMarkers(line) == StripMarkers(s)
      invariant stop ==> StripStep(line).None?
      decreases |line|, if stop then 0 else 1
    {
      var at := FindChar(line, '@', 0);
      if at.None? {
        stop := true;
      } else {
        var start := at.value;
        var semi := FindChar(line, ';', start);
        if semi.None? {
          stop := true;
        } else {
          var last := semi.value;
          if start > 0 {
            line := line[..start - 1] + line[last + 1..];
          } else {
            line := line[last + 1..];
          }
        }
      }
    }
  }

  /** The word loop of `copy_color_cb`: a space, then every word followed by a space. */
  method SpaceWords(line: string) returns (text: string)
    ensures text == [' '] + Joined(Tokens(line))
  {
    text := [' '];
    var last := 0;
    var stop := false;
    while !stop
      invariant last <= |line|
      invariant text + Joined(TokensAt(line, last)) == [' '] + Joined(Tokens(line))
      invariant stop ==> TokensAt(line, last) == []
      decreases |line| - last, if stop then 0 else 1
    {
      var next := FindNonBlank(line, last);
      if next.None? {
        stop := true;
      } else {
        var start := next.value;
        ghost var before := last;
        last := FindBlankOrEnd(line, start);
        ghost var rest := TokensAt(line, last);
        assert TokensAt(line, before) == [line[start..last]] + rest;
        assert ([line[start..last]] + rest)[1..] == rest;
        text := text + line[start..last] + [' '];
      }
    }
  }

  /** The lines of the colour browser that may stay selected: 1 to 4 and 7 to 10. */
  predicate Selectable(line: int)
  {
    !((line < 1 || line > 10) || (line > 4 && line < 7))
  }

  lemma SelectableLines(line: int)
    ensures Selectable(line) <==> line in {1, 2, 3, 4, 7, 8, 9, 10}
  {
  }

  /** mrv::ColorBrowser: the browser's selected line (-1 for none). */
  class ColorBrowser {
    var value: int

    constructor ()
      ensures value == -1
    {
      value := -1;
    }

    /** `handle(event)`. A right-button push opens the copy menu when a line is selected;
        any other event lets the browser pick `picked` and returns its result `ok`, unless
        the line is not selectable, which clears the selection. */
    method Handle(rightPush: bool, picked: int, ok: int) returns (r: int)
      modifies this
      ensures rightPush ==> value == old(value) && r == (if old(value) < 0 then 0 else 1)
      ensures !rightPush && Selectable(picked) ==> value == picked && r == ok
      ensures !rightPush && !Selectable(picked) ==> value == -1 && r == 0
    {
      if rightPush {
        if value < 0 {
          return 0;
        }
        return 1;
      }
      value := picked;
      var line := value;
      if (line < 1 || line > 10) || (line > 4 && line < 7) {
        value := -1;
        return 0;
      }
      return ok;
    }
  }

  /** A coordinate cut off at the last pixel of an axis `extent` pixels long. */
  function Cut(v: int, extent: nat): int
  {
    if v >= extent then extent - 1 else v
  }

  /** The final inclusive bounds on one axis for a selection starting at lo of the given
      size, over a picture `extent` pixels long. */
  function AxisBounds(lo: int, size: int, extent: nat): (int, int)
  {
    var a := Cut(Max(lo, 0), extent);
    var b := Cut(Max(lo + size - 1, 0), extent);
    (Min(a, b), Max(a, b))
  }

  /** Over a non-empty picture the bounds are ordered pixels of the picture, and a selection
      that lies inside the picture is kept as it is. */
  lemma AxisBoundsInPicture(lo: int, size: int, extent: nat)
    ensures extent >= 1 ==> 0 <= AxisBounds(lo, size, extent).0 <= AxisBounds(lo, size, extent).1 < extent
    ensures 0 <= lo && 1 <= size && lo + size <= extent ==> AxisBounds(lo, size, extent) == (lo, lo + size - 1)
  {
  }

  /** The tail of `selection_to_coord`: the inclusive bounds of a selection starting at
      (xmin, ymin) of w by h pixels, cut off below at 0. */
  method SelectionToCoord(x0: int, y0: int, w: int, h: int) returns (xmin: int, ymin: int, xmax: int, ymax: int)
    ensures xmin == Max(x0, 0) && ymin == Max(y0, 0)
    ensures xmax == Max(x0 + w - 1, 0) && ymax == Max(y0 + h - 1, 0)
  {
    xmin, ymin := x0, y0;
    xmax := xmin + w - 1;
    ymax := ymin + h - 1;
    if xmin < 0 { xmin := 0; }
    if ymin < 0 { ymin := 0; }
    if xmax < 0 { xmax := 0; }
    if ymax < 0 { ymax := 0; }
  }

  /** The clamp and swap in `update`: the bounds are cut off at the picture's last column
      and row, then put in order. */
  method ClampToPicture(x0: int, y0: int, x1: int, y1: int, width: nat, height: nat)
    returns (xmin: int, ymin: int, xmax: int, ymax: int)
    ensures xmin == Min(Cut(x0, width), Cut(x1, width)) && xmax == Max(Cut(x0, width), Cut(x1, width))
    ensures ymin == Min(Cut(y0, height), Cut(y1, height)) && ymax == Max(Cut(y0, height), Cut(y1, height))
  {
    xmin, ymin, xmax, ymax := x0, y0, x1, y1;
    if xmin >= width { xmin := width - 1; }
    if ymin >= height { ymin := height - 1; }
    if xmax >= width { xmax := width - 1; }
    if ymax >= height { ymax := height - 1; }
    if xmax < xmin {
      var tmp := xmax;
      xmax := xmin;
      xmin := tmp;
    }
    if ymax < ymin {
      var tmp := ymax;
      ymax := ymin;
      ymin := tmp;
    }
  }

  /** The bounds `update` reads the pixels within: the selection's coordinates from
      `selection_to_coord`, then the clamp to the picture. On each axis they are the
      AxisBounds of the selection, so over a non-empty picture they lie inside it. */
  method SelectionBounds(x0: int, y0: int, w: int, h: int, width: nat, height: nat)
    returns (xmin: int, ymin: int, xmax: int, ymax: int)
    ensures (xmin, xmax) == AxisBounds(x0, w, width) && (ymin, ymax) == AxisBounds(y0, h, height)
    ensures width >= 1 ==> 0 <= xmin <= xmax < width
    ensures height >= 1 ==> 0 <= ymin <= ymax < height
  {
    var a, b, c, d := SelectionToCoord(x0, y0, w, h);
    xmin, ymin, xmax, ymax := ClampToPicture(a, b, c, d, width, height);
    AxisBoundsInPicture(x0, w, width);
    AxisBoundsInPicture(y0, h, height);
  }
}
