/** FLTK's UTF-8 to MacRoman converter: the table of MacRoman code points above 0x7F, the
    binary search over it, and the bounded writer that converts a UTF-8 string into a
    NUL-terminated MacRoman buffer while counting every character of the input. */
module Utf8ToMac {
  import opened Wrappers

  /** An unsigned char. */
  newtype Byte = x: int | 0 <= x < 256

  /** One row of `mactable`: a Unicode code point and the MacRoman byte that draws it. */
  datatype MacEntry = MacEntry(ucs: nat, mac: Byte)

  /** The table in eight parts of 16 rows each, in the order the source lists them. */
  function Part0(): (t: seq<MacEntry>)
    ensures |t| == 16
  {
    [
      MacEntry(0x00A0, 0xCA), MacEntry(0x00A1, 0xC1), MacEntry(0x00A2, 0xA2), MacEntry(0x00A3, 0xA3),
      MacEntry(0x00A4, 0xDB), MacEntry(0x00A5, 0xB4), MacEntry(0x00A7, 0xA4), MacEntry(0x00A8, 0xAC),
      MacEntry(0x00A9, 0xA9), MacEntry(0x00AA, 0xBB), MacEntry(0x00AB, 0xC7), MacEntry(0x00AC, 0xC2),
      MacEntry(0x00AE, 0xA8), MacEntry(0x00AF, 0xF8), MacEntry(0x00B0, 0xA1), MacEntry(0x00B1, 0xB1)
    ]
  }

  function Part1(): (t: seq<MacEntry>)
    ensures |t| == 16
  {
    [
      MacEntry(0x00B4, 0xAB), MacEntry(0x00B5, 0xB5), MacEntry(0x00B6, 0xA6), MacEntry(0x00B7, 0xE1),
      MacEntry(0x00B8, 0xFC), MacEntry(0x00BA, 0xBC), MacEntry(0x00BB, 0xC8), MacEntry(0x00BF, 0xC0),
      MacEntry(0x00C0, 0xCB), MacEntry(0x00C1, 0xE7), MacEntry(0x00C2, 0xE5), MacEntry(0x00C3, 0xCC),
      MacEntry(0x00C4, 0x80), MacEntry(0x00C5, 0x81), MacEntry(0x00C6, 0xAE), MacEntry(0x00C7, 0x82)
    ]
  }

  function Part2(): (t: seq<MacEntry>)
    ensures |t| == 16
  {
    [
      MacEntry(0x00C8, 0xE9), MacEntry(0x00C9, 0x83), MacEntry(0x00CA, 0xE6), MacEntry(0x00CB, 0xE8),
      MacEntry(0x00CC, 0xED), MacEntry(0x00CD, 0xEA), MacEntry(0x00CE, 0xEB), MacEntry(0x00CF, 0xEC),
      MacEntry(0x00D1, 0x84), MacEntry(0x00D2, 0xF1), MacEntry(0x00D3, 0xEE), MacEntry(0x00D4, 0xEF),
      MacEntry(0x00D5, 0xCD), MacEntry(0x00D6, 0x85), MacEntry(0x00D8, 0xAF), MacEntry(0x00D9, 0xF4)
    ]
  }

  function Part3(): (t: seq<MacEntry>)
    ensures |t| == 16
  {
    [
      MacEntry(0x00DA, 0xF2), MacEntry(0x00DB, 0xF3), MacEntry(0x00DC, 0x86), MacEntry(0x00DF, 0xA7),
      MacEntry(0x00E0, 0x88), MacEntry(0x00E1, 0x87), MacEntry(0x00E2, 0x89), MacEntry(0x00E3, 0x8B),
      MacEntry(0x00E4, 0x8A), MacEntry(0x00E5, 0x8C), MacEntry(0x00E6, 0xBE), MacEntry(0x00E7, 0x8D),
      MacEntry(0x00E8, 0x8F), MacEntry(0x00E9, 0x8E), MacEntry(0x00EA, 0x90), MacEntry(0x00EB, 0x91)
    ]
  }

  function Part4(): (t: seq<MacEntry>)
    ensures |t| == 16
  {
    [
      MacEntry(0x00EC, 0x93), MacEntry(0x00ED, 0x92), MacEntry(0x00EE, 0x94), MacEntry(0x00EF, 0x95),
      MacEntry(0x00F1, 0x96), MacEntry(0x00F2, 0x98), MacEntry(0x00F3, 0x97), MacEntry(0x00F4, 0x99),
      MacEntry(0x00F5, 0x9B), MacEntry(0x00F6, 0x9A), MacEntry(0x00F7, 0xD6), MacEntry(0x00F8, 0xBF),
      MacEntry(0x00F9, 0x9D), MacEntry(0x00FA, 0x9C), MacEntry(0x00FB, 0x9E), MacEntry(0x00FC, 0x9F)
    ]
  }

  function Part5(): (t: seq<MacEntry>)
    ensures |t| == 16
  {
    [
      MacEntry(0x00FF, 0xD8), MacEntry(0x0131, 0xF5), MacEntry(0x0152, 0xCE), MacEntry(0x0153, 0xCF),
      MacEntry(0x0178, 0xD9), MacEntry(0x0192, 0xC4), MacEntry(0x02C6, 0xF6), MacEntry(0x02C7, 0xFF),
      MacEntry(0x02D8, 0xF9), MacEntry(0x02D9, 0xFA), MacEntry(0x02DA, 0xFB), MacEntry(0x02DB, 0xFE),
      MacEntry(0x02DC, 0xF7), MacEntry(0x02DD, 0xFD), MacEntry(0x03C0, 0xB9), MacEntry(0x2013, 0xD0)
    ]
  }

  function Part6(): (t: seq<MacEntry>)
    ensures |t| == 16
  {
    [
      MacEntry(0x2014, 0xD1), MacEntry(0x2018, 0xD4), MacEntry(0x2019, 0xD5), MacEntry(0x201A, 0xE2),
      MacEntry(0x201C, 0xD2), MacEntry(0x201D, 0xD3), MacEntry(0x201E, 0xE3), MacEntry(0x2020, 0xA0),
      MacEntry(0x2021, 0xE0), MacEntry(0x2022, 0xA5), MacEntry(0x2026, 0xC9), MacEntry(0x2030, 0xE4),
      MacEntry(0x2039, 0xDC), MacEntry(0x203A, 0xDD), MacEntry(0x2044, 0xDA), MacEntry(0x2122, 0xAA)
    ]
  }

  function Part7(): (t: seq<MacEntry>)
    ensures |t| == 16
  {
    [
      MacEntry(0x2126, 0xBD), MacEntry(0x2202, 0xB6), MacEntry(0x2206, 0xC6), MacEntry(0x220F, 0xB8),
      MacEntry(0x2211, 0xB7), MacEntry(0x221A, 0xC3), MacEntry(0x221E, 0xB0), MacEntry(0x222B, 0xBA),
      MacEntry(0x2248, 0xC5), MacEntry(0x2260, 0xAD), MacEntry(0x2264, 0xB2), MacEntry(0x2265, 0xB3),
      MacEntry(0x25CA, 0xD7), MacEntry(0x2665, 0xF0), MacEntry(0xFB01, 0xDE), MacEntry(0xFB02, 0xDF)
    ]
  }

  /** `mactable`: the 128 MacRoman characters above 0x7F, keyed by code point. */
  function MacTable(): (t: seq<MacEntry>)
    ensures |t| == 128
  {
    Part0() + Part1() + Part2() + Part3() + Part4() + Part5() + Part6() + Part7()
  }

  /** Each row's code point is larger than the one before it. */
  predicate StepsUp(t: seq<MacEntry>)
  {
    forall i :: 0 < i < |t| ==> t[i - 1].ucs < t[i].ucs
  }

  /** Any row's code point is larger than that of every earlier row. */
  predicate Sorted(t: seq<MacEntry>)
  {
    forall i, j :: 0 <= i < j < |t| ==> t[i].ucs < t[j].ucs
  }

  lemma StepsUpJoin(a: seq<MacEntry>, b: seq<MacEntry>)
    requires StepsUp(a) && StepsUp(b)
    requires |a| > 0 && |b| > 0 && a[|a| - 1].ucs < b[0].ucs
    ensures StepsUp(a + b)
  {
    var t := a + b;
    forall i | 0 < i < |t| ensures t[i - 1].ucs < t[i].ucs {
      if i < |a| {
        assert t[i - 1] == a[i - 1] && t[i] == a[i];
      } else if i == |a| {
        assert t[i - 1] == a[|a| - 1] && t[i] == b[0];
      } else {
        assert t[i - 1] == b[i - 1 - |a|] && t[i] == b[i - |a|];
      }
    }
  }

  lemma {:induction false} StepsUpIsSorted(t: seq<MacEntry>, i: nat, j: nat)
    requires StepsUp(t) && i < j < |t|
    ensures t[i].ucs < t[j].ucs
    decreases j - i
  {
    if i + 1 < j {
      StepsUpIsSorted(t, i + 1, j);
    }
  }

  lemma Part0StepsUp() ensures StepsUp(Part0()) {}
  lemma Part1StepsUp() ensures StepsUp(Part1()) {}
  lemma Part2StepsUp() ensures StepsUp(Part2()) {}
  lemma Part3StepsUp() ensures StepsUp(Part3()) {}
  lemma Part4StepsUp() ensures StepsUp(Part4()) {}
  lemma Part5StepsUp() ensures StepsUp(Part5()) {}
  lemma Part6StepsUp() ensures StepsUp(Part6()) {}
  lemma Part7StepsUp() ensures StepsUp(Part7()) {}

  lemma PartsMeet()
    ensures Part0()[15].ucs < Part1()[0].ucs && Part1()[15].ucs < Part2()[0].ucs
    ensures Part2()[15].ucs < Part3()[0].ucs && Part3()[15].ucs < Part4()[0].ucs
    ensures Part4()[15].ucs < Part5()[0].ucs && Part5()[15].ucs < Part6()[0].ucs
    ensures Part6()[15].ucs < Part7()[0].ucs && Part0()[0].ucs >= 128
  {
  }

  /** The table is sorted by code point, which the binary search of `maclookup` relies on,
      and every code point in it is above 0x7F. */
  lemma MacTableSorted()
    ensures Sorted(MacTable())
    ensures forall i :: 0 <= i < |MacTable()| ==> MacTable()[i].ucs >= 128
  {
    Part0StepsUp(); Part1StepsUp(); Part2StepsUp(); Part3StepsUp();
    Part4StepsUp(); Part5StepsUp(); Part6StepsUp(); Part7StepsUp();
    PartsMeet();
    var t := Part0();
    StepsUpJoin(t, Part1());
    t := t + Part1();
    StepsUpJoin(t, Part2());
    t := t + Part2();
    StepsUpJoin(t, Part3());
    t := t + Part3();
    StepsUpJoin(t, Part4());
    t := t + Part4();
    StepsUpJoin(t, Part5());
    t := t + Part5();
    StepsUpJoin(t, Part6());
    t := t + Part6();
    StepsUpJoin(t, Part7());
    t := t + Part7();
    assert t == MacTable();
    forall i, j | 0 <= i < j < |t| ensures t[i].ucs < t[j].ucs {
      StepsUpIsSorted(t, i, j);
    }
    forall i | 0 <= i < |t| ensures t[i].ucs >= 128 {
      if i > 0 {
        StepsUpIsSorted(t, 0, i);
      }
    }
  }

  /** The first row of t whose code point is ucs. */
  function FindUcs(t: seq<MacEntry>, ucs: nat): (r: Option<nat>)
    ensures r.Some? ==> r.value < |t| && t[r.value].ucs == ucs && forall k :: 0 <= k < r.value ==> t[k].ucs != ucs
    ensures r.None? ==> forall k :: 0 <= k < |t| ==> t[k].ucs != ucs
  {
    if t == [] then None
    else if t[0].ucs == ucs then Some(0)
    else match FindUcs(t[1..], ucs)
      case None => None
      case Some(k) => Some(k + 1)
  }

  /** The byte a table lists for a code point, and 0x7F for one it does not list. */
  function Listed(t: seq<MacEntry>, ucs: nat): Byte
  {
    match FindUcs(t, ucs)
      case None => 127
      case Some(k) => t[k].mac
  }

  /** The byte for a code point under a table: ASCII stays as it is, a listed code point
      gets its listed byte, and anything else becomes 0x7F. */
  function ByteIn(t: seq<MacEntry>, ucs: nat): Byte
  {
    if ucs < 128 then ucs as Byte else Listed(t, ucs)
  }

  /** The MacRoman byte for a code point, under `mactable`. */
  function MacOf(ucs: nat): Byte
  {
    ByteIn(MacTable(), ucs)
  }

  /** In a sorted table every row is what its code point is listed as. */
  lemma ListedRows(t: seq<MacEntry>)
    requires Sorted(t)
    ensures forall i :: 0 <= i < |t| ==> Listed(t, t[i].ucs) == t[i].mac
  {
  }

  /** Every row of the table is what its code point converts to, ASCII converts to itself,
      and a code point above 0x7F that the table does not list converts to 0x7F. */
  lemma MacOfCases(ucs: nat)
    ensures ucs < 128 ==> MacOf(ucs) as nat == ucs
    ensures forall i :: 0 <= i < |MacTable()| ==> MacOf(MacTable()[i].ucs) == MacTable()[i].mac
    ensures ucs >= 128 && (forall i :: 0 <= i < |MacTable()| ==> MacTable()[i].ucs != ucs) ==> MacOf(ucs) == 127
  {
    MacOfRows();
    if ucs >= 128 && (forall i :: 0 <= i < |MacTable()| ==> MacTable()[i].ucs != ucs) {
      UnlistedIs7F(MacTable(), ucs);
    }
  }

  /** Every row of the table converts to its listed byte. */
  lemma MacOfRows()
    ensures forall i :: 0 <= i < |MacTable()| ==> MacOf(MacTable()[i].ucs) == MacTable()[i].mac
  {
    var t := MacTable();
    MacTableSorted();
    ListedRows(t);
    forall i | 0 <= i < |t|
      ensures MacOf(t[i].ucs) == t[i].mac
    {
      assert t[i].ucs >= 128;
    }
  }

  /** A code point no row lists is found nowhere. */
  lemma UnlistedIs7F(t: seq<MacEntry>, ucs: nat)
    requires forall i :: 0 <= i < |t| ==> t[i].ucs != ucs
    ensures Listed(t, ucs) == 127
  {
  }

  /** The `while (a < b)` binary search of `maclookup` over a sorted table. */
  method Search(t: seq<MacEntry>, ucs: nat) returns (r: Byte)
    requires Sorted(t)
    ensures r == Listed(t, ucs)
  {
    var a, b := 0, |t|;
    while a < b
      invariant 0 <= a <= b <= |t|
      invariant forall i :: 0 <= i < a ==> t[i].ucs < ucs
      invariant forall i :: b <= i < |t| ==> t[i].ucs > ucs
    {
      var c := (a + b) / 2;
      if ucs < t[c].ucs {
        b := c;
      } else if ucs > t[c].ucs {
        a := c + 1;
      } else {
        return t[c].mac;
      }
    }
    return 127;
  }

  /** `maclookup(ucs)`, over a sorted table t (the source's is `mactable`, for which
      `MacOfCases` states the outcome). */
  method MacLookup(t: seq<MacEntry>, ucs: nat) returns (r: Byte)
    requires Sorted(t)
    ensures r == ByteIn(t, ucs)
  {
    if ucs < 128 {
      return ucs as Byte;
    }
    r := Search(t, ucs);
  }

  /** `utf8decode`, which is not part of this model, is a parameter: given the bytes from a
      position to the end of the input it yields a code point and the number of bytes it
      used, and it always uses at least one byte. */
  ghost predicate DecoderAdvances(decode: seq<Byte> -> (nat, nat))
  {
    forall s: seq<Byte> :: |s| > 0 ==> decode(s).1 >= 1
  }

  /** The code point of the character starting at byte p: a byte below 0x80 stands for
      itself, anything else is decoded as UTF-8. */
  function CodePoint(src: seq<Byte>, p: nat, decode: seq<Byte> -> (nat, nat)): nat
    requires p < |src|
  {
    if src[p] < 0x80 then src[p] as nat else decode(src[p..]).0
  }

  /** The position just past the character starting at byte p. */
  function Next(src: seq<Byte>, p: nat, decode: seq<Byte> -> (nat, nat)): (q: nat)
    requires p < |src| && DecoderAdvances(decode)
    ensures q > p
  {
    if src[p] < 0x80 then p + 1 else p + decode(src[p..]).1
  }

  /** The text of the input from byte p on under table t, one byte per character; the
      MacRoman text is the one under `mactable`. */
  function MacText(t: seq<MacEntry>, src: seq<Byte>, p: nat, decode: seq<Byte> -> (nat, nat)): seq<Byte>
    requires DecoderAdvances(decode)
    decreases |src| - p
  {
    if p >= |src| then []
    else [ByteIn(t, CodePoint(src, p, decode))] + MacText(t, src, Next(src, p, decode), decode)
  }

  /** Each character takes at least one byte of the input, so the text is never longer than
      the input; the returned count therefore fits the unsigned srclen. */
  lemma {:induction false} MacTextNoLonger(t: seq<MacEntry>, src: seq<Byte>, p: nat, decode: seq<Byte> -> (nat, nat))
    requires DecoderAdvances(decode)
    ensures |MacText(t, src, p, decode)| <= if p >= |src| then 0 else |src| - p
    decreases |src| - p
  {
    if p < |src| {
      MacTextNoLonger(t, src, Next(src, p, decode), decode);
    }
  }

  /** An ASCII input converts to itself, whatever the decoder does. */
  lemma {:induction false} MacTextOfAscii(t: seq<MacEntry>, src: seq<Byte>, p: nat, decode: seq<Byte> -> (nat, nat))
    requires DecoderAdvances(decode) && p <= |src|
    requires forall i :: p <= i < |src| ==> src[i] < 0x80
    ensures MacText(t, src, p, decode) == src[p..]
    decreases |src| - p
  {
    if p < |src| {
      MacTextOfAscii(t, src, p + 1, decode);
      assert src[p..] == [src[p]] + src[p + 1..];
    }
  }

  /** One character of the text read off at byte p. */
  lemma MacTextStep(t: seq<MacEntry>, src: seq<Byte>, p: nat, decode: seq<Byte> -> (nat, nat), text: seq<Byte>, count: nat)
    requires DecoderAdvances(decode) && p < |src|
    requires count <= |text| && MacText(t, src, p, decode) == text[count..]
    ensures count < |text| && text[count] == ByteIn(t, CodePoint(src, p, decode))
    ensures MacText(t, src, Next(src, p, decode), decode) == text[count + 1..]
  {
    assert text[count..][0] == text[count] && text[count..][1..] == text[count + 1..];
  }

  /** One step of the conversion loop: the MacRoman byte of the character at p and the
      position after it. */
  method ConvertChar(t: seq<MacEntry>, src: seq<Byte>, p: nat, decode: seq<Byte> -> (nat, nat)) returns (m: Byte, q: nat)
    requires p < |src| && DecoderAdvances(decode) && Sorted(t)
    ensures m == ByteIn(t, CodePoint(src, p, decode)) && q == Next(src, p, decode)
  {
    var c := src[p];
    if c < 0x80 {
      m, q := c, p + 1;
    } else {
      var (ucs, len) := decode(src[p..]);
      m := MacLookup(t, ucs);
      q := p + len;
    }
  }

  /** The `for (;;)` loop of `utf8tomac` for dstlen > 0: it writes characters until the
      input ends (done) or dst is full, and puts the NUL after the last character or over
      it. */
  method Fill(t: seq<MacEntry>, src: seq<Byte>, dst: array<Byte>, dstlen: nat, decode: seq<Byte> -> (nat, nat))
    returns (p: nat, count: nat, done: bool)
    requires 0 < dstlen <= dst.Length && DecoderAdvances(decode) && Sorted(t)
    modifies dst
    ensures var text := MacText(t, src, 0, decode);
      count <= |text| && MacText(t, src, p, decode) == text[count..]
      && (done ==> count == |text| && count < dstlen && dst[..count] == text && dst[count] == 0)
      && (!done ==> count == dstlen && dst[..count - 1] == text[..count - 1] && dst[count - 1] == 0)
    ensures forall k :: (if done then count + 1 else count) <= k < dst.Length ==> dst[k] == old(dst[k])
  {
    ghost var text := MacText(t, src, 0, decode);
    p, count := 0, 0;
    while true
      invariant count < dstlen
      invariant count <= |text| && MacText(t, src, p, decode) == text[count..]
      invariant forall k :: 0 <= k < count ==> dst[k] == text[k]
      invariant forall k :: count <= k < dst.Length ==> dst[k] == old(dst[k])
      decreases |src| - p
    {
      if p >= |src| {
        EndText(dst, count, text);
        return p, count, true;
      }
      var m, q := Emit(t, src, p, decode, text, count);
      dst[count] := m;
      p, count := q, count + 1;
      if count >= dstlen {
        EndText(dst, count - 1, text[..count - 1]);
        return p, count, false;
      }
    }
  }

  /** The NUL written after a text already in dst[..n]. */
  method EndText(dst: array<Byte>, n: nat, ghost text: seq<Byte>)
    requires n < dst.Length && n == |text|
    requires forall k :: 0 <= k < n ==> dst[k] == text[k]
    modifies dst
    ensures dst[..n] == text && dst[n] == 0
    ensures forall k :: 0 <= k < dst.Length && k != n ==> dst[k] == old(dst[k])
  {
    dst[n] := 0;
    assert forall k :: 0 <= k < n ==> dst[..n][k] == text[k];
  }

  /** One turn of the conversion loop seen from the whole text: the byte it writes is the
      next one of the text, and the rest of the input converts to the rest of the text. */
  method Emit(t: seq<MacEntry>, src: seq<Byte>, p: nat, decode: seq<Byte> -> (nat, nat), ghost text: seq<Byte>, ghost count: nat)
    returns (m: Byte, q: nat)
    requires DecoderAdvances(decode) && p < |src| && Sorted(t)
    requires count <= |text| && MacText(t, src, p, decode) == text[count..]
    ensures p < q && count < |text| && m == text[count]
    ensures MacText(t, src, q, decode) == text[count + 1..]
  {
    m, q := ConvertChar(t, src, p, decode);
    MacTextStep(t, src, p, decode, text, count);
  }

  /** The `while (p < e)` loop of `utf8tomac`: it counts the characters left from p on. */
  method Measure(t: seq<MacEntry>, src: seq<Byte>, p0: nat, count0: nat, decode: seq<Byte> -> (nat, nat))
    returns (count: nat)
    requires DecoderAdvances(decode)
    ensures count == count0 + |MacText(t, src, p0, decode)|
  {
    var p := p0;
    count := count0;
    while p < |src|
      invariant count + |MacText(t, src, p, decode)| == count0 + |MacText(t, src, p0, decode)|
      decreases |src| - p
    {
      if src[p] < 0x80 {
        p := p + 1;
      } else {
        var (_, len) := decode(src[p..]);
        p := p + len;
      }
      count := count + 1;
    }
  }

  /** `utf8tomac(src, srclen, dst, dstlen)`, with src holding the srclen input bytes. It
      writes the MacRoman text into dst[0..dstlen), cutting it short so that a NUL always
      ends what is written, and returns the length of the whole text. */
  method Convert(src: seq<Byte>, dst: array<Byte>, dstlen: nat, decode: seq<Byte> -> (nat, nat))
    returns (count: nat)
    requires dstlen <= dst.Length && DecoderAdvances(decode)
    modifies dst
    ensures count == |MacText(MacTable(), src, 0, decode)|
    ensures forall k :: Min(count + 1, dstlen) <= k < dst.Length ==> dst[k] == old(dst[k])
    ensures 0 < dstlen && count < dstlen ==> dst[..count] == MacText(MacTable(), src, 0, decode) && dst[count] == 0
    ensures 0 < dstlen <= count ==>
      dst[..dstlen - 1] == MacText(MacTable(), src, 0, decode)[..dstlen - 1] && dst[dstlen - 1] == 0
  {
    MacTableSorted();
    var p: nat := 0;
    count := 0;
    if dstlen > 0 {
      var done;
      p, count, done := Fill(MacTable(), src, dst, dstlen, decode);
      if done {
        return;
      }
    }
    count := Measure(MacTable(), src, p, count, decode);
  }
}
