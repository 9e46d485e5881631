/** Character and string helpers: C-library character classes, std::string::find, atoi. */
module Text {
  import opened Wrappers

  predicate IsDigit(c: char) { '0' <= c <= '9' }

  /** The two blanks that the scanners of this program skip: space and tab. */
  predicate IsBlank(c: char) { c == ' ' || c == '\t' }

  /** C isspace in the "C" locale. */
  predicate IsCSpace(c: char) { c == ' ' || c == '\t' || c == '\n' || c == '\U{B}' || c == '\U{C}' || c == '\r' }

  predicate AllDigits(s: seq<char>) { forall i :: 0 <= i < |s| ==> IsDigit(s[i]) }

  /** Occurrences of c in s. */
  function Count(s: seq<char>, c: char): (n: nat)
    ensures n <= |s|
    ensures n == 0 <==> c !in s
  {
    if s == [] then 0 else (if s[0] == c then 1 else 0) + Count(s[1..], c)
  }

  lemma {:induction false} CountAppend(a: seq<char>, b: seq<char>, c: char)
    ensures Count(a + b, c) == Count(a, c) + Count(b, c)
  {
    if a == [] {
      assert a + b == b;
    } else {
      assert (a + b)[1..] == a[1..] + b;
      CountAppend(a[1..], b, c);
    }
  }

  /** std::string::find(c, from): the first index >= from holding c. */
  function FindChar(s: seq<char>, c: char, from: nat): (r: Option<nat>)
    decreases |s| - from
    ensures r.Some? ==> from <= r.value < |s| && s[r.value] == c
    ensures r.Some? ==> forall k :: from <= k < r.value ==> s[k] != c
    ensures r.None? ==> forall k :: from <= k < |s| ==> s[k] != c
  {
    if from >= |s| then None
    else if s[from] == c then Some(from)
    else FindChar(s, c, from + 1)
  }

  predicate OccursAt(s: seq<char>, pat: seq<char>, i: nat)
  {
    i + |pat| <= |s| && s[i..i + |pat|] == pat
  }

  /** std::string::find(pat, from): the first index >= from where pat occurs. */
  function FindSubFrom(s: seq<char>, pat: seq<char>, from: nat): (r: Option<nat>)
    decreases |s| - from
    ensures r.Some? ==> from <= r.value && OccursAt(s, pat, r.value)
    ensures r.Some? ==> forall k :: from <= k < r.value ==> !OccursAt(s, pat, k)
    ensures r.None? ==> forall k :: from <= k ==> !OccursAt(s, pat, k)
  {
    if from + |pat| > |s| then None
    else if s[from..from + |pat|] == pat then Some(from)
    else FindSubFrom(s, pat, from + 1)
  }

  function FindSub(s: seq<char>, pat: seq<char>): (r: Option<nat>)
    ensures r.Some? ==> OccursAt(s, pat, r.value)
    ensures r.Some? ==> forall k :: 0 <= k < r.value ==> !OccursAt(s, pat, k)
    ensures r.None? ==> forall k :: !OccursAt(s, pat, k)
  {
    FindSubFrom(s, pat, 0)
  }

  predicate Contains(s: seq<char>, pat: seq<char>) { FindSub(s, pat).Some? }

  function DigitValue(c: char): (d: nat)
    requires IsDigit(c)
    ensures d <= 9
  {
    (c as int) - ('0' as int)
  }

  /** The number written by the longest prefix of digits of s, and that prefix's length. */
  function LeadingDigits(s: seq<char>): (r: (nat, nat))
    ensures r.1 <= |s| && AllDigits(s[..r.1])
    ensures r.1 < |s| ==> !IsDigit(s[r.1])
  {
    LeadingDigitsAcc(s, 0, 0)
  }

  function LeadingDigitsAcc(s: seq<char>, i: nat, acc: nat): (r: (nat, nat))
    requires i <= |s| && AllDigits(s[..i])
    decreases |s| - i
    ensures i <= r.1 <= |s| && AllDigits(s[..r.1])
    ensures r.1 < |s| ==> !IsDigit(s[r.1])
  {
    if i < |s| && IsDigit(s[i]) then
      assert s[..i + 1] == s[..i] + [s[i]];
      LeadingDigitsAcc(s, i + 1, acc * 10 + DigitValue(s[i]))
    else (acc, i)
  }

  /** C atoi: leading white space, an optional sign, then the longest run of digits.
      Overflow (undefined in C) is not modelled: the value is the exact integer. */
  function Atoi(s: seq<char>): int
  {
    if |s| > 0 && IsCSpace(s[0]) then Atoi(s[1..])
    else if |s| > 0 && s[0] == '-' then 0 - LeadingDigits(s[1..]).0
    else if |s| > 0 && s[0] == '+' then LeadingDigits(s[1..]).0
    else LeadingDigits(s).0
  }

  /** Decimal digits of a natural number, as printf("%d") writes them. */
  function NatToString(n: nat): (s: seq<char>)
    ensures |s| >= 1 && AllDigits(s)
  {
    if n < 10 then [DigitChar(n)] else NatToString(n / 10) + [DigitChar(n % 10)]
  }

  function DigitChar(d: nat): (c: char)
    requires d < 10
    ensures IsDigit(c) && DigitValue(c) == d
  {
    (('0' as int) + d) as char
  }

  /** printf("%d") of a signed int. */
  function IntToString(n: int): (s: seq<char>)
    ensures |s| >= 1
  {
    if n < 0 then ['-'] + NatToString(-n) else NatToString(n)
  }

  /** ASCII lower-casing (Ruby's String#downcase and C tolower in the "C" locale). */
  function ToLowerChar(c: char): (r: char)
    ensures 'A' <= c <= 'Z' ==> 'a' <= r <= 'z'
    ensures !('A' <= c <= 'Z') ==> r == c
  {
    if 'A' <= c <= 'Z' then ((c as int) - ('A' as int) + ('a' as int)) as char else c
  }

  function ToLower(s: seq<char>): (r: seq<char>)
    ensures |r| == |s|
    ensures forall i :: 0 <= i < |s| ==> r[i] == ToLowerChar(s[i])
  {
    if s == [] then [] else [ToLowerChar(s[0])] + ToLower(s[1..])
  }

  /** The value of a string of decimal digits, most significant first. */
  function DigitsValue(s: seq<char>): nat
    requires AllDigits(s)
  {
    if s == [] then 0 else DigitsValue(s[..|s| - 1]) * 10 + DigitValue(s[|s| - 1])
  }

  lemma {:induction false} LeadingDigitsAccOfDigits(s: seq<char>, rest: seq<char>, i: nat)
    requires AllDigits(s) && i <= |s|
    requires rest == [] || !IsDigit(rest[0])
    ensures AllDigits((s + rest)[..i])
    ensures LeadingDigitsAcc(s + rest, i, DigitsValue(s[..i])) == (DigitsValue(s), |s|)
    decreases |s| - i
  {
    var t := s + rest;
    assert t[..i] == s[..i];
    if i < |s| {
      assert t[i] == s[i];
      assert s[..i + 1][..i] == s[..i];
      assert DigitsValue(s[..i + 1]) == DigitsValue(s[..i]) * 10 + DigitValue(s[i]);
      LeadingDigitsAccOfDigits(s, rest, i + 1);
    } else {
      assert s[..i] == s;
    }
  }

  /** The digits that start a string are read as their decimal value. */
  lemma LeadingDigitsOfDigits(s: seq<char>, rest: seq<char>)
    requires AllDigits(s)
    requires rest == [] || !IsDigit(rest[0])
    ensures LeadingDigits(s + rest) == (DigitsValue(s), |s|)
  {
    LeadingDigitsAccOfDigits(s, rest, 0);
    assert s[..0] == [];
  }

  /** atoi reads back a non-empty run of digits followed by anything that is not a digit. */
  lemma AtoiOfDigits(s: seq<char>, rest: seq<char>)
    requires |s| > 0 && AllDigits(s)
    requires rest == [] || !IsDigit(rest[0])
    ensures Atoi(s + rest) == DigitsValue(s)
  {
    assert (s + rest)[0] == s[0];
    LeadingDigitsOfDigits(s, rest);
  }

  /** A leading zero does not change the value. */
  lemma {:induction false} DigitsValueLeadingZero(s: seq<char>)
    requires AllDigits(s)
    ensures AllDigits(['0'] + s) && DigitsValue(['0'] + s) == DigitsValue(s)
  {
    if s != [] {
      var t := ['0'] + s;
      assert t[..|t| - 1] == ['0'] + s[..|s| - 1];
      DigitsValueLeadingZero(s[..|s| - 1]);
    } else {
      assert (['0'] + s)[..0] == [];
    }
  }

  /** Decimal printing and reading are inverse. */
  lemma {:induction false} NatToStringValue(n: nat)
    ensures DigitsValue(NatToString(n)) == n
  {
    var s := NatToString(n);
    if n < 10 {
      assert s[..0] == [];
    } else {
      assert s[..|s| - 1] == NatToString(n / 10);
      NatToStringValue(n / 10);
    }
  }

  predicate StartsWith(s: seq<char>, p: seq<char>) { |p| <= |s| && s[..|p|] == p }

  /** The suffix left after skipping leading blanks. */
  function DropBlanks(s: seq<char>): (r: seq<char>)
    ensures |r| <= |s| && r == s[|s| - |r|..]
    ensures r == [] || !IsBlank(r[0])
    ensures forall k :: 0 <= k < |s| - |r| ==> IsBlank(s[k])
  {
    if s != [] && IsBlank(s[0]) then DropBlanks(s[1..]) else s
  }

  // ---------------------------------------------------------------- printf of one integer

  /** A string without '%': printf copies it as it is. */
  predicate NoPercent(s: seq<char>) { s == [] || (s[0] != '%' && NoPercent(s[1..])) }

  /** n copies of c. */
  function Repeat(c: char, n: nat): (s: seq<char>)
    ensures |s| == n && forall i :: 0 <= i < n ==> s[i] == c
  {
    if n == 0 then [] else [c] + Repeat(c, n - 1)
  }

  /** printf's "%<width>d" of n, or "%0<width>d" when zeroPad is set: the decimal text of n,
      preceded by spaces, or with zeros between its sign and its digits, up to width
      characters. */
  function PadInt(n: int, width: nat, zeroPad: bool): (s: seq<char>)
    ensures |s| == Max(width, |IntToString(n)|)
  {
    Pad(n < 0, NatToString(if n < 0 then -n else n), width, zeroPad)
  }

  /** A sign (when neg holds) and digits, padded up to width characters. */
  function Pad(neg: bool, digits: seq<char>, width: nat, zeroPad: bool): (s: seq<char>)
    ensures |s| == Max(width, |digits| + if neg then 1 else 0)
  {
    var sign: seq<char> := if neg then "-" else "";
    var fill: nat := if width > |sign| + |digits| then width - |sign| - |digits| else 0;
    if zeroPad then sign + (Repeat('0', fill) + digits) else Repeat(' ', fill) + (sign + digits)
  }

  /** sprintf(fmt, n) with the one integer argument n, whose conversion is the text conv
      (the length modifier and letter, as PRId64 expands): "%%" prints '%', a
      `%[0][width]<conv>` prints n padded, and any other character is copied. */
  function Sprintf(fmt: seq<char>, conv: seq<char>, n: int): (r: seq<char>)
    ensures NoPercent(fmt) ==> r == fmt
    decreases |fmt|
  {
    if fmt == [] then []
    else if fmt[0] != '%' then [fmt[0]] + Sprintf(fmt[1..], conv, n)
    else if |fmt| >= 2 && fmt[1] == '%' then "%" + Sprintf(fmt[2..], conv, n)
    else
      var w := LeadingDigits(fmt[1..]);
      var after := fmt[1 + w.1..];
      if |conv| > 0 && StartsWith(after, conv) then
        PadInt(n, w.0, w.1 > 0 && fmt[1] == '0') + Sprintf(after[|conv|..], conv, n)
      else [fmt[0]] + Sprintf(fmt[1..], conv, n)
  }

  /** A character other than '%' is copied. */
  lemma SprintfPlainChar(c: char, t: seq<char>, conv: seq<char>, n: int)
    requires c != '%'
    ensures Sprintf([c] + t, conv, n) == [c] + Sprintf(t, conv, n)
  {
    assert ([c] + t)[1..] == t;
  }

  /** Text without '%' in front of a format is printed as it is. */
  lemma {:induction false} SprintfPlainPrefix(a: seq<char>, b: seq<char>, conv: seq<char>, n: int)
    requires NoPercent(a)
    ensures Sprintf(a + b, conv, n) == a + Sprintf(b, conv, n)
    decreases |a|
  {
    if a != [] {
      assert a + b == [a[0]] + (a[1..] + b);
      SprintfPlainChar(a[0], a[1..] + b, conv, n);
      SprintfPlainPrefix(a[1..], b, conv, n);
      assert [a[0]] + (a[1..] + Sprintf(b, conv, n)) == a + Sprintf(b, conv, n);
    } else {
      assert a + b == b;
    }
  }

  /** A conversion `%<digits><conv>` prints n padded to the width the digits give, with
      zeros when they start with '0'. */
  lemma SprintfConversion(ds: seq<char>, conv: seq<char>, rest: seq<char>, n: int)
    requires AllDigits(ds) && |conv| > 0 && !IsDigit(conv[0]) && conv[0] != '%'
    ensures Sprintf(['%'] + (ds + (conv + rest)), conv, n)
      == PadInt(n, DigitsValue(ds), |ds| > 0 && ds[0] == '0') + Sprintf(rest, conv, n)
  {
    var tail := conv + rest;
    var fmt := ['%'] + (ds + tail);
    assert fmt[1..] == ds + tail;
    assert |fmt| >= 2 && fmt[1] != '%' by {
      if ds == [] { assert fmt[1] == conv[0]; } else { assert fmt[1] == ds[0]; }
    }
    LeadingDigitsOfDigits(ds, tail);
    assert fmt[1 + |ds|..] == tail;
    assert StartsWith(tail, conv) && tail[|conv|..] == rest;
    assert |ds| > 0 ==> fmt[1] == ds[0];
  }

  /** atoi skips the spaces in front of a number. */
  lemma {:induction false} AtoiSkipsSpaces(k: nat, t: seq<char>)
    ensures Atoi(Repeat(' ', k) + t) == Atoi(t)
    decreases k
  {
    if k > 0 {
      var s := Repeat(' ', k) + t;
      assert s[0] == ' ' && s[1..] == Repeat(' ', k - 1) + t;
      AtoiSkipsSpaces(k - 1, t);
    } else {
      assert Repeat(' ', k) + t == t;
    }
  }

  /** Leading zeros do not change the value of a run of digits. */
  lemma {:induction false} ZerosValue(k: nat, ds: seq<char>)
    requires AllDigits(ds)
    ensures AllDigits(Repeat('0', k) + ds) && DigitsValue(Repeat('0', k) + ds) == DigitsValue(ds)
    decreases k
  {
    if k > 0 {
      ZerosValue(k - 1, ds);
      DigitsValueLeadingZero(Repeat('0', k - 1) + ds);
      assert Repeat('0', k) + ds == ['0'] + (Repeat('0', k - 1) + ds);
    } else {
      assert Repeat('0', k) + ds == ds;
    }
  }

  /** atoi of a minus sign followed by digits. */
  lemma AtoiOfNegative(ds: seq<char>)
    requires |ds| > 0 && AllDigits(ds)
    ensures Atoi(['-'] + ds) == 0 - DigitsValue(ds)
  {
    var t := ['-'] + ds;
    assert t[0] == '-' && t[1..] == ds;
    LeadingDigitsOfDigits(ds, []);
    assert ds + [] == ds;
  }

  /** atoi of digits. */
  lemma AtoiOfUnsigned(ds: seq<char>)
    requires |ds| > 0 && AllDigits(ds)
    ensures Atoi(ds) == DigitsValue(ds)
  {
    assert IsDigit(ds[0]);
    LeadingDigitsOfDigits(ds, []);
    assert ds + [] == ds;
  }

  /** atoi of an optional minus sign followed by digits. */
  lemma AtoiOfSigned(neg: bool, ds: seq<char>)
    requires |ds| > 0 && AllDigits(ds)
    ensures var v: int := DigitsValue(ds); Atoi((if neg then "-" else "") + ds) == if neg then -v else v
  {
    if neg {
      AtoiOfNegative(ds);
    } else {
      assert "" + ds == ds;
      AtoiOfUnsigned(ds);
    }
  }

  /** atoi reads a padded sign and digits back as their signed value. */
  lemma AtoiOfPad(neg: bool, digits: seq<char>, width: nat, zeroPad: bool)
    requires |digits| > 0 && AllDigits(digits)
    ensures var v: int := DigitsValue(digits); Atoi(Pad(neg, digits, width, zeroPad)) == if neg then -v else v
  {
    var sign: seq<char> := if neg then "-" else "";
    var fill: nat := if width > |sign| + |digits| then width - |sign| - |digits| else 0;
    var p := Pad(neg, digits, width, zeroPad);
    if zeroPad {
      var zd := Repeat('0', fill) + digits;
      assert p == sign + zd;
      ZerosValue(fill, digits);
      AtoiOfSigned(neg, zd);
    } else {
      assert p == Repeat(' ', fill) + (sign + digits);
      AtoiSkipsSpaces(fill, sign + digits);
      AtoiOfSigned(neg, digits);
    }
  }

  /** atoi reads back the number printf wrote, whatever the width and padding. */
  lemma PadIntReadsBack(n: int, width: nat, zeroPad: bool)
    ensures Atoi(PadInt(n, width, zeroPad)) == n
  {
    NatToStringValue(if n < 0 then -n else n);
    AtoiOfPad(n < 0, NatToString(if n < 0 then -n else n), width, zeroPad);
  }
}
