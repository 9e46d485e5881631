/** The validations declared on the Rails `Sequence` model (a short code such as "eb"
    naming a sequence of shots inside one show). */
module SequenceModel {
  import opened Wrappers
  import opened Text

  /** A row of the sequences table: `id` is None for a record not yet saved. */
  datatype Sequence = Sequence(id: Option<int>, showId: Option<int>, name: string)

  const FormatMessage: string := "Sequence name must be like: eb or ebc"

  datatype ValidationError =
    | ShowIdBlank
    | NameLengthOutOfRange
    | NameFormat(message: string)
    | NameTaken

  /** Ruby's \w: an ASCII letter, a digit or an underscore. */
  predicate IsWordChar(c: char)
  {
    ('a' <= c <= 'z') || ('A' <= c <= 'Z') || IsDigit(c) || c == '_'
  }

  predicate AllWordChars(s: seq<char>)
  {
    forall k :: 0 <= k < |s| ==> IsWordChar(s[k])
  }

  /** validates_presence_of :show_id */
  predicate ShowIdPresent(s: Sequence) { s.showId.Some? }

  /** validates_length_of :name, :within => 2..3 */
  predicate NameLengthOk(s: Sequence) { 2 <= |s.name| <= 3 }

  /** Ruby's `^` matches at the start of the string and after every newline. */
  predicate LineStartAt(s: seq<char>, i: int)
  {
    0 <= i <= |s| && (i == 0 || s[i - 1] == '\n')
  }

  /** Ruby's `$` matches at the end of the string and before every newline. */
  predicate LineEndAt(s: seq<char>, j: int)
  {
    0 <= j <= |s| && (j == |s| || s[j] == '\n')
  }

  /** `name =~ /^\w{2,3}$/i` as Ruby evaluates it: some line of the name is 2 or 3 word
      characters long (the anchors are line anchors, /i changes nothing for \w). */
  predicate FormatMatchesAsWritten(name: seq<char>)
  {
    exists i, j :: 0 <= i <= j <= |name| && LineStartAt(name, i) && LineEndAt(name, j)
      && 2 <= j - i <= 3 && AllWordChars(name[i..j])
  }

  /** What the validation evidently means: the whole name is 2 or 3 word characters
      (`/\A\w{2,3}\z/`). */
  predicate FormatMatches(name: seq<char>)
  {
    2 <= |name| <= 3 && AllWordChars(name)
  }

  /** validates_uniqueness_of :name, :scope => [:show_id], :case_sensitive => false:
      no other row of the same show has the same name ignoring case. A saved record is
      not compared with its own row. */
  predicate UniqueInShow(s: Sequence, table: seq<Sequence>)
  {
    forall k :: 0 <= k < |table| ==>
      !(table[k].id != s.id && table[k].id.Some? && table[k].showId == s.showId
        && ToLower(table[k].name) == ToLower(s.name))
  }

  /** The errors that `valid?` collects, one per failing validation, in declaration order. */
  function Errors(s: Sequence, table: seq<Sequence>): (errs: seq<ValidationError>)
    ensures |errs| <= 4
    ensures ShowIdBlank in errs <==> !ShowIdPresent(s)
    ensures NameLengthOutOfRange in errs <==> !NameLengthOk(s)
    ensures NameFormat(FormatMessage) in errs <==> !FormatMatches(s.name)
    ensures NameTaken in errs <==> !UniqueInShow(s, table)
  {
    (if ShowIdPresent(s) then [] else [ShowIdBlank])
    + (if NameLengthOk(s) then [] else [NameLengthOutOfRange])
    + (if FormatMatches(s.name) then [] else [NameFormat(FormatMessage)])
    + (if UniqueInShow(s, table) then [] else [NameTaken])
  }

  predicate IsValid(s: Sequence, table: seq<Sequence>) { Errors(s, table) == [] }

  /** A sequence is valid exactly when all four validations pass. */
  lemma ValidIffAllPass(s: Sequence, table: seq<Sequence>)
    ensures IsValid(s, table) <==>
      ShowIdPresent(s) && NameLengthOk(s) && FormatMatches(s.name) && UniqueInShow(s, table)
  {
    var errs := Errors(s, table);
    if !IsValid(s, table) {
      assert |errs| > 0;
      var e := errs[0];
      assert e in errs;
      match e
      case ShowIdBlank =>
      case NameLengthOutOfRange =>
      case NameFormat(m) =>
        assert e == NameFormat(FormatMessage);
      case NameTaken =>
    }
  }

  /** Two sequences of one show whose names differ only in case cannot both be valid
      against a table holding the other. */
  lemma CaseInsensitiveClash(s: Sequence, other: Sequence, table: seq<Sequence>)
    requires other in table && other.id.Some? && other.id != s.id
    requires other.showId == s.showId && ToLower(other.name) == ToLower(s.name)
    ensures !IsValid(s, table)
  {
    var k :| 0 <= k < |table| && table[k] == other;
    assert !UniqueInShow(s, table);
  }

  /** The whole-name format implies the line-anchored one. */
  lemma FormatMatchesImpliesAsWritten(name: seq<char>)
    requires FormatMatches(name)
    ensures FormatMatchesAsWritten(name)
  {
    assert name[0..|name|] == name;
    assert LineStartAt(name, 0) && LineEndAt(name, |name|);
  }

  /** For a name without newline characters the line anchors are string anchors, so the
      two readings agree. */
  lemma FormatReadingsAgreeWithoutNewline(name: seq<char>)
    requires '\n' !in name
    ensures FormatMatchesAsWritten(name) <==> FormatMatches(name)
  {
    if FormatMatchesAsWritten(name) {
      var i, j :| 0 <= i <= j <= |name| && LineStartAt(name, i) && LineEndAt(name, j)
        && 2 <= j - i <= 3 && AllWordChars(name[i..j]);
      assert i == 0 && j == |name|;
      assert name[i..j] == name;
    }
    if FormatMatches(name) {
      FormatMatchesImpliesAsWritten(name);
    }
  }

  /** The name "ab\n" (three characters) passes the length check and the regular
      expression as the model declares it, yet it is not two or three word characters. */
  lemma TrailingNewlineNameAccepted()
    ensures NameLengthOk(Sequence(None, Some(1), "ab\n"))
    ensures FormatMatchesAsWritten("ab\n")
    ensures !FormatMatches("ab\n")
  {
    var n := "ab\n";
    assert LineStartAt(n, 0) && LineEndAt(n, 2);
    assert n[0..2] == "ab";
    assert AllWordChars(n[0..2]);
    assert !IsWordChar(n[2]);
  }
}
