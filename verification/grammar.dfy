/**
 * The grammar heuristic checker: three fixed rules over a text (a doubled
 * space, a lower-case first byte, a missing terminal punctuation mark) and a
 * score that loses ten points per issue.
 *
 * The text is a Go string, that is a sequence of bytes; here each byte is one
 * `char` (`IsByteString`), so offsets and lengths are byte counts as in the
 * original.
 */
module Grammar {
  import opened Paths

  /** The rule that raised an issue; `Name` is the `type` string the original reports. */
  datatype IssueType = Spacing | Capitalization | Punctuation {
    function Name(): string {
      match this
      case Spacing => "spacing"
      case Capitalization => "capitalization"
      case Punctuation => "punctuation"
    }
  }

  datatype Issue = Issue(message: string, offset: int, length: int, replacement: string, kind: IssueType)

  datatype CheckResult = CheckResult(issues: seq<Issue>, score: int)

  const SpacingMessage: string := "Multiple consecutive spaces found"
  const CapitalizationMessage: string := "Sentence should start with a capital letter"
  const PunctuationMessage: string := "Sentence should end with proper punctuation"

  // ---------------------------------------------------------------------
  // Byte-string primitives of Go's `strings` and `unicode` packages
  // ---------------------------------------------------------------------

  predicate OccursAt(s: string, sub: string, i: int) {
    0 <= i && i + |sub| <= |s| && s[i..i + |sub|] == sub
  }

  /** The scan of `strings.Index` from position `i` on. */
  function IndexFrom(s: string, sub: string, i: nat): (idx: int)
    requires i <= |s|
    ensures idx == -1 || i <= idx
    decreases |s| - i
  {
    if i + |sub| > |s| then -1
    else if s[i..i + |sub|] == sub then i
    else IndexFrom(s, sub, i + 1)
  }

  lemma {:induction false} IndexFromFirst(s: string, sub: string, i: nat)
    requires i <= |s|
    ensures var idx := IndexFrom(s, sub, i);
      && (idx == -1 ==> forall j :: i <= j ==> !OccursAt(s, sub, j))
      && (idx != -1 ==> OccursAt(s, sub, idx) && forall j :: i <= j < idx ==> !OccursAt(s, sub, j))
    decreases |s| - i
  {
    if i + |sub| <= |s| && s[i..i + |sub|] != sub {
      IndexFromFirst(s, sub, i + 1);
    }
  }

  /** `strings.Index`: the first position of `sub` in `s`, or -1. */
  function Index(s: string, sub: string): int {
    IndexFrom(s, sub, 0)
  }

  /** `Index` finds the first occurrence, and -1 means there is none. */
  lemma IndexFirst(s: string, sub: string)
    ensures Index(s, sub) == -1 <==> forall j :: !OccursAt(s, sub, j)
    ensures Index(s, sub) != -1 ==>
      OccursAt(s, sub, Index(s, sub)) && forall j :: 0 <= j < Index(s, sub) ==> !OccursAt(s, sub, j)
  {
    IndexFromFirst(s, sub, 0);
  }

  /** `strings.Contains`. */
  predicate Contains(s: string, sub: string) {
    Index(s, sub) >= 0
  }

  /** The ASCII white space that `strings.TrimSpace` removes. */
  predicate IsSpace(c: char) {
    c == ' ' || c == '\t' || c == '\n' || c == '\U{B}' || c == '\U{C}' || c == '\r'
  }

  /** `unicode.IsLower`, restricted to ASCII. */
  predicate IsLower(c: char) {
    'a' <= c <= 'z'
  }

  function UpperChar(c: char): char
    requires IsLower(c)
  {
    (c as int - 32) as char
  }

  /** The first index at or after `i` whose byte is not white space, or |s|. */
  function SkipSpaces(s: string, i: nat): (n: nat)
    requires i <= |s|
    ensures i <= n <= |s|
    ensures forall k :: i <= k < n ==> IsSpace(s[k])
    ensures n < |s| ==> !IsSpace(s[n])
    decreases |s| - i
  {
    if i < |s| && IsSpace(s[i]) then SkipSpaces(s, i + 1) else i
  }

  /** Where `s[lo..hi]` ends once the white space at its end is removed. */
  function TrimEnd(s: string, lo: nat, hi: nat): (n: nat)
    requires lo <= hi <= |s|
    ensures lo <= n <= hi
    ensures forall k :: n <= k < hi ==> IsSpace(s[k])
    ensures n > lo ==> !IsSpace(s[n - 1])
  {
    if hi > lo && IsSpace(s[hi - 1]) then TrimEnd(s, lo, hi - 1) else hi
  }

  /**
   * `strings.TrimSpace`: `s` without the white space at both ends;
   * `TrimmedSlice` and `TrimmedBetween` say which slice of `s` it is.
   */
  function TrimSpace(s: string): (t: string)
    ensures |t| <= |s|
    ensures t != [] ==> !IsSpace(t[0]) && !IsSpace(t[|t| - 1])
  {
    var lo := SkipSpaces(s, 0);
    s[lo..TrimEnd(s, lo, |s|)]
  }

  // ---------------------------------------------------------------------
  // The three rules
  // ---------------------------------------------------------------------

  predicate DoubleSpaceAt(text: string, i: int) {
    0 <= i && i + 1 < |text| && text[i] == ' ' && text[i + 1] == ' '
  }

  /** Position `f` holds the first byte of `text` that is not white space. */
  predicate FirstNonSpace(text: string, f: int) {
    0 <= f < |text| && !IsSpace(text[f]) && forall j :: 0 <= j < f ==> IsSpace(text[j])
  }

  /** Position `i` holds the last byte of `text` that is not white space. */
  predicate LastNonSpace(text: string, i: int) {
    0 <= i < |text| && !IsSpace(text[i]) && forall j :: i < j < |text| ==> IsSpace(text[j])
  }

  predicate IsTerminal(c: char) {
    c == '.' || c == '!' || c == '?'
  }

  lemma DoubleSpaceOccurs(text: string, i: int)
    ensures OccursAt(text, "  ", i) <==> DoubleSpaceAt(text, i)
  {
    if 0 <= i && i + 2 <= |text| {
      assert text[i..i + 2] == [text[i], text[i + 1]];
    }
  }

  /**
   * At most one "spacing" issue, of length 2 with the replacement " ", at the
   * first occurrence of two consecutive spaces; `SpacingRule` says when it is
   * reported and that it points at the first pair.
   */
  function SpacingIssues(text: string): (r: seq<Issue>)
    ensures |r| <= 1
    ensures r != [] ==> r[0].kind == Spacing && r[0].length == 2 && r[0].replacement == " "
  {
    var idx := Index(text, "  ");
    if idx >= 0 then [Issue(SpacingMessage, idx, 2, " ", Spacing)] else []
  }

  /**
   * A "spacing" issue is reported exactly when the text holds two consecutive
   * spaces; it points at the first such pair, and later pairs are not
   * reported.
   */
  lemma SpacingRule(text: string)
    ensures SpacingIssues(text) != [] <==> exists i :: DoubleSpaceAt(text, i)
    ensures SpacingIssues(text) != [] ==>
      && DoubleSpaceAt(text, SpacingIssues(text)[0].offset)
      && forall j :: 0 <= j < SpacingIssues(text)[0].offset ==> !DoubleSpaceAt(text, j)
  {
    forall i ensures OccursAt(text, "  ", i) <==> DoubleSpaceAt(text, i) {
      DoubleSpaceOccurs(text, i);
    }
    IndexFirst(text, "  ");
  }

  /**
   * One Capitalization issue exactly when the first byte is a lower-case
   * letter; the replacement is the same letter in upper case.
   */
  function CapitalizationIssues(text: string): (r: seq<Issue>)
    ensures |r| <= 1
    ensures r != [] <==> |text| > 0 && 'a' <= text[0] <= 'z'
    ensures r != [] ==> && r[0].kind == Capitalization && r[0].offset == 0 && r[0].length == 1
                        && |r[0].replacement| == 1 && 'A' <= r[0].replacement[0] <= 'Z'
                        && LowerChar(r[0].replacement[0]) == text[0]
  {
    if |text| > 0 && IsLower(text[0])
    then [Issue(CapitalizationMessage, 0, 1, [UpperChar(text[0])], Capitalization)]
    else []
  }

  /** Every `char` of `text` is one byte, as in a Go string. */
  predicate IsByteString(text: string) {
    forall k :: 0 <= k < |text| ==> text[k] as int < 0x100
  }

  /**
   * `unicode.IsLower` on a byte widened to a rune: besides the ASCII
   * letters, the Latin-1 lower-case letters U+00B5, U+00DF..U+00F6 and
   * U+00F8..U+00FF.
   */
  predicate IsLowerLatin1(b: char) {
    IsLower(b) || b == '\U{B5}' || '\U{DF}' <= b <= '\U{F6}' || '\U{F8}' <= b <= '\U{FF}'
  }

  /**
   * The capitalization test as the original writes it, on the first byte
   * of the text widened to a rune. Every lead byte of a three- or four-byte
   * UTF-8 sequence (E0..F4) passes it.
   */
  predicate FlagsCapitalizationAsWritten(text: string): (flagged: bool)
    requires IsByteString(text)
    ensures |text| > 0 && IsLower(text[0]) ==> flagged
    ensures |text| > 0 && 0xE0 <= text[0] as int <= 0xF4 ==> flagged
    ensures |text| > 0 && text[0] as int < 0x80 ==> (flagged <==> IsLower(text[0]))
  {
    |text| > 0 && IsLowerLatin1(text[0])
  }

  /**
   * "中" is the bytes E4 B8 AD. The test as written reads E4 as 'ä' and
   * asks for a capital letter on an ideograph that has no case; the
   * corrected rule reports nothing.
   */
  lemma CapitalizationOnMultibyte(t: string)
    requires t == "\U{E4}\U{B8}\U{AD}"
    ensures IsByteString(t)
    ensures FlagsCapitalizationAsWritten(t)
    ensures CapitalizationIssues(t) == []
  {
  }

  /**
   * The corrected rule agrees with the original on every text that starts
   * with an ASCII byte, and reports nothing on the others.
   */
  lemma CapitalizationCorrection(text: string)
    requires IsByteString(text)
    ensures |text| > 0 && text[0] as int < 0x80 ==>
      (CapitalizationIssues(text) != [] <==> FlagsCapitalizationAsWritten(text))
    ensures |text| > 0 && text[0] as int >= 0x80 ==> CapitalizationIssues(text) == []
  {
  }

  /** The trimmed text is not empty and ends in none of '.', '!' and '?'. */
  predicate LacksTerminal(trimmed: string) {
    |trimmed| > 0 && !HasSuffix(trimmed, ".") && !HasSuffix(trimmed, "!") && !HasSuffix(trimmed, "?")
  }

  /**
   * At most one Punctuation issue, at the length of the trimmed text, with
   * no replacement; `PunctuationRule` says when it is reported.
   */
  function PunctuationIssues(text: string): (r: seq<Issue>)
    ensures |r| <= 1
    ensures r != [] ==> && r[0].kind == Punctuation && r[0].length == 0 && r[0].replacement == ""
                        && r[0].offset == |TrimSpace(text)|
  {
    var trimmed := TrimSpace(text);
    if LacksTerminal(trimmed)
    then [Issue(PunctuationMessage, |trimmed|, 0, "", Punctuation)]
    else []
  }

  /**
   * A Punctuation issue is reported exactly when the text has a byte that
   * is not white space and the last such byte is not '.', '!' or '?'.
   */
  lemma PunctuationRule(text: string)
    ensures PunctuationIssues(text) != [] <==> exists i :: LastNonSpace(text, i) && !IsTerminal(text[i])
  {
    TrimmedEmpty(text);
    var t := TrimSpace(text);
    if PunctuationIssues(text) != [] {
      var i := TrimEnd(text, SkipSpaces(text, 0), |text|) - 1;
      TrimmedLast(text, i);
      assert t[|t| - 1..] == [text[i]];
    }
    forall i | LastNonSpace(text, i) && !IsTerminal(text[i])
      ensures PunctuationIssues(text) != []
    {
      TrimmedLast(text, i);
      assert t[|t| - 1..] == [text[i]];
    }
  }

  /**
   * The trimmed text is empty exactly when the text is all white space;
   * otherwise the text's last byte that is not white space is where the
   * trimmed text ends.
   */
  lemma TrimmedEmpty(text: string)
    ensures TrimSpace(text) == [] <==> forall i :: 0 <= i < |text| ==> IsSpace(text[i])
    ensures TrimSpace(text) != [] ==> LastNonSpace(text, TrimEnd(text, SkipSpaces(text, 0), |text|) - 1)
  {
    var lo := SkipSpaces(text, 0);
    assert TrimSpace(text) == text[lo..TrimEnd(text, lo, |text|)];
  }

  /**
   * The trimmed text ends with the text's last byte that is not white
   * space, and, when the text does not start with white space, it is the
   * text up to that byte.
   */
  lemma TrimmedLast(text: string, i: int)
    requires LastNonSpace(text, i)
    ensures var t := TrimSpace(text);
      && |t| > 0 && t[|t| - 1] == text[i]
      && (!IsSpace(text[0]) ==> |t| == i + 1)
  {
    var lo := SkipSpaces(text, 0);
    var hi := TrimEnd(text, lo, |text|);
    assert TrimSpace(text) == text[lo..hi];
    assert lo <= i;
    assert hi == i + 1;
  }

  /**
   * The trimmed text is the slice of the text between its first and its
   * last byte that is not white space, both included: everything before
   * and after that slice is white space.
   */
  lemma TrimmedSlice(text: string)
    ensures exists lo, hi ::
      && 0 <= lo <= hi <= |text| && TrimSpace(text) == text[lo..hi]
      && (forall k :: 0 <= k < lo ==> IsSpace(text[k]))
      && (forall k :: hi <= k < |text| ==> IsSpace(text[k]))
  {
    var lo := SkipSpaces(text, 0);
    var hi := TrimEnd(text, lo, |text|);
    assert TrimSpace(text) == text[lo..hi];
  }

  /** Given its first and last bytes that are not white space, the trimmed text is the slice between them. */
  lemma TrimmedBetween(text: string, f: int, i: int)
    requires FirstNonSpace(text, f) && LastNonSpace(text, i)
    ensures f <= i && TrimSpace(text) == text[f..i + 1]
  {
    var lo := SkipSpaces(text, 0);
    var hi := TrimEnd(text, lo, |text|);
    assert TrimSpace(text) == text[lo..hi];
    assert lo == f;
    assert hi == i + 1;
  }

  /**
   * The Punctuation issue sits at the distance from the text's first byte
   * that is not white space to just after its last one, and is reported
   * exactly when that last byte is not terminal. For text that does not
   * start with white space (`f == 0`) this is just after the last byte.
   */
  lemma PunctuationAfterLast(text: string, f: int, i: int)
    requires FirstNonSpace(text, f) && LastNonSpace(text, i)
    ensures PunctuationIssues(text) ==
      if IsTerminal(text[i]) then [] else [Issue(PunctuationMessage, i + 1 - f, 0, "", Punctuation)]
  {
    TrimmedBetween(text, f, i);
    var t := TrimSpace(text);
    assert t[|t| - 1..] == [text[i]];
  }

  /** Leading white space shortens the offset: on "  hello" the issue is at 5, not 7. */
  lemma PunctuationLeadingSpace(t: string)
    requires t == "  hello"
    ensures PunctuationIssues(t) == [Issue(PunctuationMessage, 5, 0, "", Punctuation)]
  {
    PunctuationAfterLast(t, 2, 6);
  }

  /** The issues `Check` reports, in the order the rules run. */
  function Issues(text: string): seq<Issue> {
    SpacingIssues(text) + CapitalizationIssues(text) + PunctuationIssues(text)
  }

  // ---------------------------------------------------------------------
  // Check
  // ---------------------------------------------------------------------

  /**
   * `Service.Check`. It has no failure path: the original always returns a
   * nil error. The clamp at zero never fires, since there are at most three
   * issues.
   */
  method Check(text: string) returns (result: CheckResult)
    ensures result.issues == Issues(text)
    ensures result.score == 100 - 10 * |result.issues|
    ensures result.score in {70, 80, 90, 100}
  {
    var issues: seq<Issue> := [];

    if Contains(text, "  ") {
      var idx := Index(text, "  ");
      issues := issues + [Issue(SpacingMessage, idx, 2, " ", Spacing)];
    }
    assert issues == SpacingIssues(text);

    if |text| > 0 && IsLower(text[0]) {
      issues := issues + [Issue(CapitalizationMessage, 0, 1, [UpperChar(text[0])], Capitalization)];
    }
    assert issues == SpacingIssues(text) + CapitalizationIssues(text);

    var trimmed := TrimSpace(text);
    if LacksTerminal(trimmed) {
      issues := issues + [Issue(PunctuationMessage, |trimmed|, 0, "", Punctuation)];
    }
    assert issues == SpacingIssues(text) + CapitalizationIssues(text) + PunctuationIssues(text);

    assert issues == Issues(text);
    assert |issues| <= 3;

    var score := 100 - |issues| * 10;
    if score < 0 {
      score := 0;
    }
    result := CheckResult(issues, score);
  }

  // ---------------------------------------------------------------------
  // Properties
  // ---------------------------------------------------------------------

  function Rank(kind: IssueType): int {
    match kind
    case Spacing => 0
    case Capitalization => 1
    case Punctuation => 2
  }

  lemma RanksIncrease(s: seq<Issue>, c: seq<Issue>, p: seq<Issue>)
    requires |s| <= 1 && |c| <= 1 && |p| <= 1
    requires forall k :: 0 <= k < |s| ==> s[k].kind == Spacing
    requires forall k :: 0 <= k < |c| ==> c[k].kind == Capitalization
    requires forall k :: 0 <= k < |p| ==> p[k].kind == Punctuation
    ensures |s + c + p| <= 3
    ensures forall i, j :: 0 <= i < j < |s + c + p| ==> Rank((s + c + p)[i].kind) < Rank((s + c + p)[j].kind)
  {
  }

  /** At most three issues, one per rule, always in rule order. */
  lemma IssuesOrdered(text: string)
    ensures |Issues(text)| <= 3
    ensures forall i, j :: 0 <= i < j < |Issues(text)| ==> Rank(Issues(text)[i].kind) < Rank(Issues(text)[j].kind)
  {
    RanksIncrease(SpacingIssues(text), CapitalizationIssues(text), PunctuationIssues(text));
  }

  lemma CorrectSentence(t: string)
    requires t == "This is a correct sentence."
    ensures Issues(t) == []
  {
    SpacingRule(t);
    PunctuationAfterLast(t, 0, |t| - 1);
  }

  lemma MissingCapital(t: string)
    requires t == "this should start with a capital letter."
    ensures var r := Issues(t);
      |r| == 1 && r[0].kind.Name() == "capitalization" && r[0].replacement == "T"
  {
    assert t[0] == 't' && UpperChar('t') == 'T';
    SpacingRule(t);
    PunctuationAfterLast(t, 0, |t| - 1);
  }

  lemma MissingPeriod(t: string)
    requires t == "This sentence is missing a period"
    ensures var r := Issues(t);
      |r| == 1 && r[0].kind.Name() == "punctuation" && r[0].offset == 33
  {
    SpacingRule(t);
    PunctuationAfterLast(t, 0, 32);
  }

  /** Two separate doubled spaces still give a single "spacing" issue, at the first. */
  lemma RepeatedSpacesReportedOnce(t: string)
    requires t == "This has  multiple  spaces."
    ensures var r := Issues(t);
      |r| == 1 && r[0].kind.Name() == "spacing" && r[0].offset == 8
  {
    assert DoubleSpaceAt(t, 8);
    SpacingRule(t);
    PunctuationAfterLast(t, 0, |t| - 1);
  }

  lemma ThreeIssues(t: string)
    requires t == "this has multiple issues  and no period"
    ensures var r := Issues(t);
      && |r| == 3
      && r[0].kind.Name() == "spacing" && r[1].kind.Name() == "capitalization"
      && r[2].kind.Name() == "punctuation"
  {
    assert DoubleSpaceAt(t, 24);
    SpacingRule(t);
    PunctuationAfterLast(t, 0, |t| - 1);
  }
}
