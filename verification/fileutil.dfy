/**
 * Filename utilities: recognising markdown uploads by extension and
 * filtering a user-supplied name down to a safe set of characters.
 */
module FileUtil {
  import opened Paths

  /** The extensions accepted as markdown, in the order they are tried. */
  const MarkdownExtensions: seq<string> := [".md", ".markdown"]

  /** The lower-cased extension of `filename` is one of the markdown ones. */
  predicate HasMarkdownExt(filename: string) {
    ToLower(Ext(filename)) in MarkdownExtensions
  }

  /** `filename` ends with `suffix`, ignoring letter case as `ToLower` folds it. */
  predicate EndsWithIgnoringCase(filename: string, suffix: string) {
    |suffix| <= |filename| && ToLower(filename[|filename| - |suffix|..]) == suffix
  }

  method IsMarkdownFile(filename: string) returns (ok: bool)
    ensures ok <==> HasMarkdownExt(filename)
  {
    var extension := ToLower(Ext(filename));
    var i := 0;
    while i < |MarkdownExtensions|
      invariant 0 <= i <= |MarkdownExtensions|
      invariant forall j :: 0 <= j < i ==> MarkdownExtensions[j] != extension
    {
      if extension == MarkdownExtensions[i] {
        assert extension in MarkdownExtensions;
        return true;
      }
      i := i + 1;
    }
    assert extension !in MarkdownExtensions;
    return false;
  }

  /** Only letters lower-case to ASCII letters, and only '.' to '.'. */
  lemma LowerToLetter(c: char)
    ensures 'a' <= LowerChar(c) <= 'z' ==> c != '.' && c != Separator
    ensures LowerChar(c) == '.' ==> c == '.'
  {
  }

  /** A '.' followed by lower-case ASCII letters, as both markdown extensions are. */
  predicate LowerDotted(ext: string) {
    |ext| > 0 && ext[0] == '.' && forall k :: 1 <= k < |ext| ==> 'a' <= ext[k] <= 'z'
  }

  /** A name that ends with a lower-case extension, in any letter case, has that extension. */
  lemma SuffixGivesExt(filename: string, ext: string)
    requires LowerDotted(ext)
    requires EndsWithIgnoringCase(filename, ext)
    ensures ToLower(Ext(filename)) == ext
  {
    var stem := filename[..|filename| - |ext|];
    var tail := filename[|filename| - |ext|..];
    assert ToLower(tail) == ext;
    ToLowerAt(tail);
    LowerToLetter(tail[0]);
    forall k | 0 <= k < |tail[1..]| ensures tail[1..][k] != '.' && tail[1..][k] != Separator {
      assert LowerChar(tail[k + 1]) == ext[k + 1];
      LowerToLetter(tail[k + 1]);
    }
    assert filename == stem + tail;
    ExtOfAppend(stem, tail);
  }

  /**
   * A lower-cased extension `ext` (".md" or ".markdown") is found exactly when
   * the name ends with it in any letter case.
   */
  lemma ExtMatchesSuffix(filename: string, ext: string)
    requires ext in MarkdownExtensions
    ensures ToLower(Ext(filename)) == ext <==> EndsWithIgnoringCase(filename, ext)
  {
    if EndsWithIgnoringCase(filename, ext) {
      assert LowerDotted(ext);
      SuffixGivesExt(filename, ext);
    }
    var e := Ext(filename);
    if ToLower(e) == ext {
      assert filename[|filename| - |ext|..] == e;
    }
  }

  /**
   * Recognition by extension agrees with a plain case-insensitive suffix
   * test: neither markdown extension can contain a '.' or a separator.
   */
  lemma MarkdownBySuffix(filename: string)
    ensures HasMarkdownExt(filename) <==>
      EndsWithIgnoringCase(filename, ".md") || EndsWithIgnoringCase(filename, ".markdown")
  {
    ExtMatchesSuffix(filename, ".md");
    ExtMatchesSuffix(filename, ".markdown");
  }

  /** A name whose last element has no '.' is never a markdown file. */
  lemma NoExtensionRejected(filename: string)
    requires NoExtension(filename)
    ensures !HasMarkdownExt(filename)
  {
    ExtEmpty(filename);
  }

  /** A name ending in a dotted extension is markdown when that extension lower-cases to a markdown one. */
  lemma MarkdownByExtension(stem: string, ext: string)
    requires |ext| > 0 && ext[0] == '.' && Plain(ext[1..])
    requires ToLower(ext) in MarkdownExtensions
    ensures HasMarkdownExt(stem + ext)
  {
    ExtOfAppend(stem, ext);
  }

  lemma MarkdownExampleLower()
    ensures HasMarkdownExt("notes.md")
  {
    assert "notes" + ".md" == "notes.md";
    ToLowerAt(".md");
    assert ToLower(".md") == ".md";
    MarkdownByExtension("notes", ".md");
  }

  /** The extension test ignores letter case. */
  lemma MarkdownExampleUpper()
    ensures HasMarkdownExt("NOTE.MD")
  {
    assert "NOTE" + ".MD" == "NOTE.MD";
    ToLowerAt(".MD");
    assert ToLower(".MD") == ".md";
    MarkdownByExtension("NOTE", ".MD");
  }

  lemma MarkdownExampleMixedCase()
    ensures HasMarkdownExt("guide.Markdown")
  {
    assert "guide" + ".Markdown" == "guide.Markdown";
    assert ".Markdown"[1..] == "Markdown";
    LowerMarkdown();
    MarkdownByExtension("guide", ".Markdown");
  }

  /** U+212A KELVIN SIGN lower-cases to 'k', so it can spell a markdown extension. */
  lemma MarkdownExampleKelvin()
    ensures HasMarkdownExt("a.mar\U{212A}down")
  {
    var ext := ".mar\U{212A}down";
    assert "a" + ext == "a.mar\U{212A}down";
    assert ext[1..] == "mar\U{212A}down";
    ToLowerAt(ext);
    assert ToLower(ext) == ".markdown";
    MarkdownByExtension("a", ext);
  }

  lemma LowerMarkdown()
    ensures ToLower(".Markdown") == ".markdown"
  {
    ToLowerAt(".Markdown");
  }

  lemma MarkdownExampleRejected()
    ensures !HasMarkdownExt("notes.txt")
    ensures !HasMarkdownExt("README")
    ensures !HasMarkdownExt("docs.md/README")
  {
    ExtOfAppend("notes", ".txt");
    assert "notes" + ".txt" == "notes.txt";
    assert ToLower(".txt") == ".txt";
    assert NoExtension("README");
    ExtEmpty("README");
    assert "docs.md/README"[7] == Separator;
    assert NoExtension("docs.md/README");
    ExtEmpty("docs.md/README");
  }

  // ---------------------------------------------------------------------
  // SanitizeFilename
  // ---------------------------------------------------------------------

  /** The bytes that are kept besides ASCII letters and digits, in the order they are tried. */
  const SafeBytes: seq<int> := ['_' as int, '-' as int, '.' as int, ' ' as int]

  const Untitled: string := "untitled"

  predicate IsAsciiAlnum(c: char) {
    'a' <= c <= 'z' || 'A' <= c <= 'Z' || '0' <= c <= '9'
  }

  /** Go's `byte(char)`: the low eight bits of the code point. */
  function LowByte(c: char): int {
    c as int % 256
  }

  /** The filter applied to each character of the name. */
  predicate Kept(c: char) {
    IsAsciiAlnum(c) || LowByte(c) in SafeBytes
  }

  /** The kept characters of `s`, in their original order. */
  function Filtered(s: string): string {
    if s == [] then []
    else Filtered(s[..|s| - 1]) + (if Kept(s[|s| - 1]) then [s[|s| - 1]] else [])
  }

  /** The name `SanitizeFilename` returns. */
  function Sanitized(s: string): string {
    if Filtered(s) == [] then Untitled else Filtered(s)
  }

  method SanitizeFilename(filename: string) returns (result: string)
    ensures result == Sanitized(filename)
  {
    result := "";
    var i := 0;
    while i < |filename|
      invariant 0 <= i <= |filename|
      invariant result == Filtered(filename[..i])
    {
      var c := filename[i];
      assert filename[..i + 1][..i] == filename[..i];
      if ('a' <= c <= 'z') || ('A' <= c <= 'Z') || ('0' <= c <= '9') {
        result := result + [c];
        i := i + 1;
        continue;
      }

      var isSafe := false;
      var j := 0;
      while j < |SafeBytes|
        invariant 0 <= j <= |SafeBytes|
        invariant isSafe <==> LowByte(c) in SafeBytes[..j]
      {
        if LowByte(c) == SafeBytes[j] {
          isSafe := true;
          assert SafeBytes[j] in SafeBytes[..j + 1];
          break;
        }
        assert SafeBytes[..j + 1] == SafeBytes[..j] + [SafeBytes[j]];
        j := j + 1;
      }
      assert isSafe ==> LowByte(c) in SafeBytes;
      assert !isSafe ==> SafeBytes[..j] == SafeBytes;

      if isSafe {
        result := result + [c];
      }
      i := i + 1;
    }
    assert filename[..i] == filename;
    if result == "" {
      return Untitled;
    }
  }

  /** `sub` can be obtained from `s` by deleting characters. */
  predicate IsSubsequence(sub: string, s: string)
    decreases |s|
  {
    if sub == [] then true
    else if s == [] then false
    else if sub[|sub| - 1] == s[|s| - 1] then IsSubsequence(sub[..|sub| - 1], s[..|s| - 1])
    else IsSubsequence(sub, s[..|s| - 1])
  }

  /** A subsequence stays one when the longer string grows. */
  lemma {:induction false} SubsequenceExtend(sub: string, s: string, c: char)
    requires IsSubsequence(sub, s)
    ensures IsSubsequence(sub, s + [c])
    decreases |s|, 1
  {
    assert (s + [c])[..|s|] == s;
    if sub != [] && sub[|sub| - 1] == c {
      SubsequenceDropLast(sub, s);
    }
  }

  /** Dropping the last character of a subsequence keeps it a subsequence. */
  lemma {:induction false} SubsequenceDropLast(sub: string, s: string)
    requires sub != [] && IsSubsequence(sub, s)
    ensures IsSubsequence(sub[..|sub| - 1], s)
    decreases |s|, 0
  {
    var init := s[..|s| - 1];
    assert s == init + [s[|s| - 1]];
    if sub[|sub| - 1] == s[|s| - 1] {
      SubsequenceExtend(sub[..|sub| - 1], init, s[|s| - 1]);
    } else {
      SubsequenceDropLast(sub, init);
      SubsequenceExtend(sub[..|sub| - 1], init, s[|s| - 1]);
    }
  }

  lemma {:induction false} FilteredIsSubsequence(s: string)
    ensures IsSubsequence(Filtered(s), s)
    decreases |s|
  {
    if s != [] {
      var init := s[..|s| - 1];
      var c := s[|s| - 1];
      FilteredIsSubsequence(init);
      assert s == init + [c];
      if Kept(c) {
        var f := Filtered(s);
        assert f[..|f| - 1] == Filtered(init);
      } else {
        assert Filtered(s) == Filtered(init);
        SubsequenceExtend(Filtered(init), init, c);
      }
    }
  }

  /** Every character of the filtered name passes the filter. */
  lemma {:induction false} FilteredAllKept(s: string)
    ensures forall k :: 0 <= k < |Filtered(s)| ==> Kept(Filtered(s)[k])
    decreases |s|
  {
    if s != [] {
      FilteredAllKept(s[..|s| - 1]);
    }
  }

  /** Filtering changes a name exactly when some character fails the filter. */
  lemma {:induction false} FilteredFixed(s: string)
    ensures Filtered(s) == s <==> forall k :: 0 <= k < |s| ==> Kept(s[k])
    decreases |s|
  {
    if s != [] {
      var init := s[..|s| - 1];
      FilteredFixed(init);
      FilteredShorter(init);
      if forall k :: 0 <= k < |s| ==> Kept(s[k]) {
        assert forall k :: 0 <= k < |init| ==> Kept(init[k]);
        assert s == init + [s[|s| - 1]];
      }
    }
  }

  lemma {:induction false} FilteredShorter(s: string)
    ensures |Filtered(s)| <= |s|
    decreases |s|
  {
    if s != [] {
      FilteredShorter(s[..|s| - 1]);
    }
  }

  /** The ASCII letters and digits of `s`, in order. */
  function Alnums(s: string): string {
    if s == [] then [] else Alnums(s[..|s| - 1]) + (if IsAsciiAlnum(s[|s| - 1]) then [s[|s| - 1]] else [])
  }

  lemma {:induction false} AlnumsAppend(a: string, b: string)
    ensures Alnums(a + b) == Alnums(a) + Alnums(b)
    decreases |b|
  {
    if b != [] {
      var b' := b[..|b| - 1];
      assert (a + b)[..|a + b| - 1] == a + b';
      AlnumsAppend(a, b');
    } else {
      assert a + b == a;
    }
  }

  /** Sanitising keeps every ASCII letter and digit, in the original order. */
  lemma {:induction false} FilteredKeepsAlnums(s: string)
    ensures Alnums(Filtered(s)) == Alnums(s)
    decreases |s|
  {
    if s != [] {
      var init := s[..|s| - 1];
      var c := s[|s| - 1];
      FilteredKeepsAlnums(init);
      AlnumsAppend(Filtered(init), if Kept(c) then [c] else []);
      assert Alnums([c]) == (if IsAsciiAlnum(c) then [c] else []) by {
        assert [c][..0] == [];
      }
    }
  }

  /** The result is never empty, always passes the filter and has no separator. */
  lemma SanitizedIsSafe(s: string)
    ensures Sanitized(s) != []
    ensures forall k :: 0 <= k < |Sanitized(s)| ==> Kept(Sanitized(s)[k])
    ensures '/' !in Sanitized(s) && '\\' !in Sanitized(s)
  {
    FilteredAllKept(s);
    assert forall k :: 0 <= k < |Untitled| ==> IsAsciiAlnum(Untitled[k]);
  }

  /** The result is the filtered subsequence of the input, or "untitled". */
  lemma SanitizedIsSubsequence(s: string)
    ensures Sanitized(s) == Untitled || IsSubsequence(Sanitized(s), s)
  {
    FilteredIsSubsequence(s);
  }

  /** Sanitising twice is the same as sanitising once. */
  lemma SanitizeIdempotent(s: string)
    ensures Sanitized(Sanitized(s)) == Sanitized(s)
  {
    SanitizedIsSafe(s);
    FilteredFixed(Sanitized(s));
  }

  lemma {:induction false} FilteredSnoc(s: string, c: char)
    ensures Filtered(s + [c]) == Filtered(s) + (if Kept(c) then [c] else [])
  {
    assert (s + [c])[..|s|] == s;
  }

  /** '.' is kept, so a parent-directory step survives as "..". */
  lemma SanitizeExampleDots()
    ensures Sanitized("../x") == "..x"
  {
    FilteredSnoc([], '.');
    FilteredSnoc(".", '.');
    FilteredSnoc("..", '/');
    FilteredSnoc("../", 'x');
    assert "../" + ['x'] == "../x";
  }

  lemma SanitizeExampleSeparators()
    ensures Sanitized("a/\\b") == "ab"
  {
    assert !Kept('/') && !Kept('\\');
    FilteredSnoc([], 'a');
    assert Filtered("a") == "a";
    FilteredSnoc("a", '/');
    assert "a" + ['/'] == "a/";
    assert Filtered("a/") == "a";
    FilteredSnoc("a/", '\\');
    assert "a/" + ['\\'] == "a/\\";
    assert Filtered("a/\\") == "a";
    FilteredSnoc("a/\\", 'b');
    assert "a/\\" + ['b'] == "a/\\b";
  }

  lemma SanitizeExampleUntitled()
    ensures Sanitized("") == Untitled
    ensures Sanitized("//") == Untitled
  {
    FilteredSnoc([], '/');
    FilteredSnoc("/", '/');
  }

  /** U+012D has low byte 0x2D, the code of '-', so it slips through. */
  lemma SanitizeExampleLowByte()
    ensures Sanitized("\U{12D}") == "\U{12D}"
  {
    assert LowByte('\U{12D}') == '-' as int;
    FilteredSnoc([], '\U{12D}');
  }
}
