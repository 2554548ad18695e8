/**
 * File-name helpers shared by the note store and the utilities:
 * Go's `filepath.Ext` on a Unix system (separator '/'), lower-casing of the
 * characters whose lower case is ASCII, and suffix tests.
 *
 * Names are sequences of characters. Go works on the UTF-8 bytes of a name,
 * but '.' and '/' are ASCII and never occur inside the encoding of another
 * character, so scanning characters finds the same extension.
 */
module Paths {

  const Separator: char := '/'

  predicate HasSuffix(s: string, suffix: string) {
    |suffix| <= |s| && s[|s| - |suffix|..] == suffix
  }

  /** `s` contains neither a '.' nor a separator. */
  predicate Plain(s: string) {
    forall k :: 0 <= k < |s| ==> s[k] != '.' && s[k] != Separator
  }

  /** Every '.' of `path` is followed, further on, by a separator. */
  predicate NoExtension(path: string) {
    forall i :: 0 <= i < |path| && path[i] == '.' ==>
      exists j :: i < j < |path| && path[j] == Separator
  }

  /**
   * The scan of `filepath.Ext`, from index `i` down to 0; the characters
   * after `i` have already been seen to be neither '.' nor a separator.
   */
  function ExtFrom(path: string, i: int): (ext: string)
    requires -1 <= i < |path|
    requires forall k :: i < k < |path| ==> path[k] != '.' && path[k] != Separator
    ensures HasSuffix(path, ext)
    ensures ext == [] || (ext[0] == '.' && Plain(ext[1..]))
    ensures ext == [] ==> forall k :: 0 <= k <= i && path[k] == '.' ==>
      exists j :: k < j <= i && path[j] == Separator
    decreases i + 1
  {
    if i < 0 || path[i] == Separator then []
    else if path[i] == '.' then path[i..]
    else ExtFrom(path, i - 1)
  }

  /**
   * `filepath.Ext`: the suffix of `path` that starts at the last '.' of its
   * last element, or "" when that element has no '.'.
   */
  function Ext(path: string): (ext: string)
    ensures HasSuffix(path, ext)
    ensures ext == [] || (ext[0] == '.' && Plain(ext[1..]))
  {
    ExtFrom(path, |path| - 1)
  }

  /** `Ext` is empty exactly when the last element of the path has no '.'. */
  lemma ExtEmpty(path: string)
    ensures Ext(path) == [] <==> NoExtension(path)
  {
    ExtFoundMeansExtension(path);
  }

  /** A non-empty scan result starts at a '.' that no separator follows. */
  lemma ExtFoundMeansExtension(path: string)
    ensures ExtFrom(path, |path| - 1) != [] ==> !NoExtension(path)
  {
    var ext := ExtFrom(path, |path| - 1);
    if ext != [] {
      var i := |path| - |ext|;
      assert path[i] == '.';
      forall j | i < j < |path| ensures path[j] != Separator {
        assert path[j] == ext[1..][j - i - 1];
      }
    }
  }

  /** The extension of a name is any dotted plain suffix it ends with. */
  lemma {:induction false} ExtOfAppend(stem: string, ext: string)
    requires |ext| > 0 && ext[0] == '.' && Plain(ext[1..])
    ensures Ext(stem + ext) == ext
  {
    var path := stem + ext;
    var r := Ext(path);
    var n := |path|;
    assert path[|stem|] == '.';
    forall j | |stem| < j < n ensures path[j] != '.' && path[j] != Separator {
      assert path[j] == ext[1..][j - |stem| - 1];
    }
    assert r != [];
    var start := n - |r|;
    assert path[start] == r[0] == '.';
    forall j | start < j < n ensures path[j] != '.' {
      assert path[j] == r[1..][j - start - 1];
    }
    assert start == |stem|;
    assert r == path[|stem|..] == ext;
  }

  /**
   * `unicode.ToLower` on the characters whose lower case is ASCII: the
   * ASCII capitals, U+212A KELVIN SIGN (to 'k') and U+0130 LATIN CAPITAL
   * LETTER I WITH DOT ABOVE (to 'i'). Every other character is left as it
   * is.
   */
  function LowerChar(c: char): char {
    if 'A' <= c <= 'Z' then (c as int + 32) as char
    else if c == '\U{212A}' then 'k'
    else if c == '\U{130}' then 'i'
    else c
  }

  /** `strings.ToLower`, on the characters whose lower case is ASCII. */
  function ToLower(s: string): (r: string)
    ensures |r| == |s|
  {
    seq(|s|, k requires 0 <= k < |s| => LowerChar(s[k]))
  }

  /** `ToLower` lowers each character in place. */
  lemma ToLowerAt(s: string)
    ensures forall k :: 0 <= k < |s| ==> ToLower(s)[k] == LowerChar(s[k])
  {
  }
}
