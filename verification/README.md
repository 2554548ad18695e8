# Markdown note store: a Dafny model

This project models the core of a small Go note-taking service. It covers
three parts.

- **The file-backed note store** (`Storage`). Each note is kept as two
  sibling files in one directory: `<id>.json` holds its metadata (id,
  title, creation and update times) and `<id>.md` holds its content
  verbatim.
  - `Save` gives a note without an id a fresh id and a creation time, and
    always stamps the update time. It then writes the metadata file and
    the content file, in that order.
  - `Get` reads both files back. `List` scans the directory and collects
    the metadata of every `.json` file it can read and decode.
  - `Delete` removes both files. A file that is already gone is not an
    error.
  - `SaveUploadedFile` saves an upload as a new note, titled after its
    file name minus the extension.
- **The grammar heuristic** (`Grammar.Check`). It applies three fixed
  rules and gives a score of 100 minus 10 per issue:
  - a doubled space, reported once, at its first occurrence;
  - a lower-case first byte;
  - a trimmed text that does not end in '.', '!' or '?'.
- **Filename utilities** (`FileUtil`).
  - `IsMarkdownFile` recognises `.md` and `.markdown` in any letter case.
  - `SanitizeFilename` keeps ASCII letters, digits and the characters
    whose low byte is `_`, `-`, `.` or space. It returns "untitled" when
    nothing is left.

`Paths` holds what the three parts share: `filepath.Ext` (on a Unix
separator) and `strings.ToLower` on the characters whose lower case is
ASCII. `Wrappers` holds `Option` and `Result`.

The directory is a `map<string, Entry>` field of the `FileStorage` class.
Its methods update that field in place, and the caller's `Note` object is
updated in place by `Save`. Everything the Go code gets from its
environment is a parameter:

- the uuid of a new note;
- the two readings of the clock;
- the order in which the directory is listed;
- whether each read, write or removal fails.

`Get` and `List` are also given as functions of the directory (`Fetch`,
`Listed`). The store's properties are proved about these functions: what a
save followed by a get returns, what a delete followed by a get returns,
what a listing returns after a series of saves, and which notes an
operation leaves untouched. Each method's `ensures` ties it to the
functions.

Two places deserve notice:

- `grammar_test.go:35-39` expects two spacing issues for a text with two
  separate doubled spaces. The code reports only the first one
  (`strings.Index`). The model follows the code, and
  `Grammar.RepeatedSpacesReportedOnce` proves the single issue.
- The punctuation issue's offset is the length of the trimmed text, not a
  position in the text. It is the distance from the first non-space byte
  to just past the last one, so it points just past the last non-space
  byte only when the text does not start with white space.
  `Grammar.PunctuationAfterLast` states the general offset, and
  `Grammar.PunctuationLeadingSpace` shows it on "  hello" (offset 5).

## Model

| member | source | states |
|---|---|---|
| Paths.Ext | internal/utils/file.go:18 | `filepath.Ext`: the result is a suffix of the path, either empty or a '.' followed by characters that are neither '.' nor a separator |
| Paths.ExtEmpty | internal/services/storage/storage.go:170-172 | the extension is empty exactly when every '.' of the path is followed by a separator, i.e. the last element has no '.' |
| Paths.ExtOfAppend | internal/services/storage/storage.go:118 | a name made of any stem and a dotted plain suffix has exactly that suffix as its extension |
| Paths.ToLower | internal/utils/file.go:18 | lower-casing keeps the length |
| Paths.ToLowerAt | internal/utils/file.go:18 | lower-casing maps each character in place: ASCII capitals, U+212A KELVIN SIGN to 'k' and U+0130 to 'i', everything else unchanged |
| FileUtil.IsMarkdownFile | internal/utils/file.go:16-27 | true exactly when the lower-cased extension is one of ".md" and ".markdown" (the loop's invariant rules out the extensions already tried) |
| FileUtil.SuffixGivesExt | internal/utils/file.go:18 | a name that ends, in any letter case, with a '.' followed by lower-case letters has that lower-cased extension |
| FileUtil.ExtMatchesSuffix | internal/utils/file.go:17-18 | for each markdown extension: the lower-cased extension equals it iff the name ends with it ignoring case (both directions) |
| FileUtil.MarkdownBySuffix | internal/utils/file.go:16-27 | markdown recognition agrees with a case-insensitive suffix test for ".md" or ".markdown" |
| FileUtil.NoExtensionRejected | internal/utils/file.go:18-26 | a name whose last element has no '.' is never markdown |
| FileUtil.MarkdownByExtension | internal/utils/file.go:18-24 | any stem followed by a dotted extension that lower-cases to a markdown one is recognised |
| FileUtil.MarkdownExampleLower | internal/utils/file.go:17-24 | "notes.md" is markdown |
| FileUtil.MarkdownExampleUpper | internal/utils/file.go:18 | "NOTE.MD" is markdown: letter case is ignored |
| FileUtil.MarkdownExampleMixedCase | internal/utils/file.go:17-18 | "guide.Markdown" is markdown |
| FileUtil.MarkdownExampleKelvin | internal/utils/file.go:18-24 | "a.mar\u212Adown" is markdown, because the Kelvin sign lower-cases to 'k' |
| FileUtil.MarkdownExampleRejected | internal/utils/file.go:17-26 | "notes.txt", "README" and "docs.md/README" are not markdown (the '.' of a directory does not count) |
| FileUtil.SanitizeFilename | internal/utils/file.go:30-62 | the nested loops return the kept characters in order, or "untitled" when none is kept (invariant: the result so far is the filter of the prefix scanned) |
| FileUtil.FilteredIsSubsequence | internal/utils/file.go:35-54 | the filtered name is obtained from the input by deleting characters |
| FileUtil.FilteredAllKept | internal/utils/file.go:35-54 | every character of the filtered name passes the filter |
| FileUtil.FilteredFixed | internal/utils/file.go:35-54 | filtering leaves a name unchanged iff every character of it passes the filter (both directions) |
| FileUtil.FilteredShorter | internal/utils/file.go:35-54 | filtering never lengthens a name |
| FileUtil.FilteredKeepsAlnums | internal/utils/file.go:36-40 | every ASCII letter and digit of the input survives, in its original order |
| FileUtil.SanitizedIsSafe | internal/utils/file.go:29-62 | the result is never empty, every character passes the filter, and it contains neither '/' nor '\\' |
| FileUtil.SanitizedIsSubsequence | internal/utils/file.go:35-61 | the result is "untitled" or a subsequence of the input |
| FileUtil.SanitizeIdempotent | internal/utils/file.go:30-62 | sanitising a sanitised name changes nothing |
| FileUtil.SanitizeExampleDots | internal/utils/file.go:32 | "../x" becomes "..x": the dots are kept, the separator is dropped |
| FileUtil.SanitizeExampleSeparators | internal/utils/file.go:35-54 | both separators are dropped from "a/\\b" |
| FileUtil.SanitizeExampleUntitled | internal/utils/file.go:57-59 | "" and "//" both become "untitled" |
| FileUtil.SanitizeExampleLowByte | internal/utils/file.go:45 | U+012D is kept because its low byte equals '-' |
| Grammar.IndexFirst | internal/services/grammar/grammar.go:30-31 | `strings.Index` returns -1 iff the pattern never occurs, and otherwise the first position where it does |
| Grammar.SpacingIssues | internal/services/grammar/grammar.go:30-39 | at most one issue, of type spacing, length 2, replacement " " |
| Grammar.SpacingRule | internal/services/grammar/grammar.go:30-39 | a spacing issue is reported iff two consecutive spaces occur, and its offset is the first such pair |
| Grammar.CapitalizationIssues | internal/services/grammar/grammar.go:42-50 | one issue iff the first byte is a lower-case ASCII letter, at offset 0, length 1, whose replacement is that letter in upper case |
| Grammar.FlagsCapitalizationAsWritten | internal/services/grammar/grammar.go:42 | on a byte string, the test as written flags every lower-case ASCII first byte and every UTF-8 lead byte E0..F4, and on an ASCII first byte it flags exactly the lower-case letters |
| Grammar.CapitalizationOnMultibyte | internal/services/grammar/grammar.go:42 | the test as written flags "中" (first byte E4, read as 'ä'); the corrected rule does not |
| Grammar.CapitalizationCorrection | internal/services/grammar/grammar.go:42-50 | the corrected rule agrees with the written one on texts that start with an ASCII byte and reports nothing otherwise |
| Grammar.TrimSpace | internal/services/grammar/grammar.go:53 | `strings.TrimSpace`: the result is no longer than the text, and when not empty it neither starts nor ends with white space (its contents are stated by the two lemmas below) |
| Grammar.TrimmedSlice | internal/services/grammar/grammar.go:53 | the trimmed text is a slice `text[lo..hi]` of the text with only white space before `lo` and from `hi` on, i.e. the text with its surrounding white space removed |
| Grammar.TrimmedBetween | internal/services/grammar/grammar.go:53 | given the first and last non-space bytes `f` and `i`, the trimmed text is exactly `text[f..i+1]` |
| Grammar.PunctuationIssues | internal/services/grammar/grammar.go:53-61 | at most one issue, of type punctuation, length 0, no replacement, offset the length of the trimmed text |
| Grammar.PunctuationRule | internal/services/grammar/grammar.go:53-61 | a punctuation issue is reported iff the text has a non-space byte and the last one is not '.', '!' or '?' |
| Grammar.TrimmedEmpty | internal/services/grammar/grammar.go:53-54 | the trimmed text is empty iff the text is all white space, and otherwise the text has a last non-space byte where the trimmed text ends |
| Grammar.TrimmedLast | internal/services/grammar/grammar.go:53-54 | the trimmed text ends with the text's last non-space byte, and is the text up to it when the text does not start with white space |
| Grammar.PunctuationAfterLast | internal/services/grammar/grammar.go:53-61 | with first and last non-space bytes `f` and `i`, the issue is reported exactly when byte `i` is not terminal, at offset `i + 1 - f` |
| Grammar.PunctuationLeadingSpace | internal/services/grammar/grammar.go:53-61 | on "  hello" the issue is at offset 5, the trimmed length, not 7 |
| Grammar.Check | internal/services/grammar/grammar.go:21-73 | the issues are the spacing, capitalization and punctuation issues in that order, the score is 100 − 10 per issue, and it lies in {70, 80, 90, 100} |
| Grammar.IssuesOrdered | internal/services/grammar/grammar.go:25-61 | at most three issues, one per rule, always in rule order |
| Grammar.CorrectSentence | internal/services/grammar/grammar_test.go:17-21 | "This is a correct sentence." has no issue |
| Grammar.MissingCapital | internal/services/grammar/grammar_test.go:23-27 | the sentence starting with "this" has exactly one issue, of type "capitalization", with replacement "T" |
| Grammar.MissingPeriod | internal/services/grammar/grammar_test.go:29-33 | "This sentence is missing a period" has exactly one issue, of type "punctuation", at offset 33 |
| Grammar.RepeatedSpacesReportedOnce | internal/services/grammar/grammar_test.go:35-39 | two separate doubled spaces give exactly one issue, of type "spacing", at the first (offset 8) |
| Grammar.ThreeIssues | internal/services/grammar/grammar_test.go:41-45 | the text has exactly three issues, of types "spacing", "capitalization" and "punctuation" |
| Storage.NameKinds | internal/services/storage/storage.go:46-64 | a note's metadata name has extension ".json" and its content name ".md" |
| Storage.NamesDistinct | internal/services/storage/storage.go:46-64 | a note's two names differ, and different ids never share a name |
| Storage.Written | internal/services/storage/storage.go:59-67 | after both writes the directory has exactly the old names plus the note's two, holding its metadata and its content; every other entry is unchanged and well-formedness is kept |
| Storage.Removed | internal/services/storage/storage.go:150-156 | after both removals neither of the note's names is present, every other entry is unchanged, and well-formedness is kept |
| Storage.Fetch | internal/services/storage/storage.go:73-107 | a successful get returns exactly the metadata in `<id>.json` and the content of `<id>.md` |
| Storage.TitleFromFilename | internal/services/storage/storage.go:168-172 | the title followed by the extension is the file name |
| Storage.FileStorage.constructor | internal/services/storage/storage.go:29-35 | the store starts over the given directory |
| Storage.FileStorage.Save | internal/services/storage/storage.go:38-70 | an id-less note gets the fresh id and creation time, and an existing one keeps both; the update time is always stamped; metadata whose timestamps fall outside the years 0..9999 fails to marshal and nothing is written; otherwise the directory is unchanged, holds only the new metadata, or is `Written`, depending on which write fails |
| Storage.FileStorage.Get | internal/services/storage/storage.go:73-107 | returns the error `Fetch` gives, or a new note carrying exactly the stored metadata and content |
| Storage.FileStorage.List | internal/services/storage/storage.go:110-143 | a failed directory read gives no notes and the error; otherwise the result is `Listed` over the listing (loop invariant: the notes so far are `Listed` over the names scanned) |
| Storage.FileStorage.Delete | internal/services/storage/storage.go:146-159 | a failed removal of a present file stops with its error, after removing the metadata in the second case; otherwise the directory becomes `Removed` and no error is returned, even when the files were absent |
| Storage.FileStorage.SaveUploadedFile | internal/services/storage/storage.go:162-184 | a failed read, or clock readings outside the years 0..9999, change nothing; otherwise a new note titled after the file name without its extension, with the upload as content, is saved as `Save` does, and on success it is returned |
| Storage.SaveThenGet | internal/services/storage/storage.go:38-107 | a get after a successful save returns the saved metadata and content |
| Storage.GetErrors | internal/services/storage/storage.go:76-94 | "not found" iff `<id>.json` is absent; undecodable metadata gives the unmarshal error; a missing `<id>.md` gives the content-read error |
| Storage.DeleteThenGet | internal/services/storage/storage.go:146-159 | a get after a successful delete reports "not found" whatever else fails |
| Storage.DeleteTwice | internal/services/storage/storage.go:150-156 | deleting a deleted note changes nothing |
| Storage.SaveKeepsOthers | internal/services/storage/storage.go:46-67 | a save leaves what get returns for every other id unchanged |
| Storage.DeleteKeepsOthers | internal/services/storage/storage.go:146-159 | a delete leaves what get returns for every other id unchanged |
| Storage.ListedMembers | internal/services/storage/storage.go:117-140 | the listed metadata are exactly those of the readable, decodable `.json` entries among the names scanned |
| Storage.ListedAppend | internal/services/storage/storage.go:117-140 | the scan keeps directory order: scanning two runs of names concatenates their results |
| Storage.ListedCount | internal/services/storage/storage.go:117-140 | a scan without repeated names lists one entry per loadable name |
| Storage.ListReportsEveryLoadable | internal/services/storage/storage.go:110-143 | over any listing of the directory, one entry per loadable `.json` file, each carrying that file's metadata |
| Storage.SaveAddsLoadable | internal/services/storage/storage.go:46-61 | a save adds the note's `.json` entry, and only it, to what list reports |
| Storage.DeleteDropsLoadable | internal/services/storage/storage.go:150-152 | a delete removes the note's `.json` entry, and only it, from what list reports |
| Storage.SavedLoadable | internal/services/storage/storage_test.go:81-92 | after saving notes with distinct ids into an empty directory, there are as many loadable entries as notes |
| Storage.ListAfterSaves | internal/services/storage/storage_test.go:81-106 | listing after those saves, in any directory order, returns one entry per note, carrying exactly the saved metadata |
| Storage.TitleDropsExtension | internal/services/storage/storage.go:169-172 | an upload named stem plus extension is titled stem |
| Storage.TitleWithoutExtension | internal/services/storage/storage.go:169-172 | an upload name whose last element has no '.' is the title unchanged |
| Storage.TitleExample | tests/integration_test.go:143-175 | "test-upload.md" is titled "test-upload" |

## Findings

| source | as written | input that shows it | evidently intended | confidence | as-written member | corrected member |
|---|---|---|---|---|---|---|
| internal/services/grammar/grammar.go:42 | `unicode.IsLower(rune(text[0]))` widens the first byte of the UTF-8 text to a rune. Every lead byte E0..F4 of a multi-byte character reads as a Latin-1 lower-case letter. | "中" (bytes E4 B8 AD) gets a capitalization issue with replacement "Ä" | flag only a lower-case first letter; an ideograph has no case | medium, not executed | Grammar.CapitalizationOnMultibyte (on Grammar.FlagsCapitalizationAsWritten) | Grammar.CapitalizationIssues, related to the original by Grammar.CapitalizationCorrection |

## Left out

- Grammar.CapitalizationIssues: tests the first byte with ASCII `IsLower`, as the finding above explains. The original also flags the Latin-1 lower-case bytes (U+00B5, U+00DF..U+00F6, U+00F8..U+00FF). Their upper-case replacement (`strings.ToUpper` of a one-rune string) is not modelled.
- Paths.ToLower: lowers the ASCII capitals, U+212A and U+0130, the only characters whose lower case is ASCII. `strings.ToLower` also lowers other Unicode letters to non-ASCII letters. Those can never match ".md" or ".markdown", so `IsMarkdownFile` is exact, but `ToLower` itself differs from Go on such names.
- Grammar.TrimSpace: removes ASCII white space only. Go also trims U+0085, U+00A0 and other Unicode spaces.
- Grammar.Check: the score is a Go `float64`. Its values here are integers, so it is modelled as `int`. The clamp at 0 never fires.
- JSON encoding: RFC 3339 formatting and parsing are not modelled. The metadata is an abstract record. Timestamps are whole seconds in UTC since the zero time, so sub-second precision and time zones are left out; the year range that makes `MarshalIndent` fail (storage.go:54-57) is taken in UTC. A timestamp that fails to parse becomes the zero time in the original; here it is part of the stored record.
- Storage.FileStorage.Get, Storage.FileStorage.List: metadata JSON that decodes but lacks a string field makes the original panic in a type assertion. This is the `Incomplete` entry. The methods require that no such entry is reached (`!GetPanics`, `!ListPanics`) rather than modelling the panic.
- Write failures are modelled as writing nothing. A partially written or truncated file is not captured.
- File modes (0644, 0755) and the ignored `MkdirAll` error in `NewFileStorage` are not modelled, and neither are ids containing separators or "..", which `filepath.Join` would clean into other paths. The separator is '/' only.
- The `Storage` interface (storage.go:16-21) is not a separate type: `FileStorage` is its only implementation.
- Storage.FileStorage.List: `os.ReadDir` lists names sorted. The model accepts any listing that names every entry once, which is more general. The original returns a nil slice, not an empty one, when nothing is found; both are the empty sequence here.
- Concurrent access to the directory is not modelled.
- uuid generation and the clock are parameters: `freshId`, `createdNow`, `updatedNow`. `Save` and `SaveUploadedFile` require the fresh id to be unused, which uuids give in practice. They also require the clock readings to be positive and in order.
- `EnsureDirectory` and `GetFileSize` in internal/utils/file.go are thin wrappers over the operating system and are not modelled. The HTTP handlers, the markdown renderer, configuration and middleware are outside this model.
