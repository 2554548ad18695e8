/**
 * The file-backed note store. Each note lives in one directory as two
 * sibling entries: `<id>.json`, holding its metadata, and `<id>.md`,
 * holding its content verbatim.
 *
 * The directory is a map from file name to entry. What the original
 * obtains from the environment becomes a parameter: the fresh id that
 * `uuid.New()` would produce, the readings of `time.Now()`, the order in
 * which `os.ReadDir` lists the names, and whether each read, write or
 * removal fails.
 */
module Storage {
  import opened Wrappers
  import opened Paths

  /**
   * A timestamp, in whole seconds since Go's zero `time.Time`
   * (00:00:00 UTC, 1 January of year 1), which is 0 here.
   */
  type Time = int

  /** The first second of year 0 (a leap year of 366 days), proleptic Gregorian. */
  const YearZero: Time := -31_622_400

  /** The first second of year 10000: 3652059 days after the zero time. */
  const YearTenThousand: Time := 315_537_897_600

  /** `time.Time.MarshalJSON` fails on a year outside 0..9999. */
  predicate Encodable(t: Time) {
    YearZero <= t < YearTenThousand
  }

  /** `models.NoteMetadata`: a note without its content. */
  datatype NoteMetadata = NoteMetadata(id: string, title: string, createdAt: Time, updatedAt: Time)

  /**
   * A directory entry. A `.json` entry holds metadata that unmarshals
   * (`Metadata`), bytes that are not JSON (`Corrupt`), or JSON that lacks
   * one of the string fields `id`, `title`, `created_at`, `updated_at`
   * (`Incomplete`: the original's type assertions panic on it). A `.md`
   * entry holds the content as text.
   */
  datatype Entry =
    | Metadata(meta: NoteMetadata)
    | Corrupt
    | Incomplete
    | Markdown(text: string)

  /** The failures the original reports, one per `fmt.Errorf`. */
  datatype Error =
    | MarshalMetadataFailed
    | NotFound
    | ReadMetadataFailed
    | UnmarshalFailed
    | ReadContentFailed
    | WriteMetadataFailed
    | WriteMarkdownFailed
    | ReadDirectoryFailed
    | RemoveMetadataFailed
    | RemoveMarkdownFailed
    | ReadUploadFailed

  /** What a successful `Get` yields: the stored metadata and the content. */
  datatype StoredNote = StoredNote(meta: NoteMetadata, content: string)

  /** `json.MarshalIndent` of the metadata map succeeds: both timestamps encode. */
  predicate MetadataEncodable(meta: NoteMetadata) {
    Encodable(meta.createdAt) && Encodable(meta.updatedAt)
  }

  function MetaName(id: string): string {
    id + ".json"
  }

  function ContentName(id: string): string {
    id + ".md"
  }

  /** Entries whose names end in ".md" are text, and ".json" entries are not. */
  predicate WellFormed(files: map<string, Entry>) {
    forall name :: name in files ==>
      && (Ext(name) == ".md" ==> files[name].Markdown?)
      && (Ext(name) == ".json" ==> !files[name].Markdown?)
  }

  /** The extension of each of a note's two names. */
  lemma NameKinds(id: string)
    ensures Ext(MetaName(id)) == ".json"
    ensures Ext(ContentName(id)) == ".md"
  {
    ExtOfAppend(id, ".json");
    ExtOfAppend(id, ".md");
  }

  /** Different notes never share an entry, and a note's two entries differ. */
  lemma NamesDistinct(id: string, other: string)
    ensures MetaName(id) != ContentName(other)
    ensures id != other ==> MetaName(id) != MetaName(other) && ContentName(id) != ContentName(other)
  {
    NameKinds(id);
    NameKinds(other);
    if id != other && |id| == |other| {
      var k :| 0 <= k < |id| && id[k] != other[k];
      assert MetaName(id)[k] != MetaName(other)[k];
      assert ContentName(id)[k] != ContentName(other)[k];
    }
  }

  // ---------------------------------------------------------------------
  // The directory after each operation
  // ---------------------------------------------------------------------

  /** Storing an entry of the right kind under a name keeps the directory well formed. */
  lemma StoreKeepsWellFormed(files: map<string, Entry>, name: string, entry: Entry)
    requires WellFormed(files)
    requires Ext(name) == ".md" ==> entry.Markdown?
    requires Ext(name) == ".json" ==> !entry.Markdown?
    ensures WellFormed(files[name := entry])
  {
  }

  /** Removing an entry keeps the directory well formed. */
  lemma DropKeepsWellFormed(files: map<string, Entry>, name: string)
    requires WellFormed(files)
    ensures WellFormed(files - {name})
  {
  }

  /** The directory once a note's metadata and then its content are written. */
  function Written(files: map<string, Entry>, meta: NoteMetadata, content: string): (r: map<string, Entry>)
    ensures WellFormed(files) ==> WellFormed(r)
    ensures r.Keys == files.Keys + {MetaName(meta.id), ContentName(meta.id)}
    ensures r[MetaName(meta.id)] == Metadata(meta) && r[ContentName(meta.id)] == Markdown(content)
    ensures forall name :: name in files && name != MetaName(meta.id) && name != ContentName(meta.id) ==> r[name] == files[name]
  {
    NameKinds(meta.id);
    NamesDistinct(meta.id, meta.id);
    var withMeta := files[MetaName(meta.id) := Metadata(meta)];
    if WellFormed(files) then
      StoreKeepsWellFormed(files, MetaName(meta.id), Metadata(meta));
      StoreKeepsWellFormed(withMeta, ContentName(meta.id), Markdown(content));
      withMeta[ContentName(meta.id) := Markdown(content)]
    else
      withMeta[ContentName(meta.id) := Markdown(content)]
  }

  /** The directory once both of a note's entries are removed. */
  function Removed(files: map<string, Entry>, id: string): (r: map<string, Entry>)
    ensures WellFormed(files) ==> WellFormed(r)
    ensures MetaName(id) !in r && ContentName(id) !in r
    ensures forall name :: name in r <==> name in files && name != MetaName(id) && name != ContentName(id)
    ensures forall name :: name in r ==> r[name] == files[name]
  {
    files - {MetaName(id), ContentName(id)}
  }

  // ---------------------------------------------------------------------
  // Get, as a function of the directory
  // ---------------------------------------------------------------------

  /**
   * The original dereferences the metadata's fields with unchecked type
   * assertions once both files are read: an `Incomplete` record panics.
   */
  predicate GetPanics(files: map<string, Entry>, id: string, metaReadFails: bool, contentReadFails: bool) {
    && MetaName(id) in files && !metaReadFails && files[MetaName(id)].Incomplete?
    && ContentName(id) in files && !contentReadFails
  }

  /**
   * The outcome of `Get(id)`: "not found" only when `<id>.json` is absent,
   * then a failed metadata read, metadata that does not unmarshal, and a
   * missing or unreadable `<id>.md`, in that order.
   */
  function Fetch(files: map<string, Entry>, id: string, metaReadFails: bool, contentReadFails: bool): (r: Result<StoredNote, Error>)
    requires WellFormed(files)
    requires !GetPanics(files, id, metaReadFails, contentReadFails)
    ensures r.Success? ==>
      && MetaName(id) in files && files[MetaName(id)] == Metadata(r.value.meta)
      && ContentName(id) in files && files[ContentName(id)] == Markdown(r.value.content)
  {
    NameKinds(id);
    if MetaName(id) !in files then Failure(NotFound)
    else if metaReadFails then Failure(ReadMetadataFailed)
    else if files[MetaName(id)].Corrupt? then Failure(UnmarshalFailed)
    else if ContentName(id) !in files || contentReadFails then Failure(ReadContentFailed)
    else Success(StoredNote(files[MetaName(id)].meta, files[ContentName(id)].text))
  }

  // ---------------------------------------------------------------------
  // List, as a function of the directory and its listing
  // ---------------------------------------------------------------------

  /** `listing` names every entry of the directory exactly once. */
  ghost predicate IsListing(files: map<string, Entry>, listing: seq<string>) {
    && (forall i, j :: 0 <= i < j < |listing| ==> listing[i] != listing[j])
    && (forall name :: name in listing <==> name in files)
  }

  /** A `.json` entry that reads and unmarshals, so `List` reports it. */
  predicate Loadable(files: map<string, Entry>, unreadable: set<string>, name: string) {
    name in files && Ext(name) == ".json" && name !in unreadable && files[name].Metadata?
  }

  /** Some `.json` entry that reads is `Incomplete`, and `List` panics on it. */
  predicate ListPanics(files: map<string, Entry>, unreadable: set<string>) {
    exists name :: name in files && Ext(name) == ".json" && name !in unreadable && files[name].Incomplete?
  }

  /** The metadata `List` collects from scanning `names` in order. */
  function Listed(files: map<string, Entry>, names: seq<string>, unreadable: set<string>): seq<NoteMetadata>
  {
    if names == [] then []
    else
      var name := names[|names| - 1];
      Listed(files, names[..|names| - 1], unreadable)
        + (if Loadable(files, unreadable, name) then [files[name].meta] else [])
  }

  /** The loadable entries among `names`. */
  function LoadableIn(files: map<string, Entry>, unreadable: set<string>, names: seq<string>): set<string> {
    set name | name in names && Loadable(files, unreadable, name)
  }

  /** Every loadable entry of the directory. */
  function LoadableSet(files: map<string, Entry>, unreadable: set<string>): set<string> {
    set name | name in files && Loadable(files, unreadable, name)
  }

  // ---------------------------------------------------------------------
  // The note the caller hands to Save
  // ---------------------------------------------------------------------

  /** `models.Note`; `Save` assigns its id and timestamps in place. */
  class Note {
    var id: string
    var title: string
    var content: string
    var createdAt: Time
    var updatedAt: Time

    constructor(id: string, title: string, content: string, createdAt: Time, updatedAt: Time)
      ensures this.id == id && this.title == title && this.content == content
      ensures this.createdAt == createdAt && this.updatedAt == updatedAt
    {
      this.id := id;
      this.title := title;
      this.content := content;
      this.createdAt := createdAt;
      this.updatedAt := updatedAt;
    }

    /** The fields written to `<id>.json`. */
    function Metadata(): NoteMetadata
      reads this
    {
      NoteMetadata(id, title, createdAt, updatedAt)
    }
  }

  /** The title of an upload: its file name without the extension. */
  function TitleFromFilename(filename: string): (title: string)
    ensures title + Ext(filename) == filename
  {
    var ext := Ext(filename);
    if ext != "" then filename[..|filename| - |ext|] else filename
  }

  // ---------------------------------------------------------------------
  // The store
  // ---------------------------------------------------------------------

  class FileStorage {
    /** The notes directory, by file name. */
    var files: map<string, Entry>

    predicate Valid()
      reads this
    {
      WellFormed(files)
    }

    /** `NewFileStorage`: a store over a directory that may already hold notes. */
    constructor(existing: map<string, Entry>)
      requires WellFormed(existing)
      ensures Valid() && files == existing
    {
      files := existing;
    }

    /**
     * `Save`: a note without an id gets `freshId` and the creation time
     * `createdNow`; every note gets the update time `updatedNow`. Metadata
     * whose timestamps do not encode is refused before anything is written.
     * Then `<id>.json` and `<id>.md` are written in turn, and a failed write
     * returns at once, so the metadata may be in place without the content.
     */
    method Save(note: Note, freshId: string, createdNow: Time, updatedNow: Time,
                metaWriteFails: bool, mdWriteFails: bool) returns (err: Option<Error>)
      requires Valid()
      requires 0 < updatedNow
      requires note.id == "" ==>
        && freshId != "" && 0 < createdNow <= updatedNow
        && MetaName(freshId) !in files && ContentName(freshId) !in files
      modifies this, note
      ensures Valid()
      ensures old(note.id) == "" ==> note.id == freshId && note.createdAt == createdNow
      ensures old(note.id) != "" ==> note.id == old(note.id) && note.createdAt == old(note.createdAt)
      ensures note.updatedAt == updatedNow
      ensures note.title == old(note.title) && note.content == old(note.content)
      ensures !MetadataEncodable(note.Metadata()) ==> err == Some(MarshalMetadataFailed) && files == old(files)
      ensures MetadataEncodable(note.Metadata()) && metaWriteFails ==>
        err == Some(WriteMetadataFailed) && files == old(files)
      ensures MetadataEncodable(note.Metadata()) && !metaWriteFails && mdWriteFails ==>
        err == Some(WriteMarkdownFailed) && files == old(files)[MetaName(note.id) := Metadata(note.Metadata())]
      ensures MetadataEncodable(note.Metadata()) && !metaWriteFails && !mdWriteFails ==>
        err == None && files == Written(old(files), note.Metadata(), note.content)
    {
      if note.id == "" {
        note.id := freshId;
        note.createdAt := createdNow;
      }
      note.updatedAt := updatedNow;

      NameKinds(note.id);
      var metadataPath := MetaName(note.id);
      var metadata := note.Metadata();
      if !MetadataEncodable(metadata) {
        return Some(MarshalMetadataFailed);
      }
      if metaWriteFails {
        return Some(WriteMetadataFailed);
      }
      StoreKeepsWellFormed(files, metadataPath, Metadata(metadata));
      files := files[metadataPath := Metadata(metadata)];

      var markdownPath := ContentName(note.id);
      if mdWriteFails {
        return Some(WriteMarkdownFailed);
      }
      StoreKeepsWellFormed(files, markdownPath, Markdown(note.content));
      files := files[markdownPath := Markdown(note.content)];
      err := None;
    }

    /** `Get`: a new note built from the two entries, or the first failure. */
    method Get(id: string, metaReadFails: bool, contentReadFails: bool) returns (note: Note?, err: Option<Error>)
      requires Valid()
      requires !GetPanics(files, id, metaReadFails, contentReadFails)
      ensures Fetch(files, id, metaReadFails, contentReadFails).Failure? ==>
        note == null && err == Some(Fetch(files, id, metaReadFails, contentReadFails).error)
      ensures Fetch(files, id, metaReadFails, contentReadFails).Success? ==>
        && err == None && note != null && fresh(note)
        && note.Metadata() == Fetch(files, id, metaReadFails, contentReadFails).value.meta
        && note.content == Fetch(files, id, metaReadFails, contentReadFails).value.content
    {
      NameKinds(id);
      var metadataPath := MetaName(id);
      if metadataPath !in files {
        return null, Some(NotFound);
      }
      if metaReadFails {
        return null, Some(ReadMetadataFailed);
      }
      var metadata := files[metadataPath];
      if metadata.Corrupt? {
        return null, Some(UnmarshalFailed);
      }

      var markdownPath := ContentName(id);
      if markdownPath !in files || contentReadFails {
        return null, Some(ReadContentFailed);
      }
      var content := files[markdownPath].text;

      note := new Note(metadata.meta.id, metadata.meta.title, content, metadata.meta.createdAt, metadata.meta.updatedAt);
      err := None;
    }

    /**
     * `List`: the metadata of every `.json` entry, in listing order; entries
     * that cannot be read or do not unmarshal are skipped.
     */
    method List(listing: seq<string>, readDirFails: bool, unreadable: set<string>)
      returns (notes: seq<NoteMetadata>, err: Option<Error>)
      requires Valid()
      requires IsListing(files, listing)
      requires !ListPanics(files, unreadable)
      ensures readDirFails ==> notes == [] && err == Some(ReadDirectoryFailed)
      ensures !readDirFails ==> notes == Listed(files, listing, unreadable) && err == None
    {
      if readDirFails {
        return [], Some(ReadDirectoryFailed);
      }

      notes := [];
      for i := 0 to |listing|
        invariant notes == Listed(files, listing[..i], unreadable)
      {
        var name := listing[i];
        assert listing[..i + 1][..i] == listing[..i];
        if Ext(name) == ".json" {
          if name in unreadable {
            continue;
          }
          var metadata := files[name];
          if metadata.Corrupt? {
            continue;
          }
          notes := notes + [metadata.meta];
        }
      }
      assert listing[..|listing|] == listing;
      err := None;
    }

    /**
     * `Delete`: removes `<id>.json` and then `<id>.md`. An absent entry is
     * not an error; any other failure returns at once.
     */
    method Delete(id: string, metaRemoveFails: bool, mdRemoveFails: bool) returns (err: Option<Error>)
      requires Valid()
      modifies this
      ensures Valid()
      ensures MetaName(id) in old(files) && metaRemoveFails ==>
        err == Some(RemoveMetadataFailed) && files == old(files)
      ensures !(MetaName(id) in old(files) && metaRemoveFails) && ContentName(id) in old(files) && mdRemoveFails ==>
        err == Some(RemoveMarkdownFailed) && files == old(files) - {MetaName(id)}
      ensures !(MetaName(id) in old(files) && metaRemoveFails) && !(ContentName(id) in old(files) && mdRemoveFails) ==>
        err == None && files == Removed(old(files), id)
    {
      NamesDistinct(id, id);
      var metadataPath := MetaName(id);
      var markdownPath := ContentName(id);

      if metadataPath in files && metaRemoveFails {
        return Some(RemoveMetadataFailed);
      }
      DropKeepsWellFormed(files, metadataPath);
      files := files - {metadataPath};

      if markdownPath in files && mdRemoveFails {
        return Some(RemoveMarkdownFailed);
      }
      DropKeepsWellFormed(files, markdownPath);
      files := files - {markdownPath};
      assert files == old(files) - {metadataPath, markdownPath};
      err := None;
    }

    /**
     * `SaveUploadedFile`: reads the upload, titles the note after the file
     * name without its extension, and saves it as a new note.
     */
    method SaveUploadedFile(upload: string, readFails: bool, filename: string,
                            freshId: string, createdNow: Time, updatedNow: Time,
                            metaWriteFails: bool, mdWriteFails: bool) returns (note: Note?, err: Option<Error>)
      requires Valid()
      requires freshId != "" && 0 < createdNow <= updatedNow
      requires MetaName(freshId) !in files && ContentName(freshId) !in files
      modifies this
      ensures Valid()
      ensures readFails ==> note == null && err == Some(ReadUploadFailed) && files == old(files)
      ensures !readFails && !(Encodable(createdNow) && Encodable(updatedNow)) ==>
        note == null && err == Some(MarshalMetadataFailed) && files == old(files)
      ensures !readFails && Encodable(createdNow) && Encodable(updatedNow) && metaWriteFails ==>
        note == null && err == Some(WriteMetadataFailed) && files == old(files)
      ensures !readFails && Encodable(createdNow) && Encodable(updatedNow) && !metaWriteFails && mdWriteFails ==>
        && note == null && err == Some(WriteMarkdownFailed)
        && files == old(files)[MetaName(freshId) := Metadata(NoteMetadata(freshId, TitleFromFilename(filename), createdNow, updatedNow))]
      ensures !readFails && Encodable(createdNow) && Encodable(updatedNow) && !metaWriteFails && !mdWriteFails ==>
        && err == None && note != null && fresh(note)
        && note.Metadata() == NoteMetadata(freshId, TitleFromFilename(filename), createdNow, updatedNow)
        && note.content == upload
        && files == Written(old(files), note.Metadata(), upload)
    {
      if readFails {
        return null, Some(ReadUploadFailed);
      }

      var title := TitleFromFilename(filename);
      note := new Note("", title, upload, 0, 0);
      err := Save(note, freshId, createdNow, updatedNow, metaWriteFails, mdWriteFails);
      if err.Some? {
        return null, err;
      }
    }
  }

  // ---------------------------------------------------------------------
  // Properties
  // ---------------------------------------------------------------------

  /** `Get` after a successful `Save` returns the saved metadata and content. */
  lemma SaveThenGet(files: map<string, Entry>, meta: NoteMetadata, content: string)
    requires WellFormed(files)
    ensures Fetch(Written(files, meta, content), meta.id, false, false) == Success(StoredNote(meta, content))
  {
  }

  /**
   * "Not found" is reported exactly when `<id>.json` is absent; a present
   * record that does not unmarshal, or whose `<id>.md` is missing, gets its
   * own error.
   */
  lemma GetErrors(files: map<string, Entry>, id: string, metaReadFails: bool, contentReadFails: bool)
    requires WellFormed(files)
    requires !GetPanics(files, id, metaReadFails, contentReadFails)
    ensures Fetch(files, id, metaReadFails, contentReadFails) == Failure(NotFound) <==> MetaName(id) !in files
    ensures MetaName(id) in files && !metaReadFails && files[MetaName(id)].Corrupt? ==>
      Fetch(files, id, metaReadFails, contentReadFails) == Failure(UnmarshalFailed)
    ensures MetaName(id) in files && !metaReadFails && files[MetaName(id)].Metadata? && ContentName(id) !in files ==>
      Fetch(files, id, metaReadFails, contentReadFails) == Failure(ReadContentFailed)
  {
  }

  /** `Get` after `Delete` reports "not found", whatever else fails. */
  lemma DeleteThenGet(files: map<string, Entry>, id: string, metaReadFails: bool, contentReadFails: bool)
    requires WellFormed(files)
    ensures Fetch(Removed(files, id), id, metaReadFails, contentReadFails) == Failure(NotFound)
  {
  }

  /** A second `Delete` of the same id finds nothing to remove and changes nothing. */
  lemma DeleteTwice(files: map<string, Entry>, id: string)
    ensures MetaName(id) !in Removed(files, id) && ContentName(id) !in Removed(files, id)
    ensures Removed(Removed(files, id), id) == Removed(files, id)
  {
  }

  /** Saving one note leaves what `Get` returns for every other id unchanged. */
  lemma SaveKeepsOthers(files: map<string, Entry>, meta: NoteMetadata, content: string,
                        other: string, metaReadFails: bool, contentReadFails: bool)
    requires WellFormed(files)
    requires other != meta.id
    requires !GetPanics(files, other, metaReadFails, contentReadFails)
    ensures !GetPanics(Written(files, meta, content), other, metaReadFails, contentReadFails)
    ensures Fetch(Written(files, meta, content), other, metaReadFails, contentReadFails)
         == Fetch(files, other, metaReadFails, contentReadFails)
  {
    var written := Written(files, meta, content);
    NamesDistinct(other, meta.id);
    NamesDistinct(meta.id, other);
    assert MetaName(other) in written <==> MetaName(other) in files;
    assert ContentName(other) in written <==> ContentName(other) in files;
    if MetaName(other) in files {
      assert written[MetaName(other)] == files[MetaName(other)];
    }
    if ContentName(other) in files {
      assert written[ContentName(other)] == files[ContentName(other)];
    }
  }

  /** Deleting one note leaves what `Get` returns for every other id unchanged. */
  lemma DeleteKeepsOthers(files: map<string, Entry>, id: string,
                          other: string, metaReadFails: bool, contentReadFails: bool)
    requires WellFormed(files)
    requires other != id
    requires !GetPanics(files, other, metaReadFails, contentReadFails)
    ensures !GetPanics(Removed(files, id), other, metaReadFails, contentReadFails)
    ensures Fetch(Removed(files, id), other, metaReadFails, contentReadFails)
         == Fetch(files, other, metaReadFails, contentReadFails)
  {
    var removed := Removed(files, id);
    NamesDistinct(other, id);
    NamesDistinct(id, other);
    assert MetaName(other) in removed <==> MetaName(other) in files;
    assert ContentName(other) in removed <==> ContentName(other) in files;
    if MetaName(other) in files {
      assert removed[MetaName(other)] == files[MetaName(other)];
    }
    if ContentName(other) in files {
      assert removed[ContentName(other)] == files[ContentName(other)];
    }
  }

  /** `List` reports exactly the metadata of the loadable entries it scans. */
  lemma {:induction false} ListedMembers(files: map<string, Entry>, names: seq<string>, unreadable: set<string>)
    ensures forall m :: m in Listed(files, names, unreadable) <==>
      exists name :: name in names && Loadable(files, unreadable, name) && files[name].meta == m
  {
    if names != [] {
      var init := names[..|names| - 1];
      ListedMembers(files, init, unreadable);
      assert names == init + [names[|names| - 1]];
    }
  }

  /** `List` keeps scan order: scanning two runs of names concatenates their results. */
  lemma {:induction false} ListedAppend(files: map<string, Entry>, a: seq<string>, b: seq<string>, unreadable: set<string>)
    ensures Listed(files, a + b, unreadable) == Listed(files, a, unreadable) + Listed(files, b, unreadable)
    decreases |b|
  {
    if b == [] {
      assert a + b == a;
    } else {
      var init := b[..|b| - 1];
      ListedAppend(files, a, init, unreadable);
      assert (a + b)[..|a + b| - 1] == a + init;
      assert (a + b)[|a + b| - 1] == b[|b| - 1];
    }
  }

  /** Scanning one more name adds that name to the loadable ones, when it is loadable. */
  lemma LoadableInSnoc(files: map<string, Entry>, unreadable: set<string>, names: seq<string>, name: string)
    ensures LoadableIn(files, unreadable, names + [name]) ==
      LoadableIn(files, unreadable, names) + (if Loadable(files, unreadable, name) then {name} else {})
  {
  }

  /** Scanning names without repeats yields one entry per loadable name. */
  lemma {:induction false} ListedCount(files: map<string, Entry>, names: seq<string>, unreadable: set<string>)
    requires forall i, j :: 0 <= i < j < |names| ==> names[i] != names[j]
    ensures |Listed(files, names, unreadable)| == |LoadableIn(files, unreadable, names)|
  {
    if names != [] {
      var init := names[..|names| - 1];
      var last := names[|names| - 1];
      ListedCount(files, init, unreadable);
      assert names == init + [last];
      LoadableInSnoc(files, unreadable, init, last);
      assert last !in LoadableIn(files, unreadable, init);
    }
  }

  /**
   * Over any listing of the directory, `List` returns one entry per
   * loadable `.json` entry, and each is that entry's metadata.
   */
  lemma ListReportsEveryLoadable(files: map<string, Entry>, listing: seq<string>, unreadable: set<string>)
    requires IsListing(files, listing)
    ensures |Listed(files, listing, unreadable)| == |LoadableSet(files, unreadable)|
    ensures forall m :: m in Listed(files, listing, unreadable) <==>
      exists name :: name in files && Loadable(files, unreadable, name) && files[name].meta == m
  {
    ListedCount(files, listing, unreadable);
    ListedMembers(files, listing, unreadable);
    assert LoadableIn(files, unreadable, listing) == LoadableSet(files, unreadable);
  }

  /** Saving a note makes its `.json` entry loadable and affects no other. */
  lemma SaveAddsLoadable(files: map<string, Entry>, meta: NoteMetadata, content: string, unreadable: set<string>)
    requires MetaName(meta.id) !in unreadable
    ensures LoadableSet(Written(files, meta, content), unreadable) == LoadableSet(files, unreadable) + {MetaName(meta.id)}
  {
    NameKinds(meta.id);
  }

  /** Deleting a note removes its `.json` entry, and only that, from what `List` reports. */
  lemma DeleteDropsLoadable(files: map<string, Entry>, id: string, unreadable: set<string>)
    ensures LoadableSet(Removed(files, id), unreadable) == LoadableSet(files, unreadable) - {MetaName(id)}
  {
    NameKinds(id);
  }

  /** The directory after saving each note in turn, starting from an empty one. */
  function Saved(notes: seq<StoredNote>): map<string, Entry>
  {
    if notes == [] then map[]
    else
      var last := notes[|notes| - 1];
      Written(Saved(notes[..|notes| - 1]), last.meta, last.content)
  }

  predicate DistinctIds(notes: seq<StoredNote>) {
    forall i, j :: 0 <= i < j < |notes| ==> notes[i].meta.id != notes[j].meta.id
  }

  /** Every entry after the saves is one of the two entries of some saved note. */
  lemma {:induction false} SavedNameOwner(notes: seq<StoredNote>, name: string)
    requires name in Saved(notes)
    ensures exists i :: 0 <= i < |notes| && (name == MetaName(notes[i].meta.id) || name == ContentName(notes[i].meta.id))
  {
    var init := notes[..|notes| - 1];
    if name in Saved(init) {
      SavedNameOwner(init, name);
      var i :| 0 <= i < |init| && (name == MetaName(init[i].meta.id) || name == ContentName(init[i].meta.id));
      assert notes[i] == init[i];
    } else {
      assert notes[|notes| - 1] == notes[|notes| - 1];
    }
  }

  /** An id that no save used has no entry. */
  lemma {:induction false} SavedAbsent(notes: seq<StoredNote>, id: string)
    requires forall i :: 0 <= i < |notes| ==> notes[i].meta.id != id
    ensures MetaName(id) !in Saved(notes)
  {
    if notes != [] {
      var init := notes[..|notes| - 1];
      SavedAbsent(init, id);
      NamesDistinct(id, notes[|notes| - 1].meta.id);
    }
  }

  /** The last save of a note's name wins, so each note's metadata is in place. */
  lemma {:induction false} SavedMetadata(notes: seq<StoredNote>)
    requires DistinctIds(notes)
    ensures forall i :: 0 <= i < |notes| ==>
      MetaName(notes[i].meta.id) in Saved(notes) && Saved(notes)[MetaName(notes[i].meta.id)] == Metadata(notes[i].meta)
  {
    if notes != [] {
      var init := notes[..|notes| - 1];
      var last := notes[|notes| - 1];
      var before := Saved(init);
      assert Saved(notes) == Written(before, last.meta, last.content);
      SavedMetadata(init);
      forall i | 0 <= i < |init|
        ensures MetaName(notes[i].meta.id) in Saved(notes)
        ensures Saved(notes)[MetaName(notes[i].meta.id)] == Metadata(notes[i].meta)
      {
        var name := MetaName(init[i].meta.id);
        assert notes[i] == init[i];
        NamesDistinct(init[i].meta.id, last.meta.id);
        assert name in before && before[name] == Metadata(init[i].meta);
        assert Written(before, last.meta, last.content)[name] == before[name];
      }
    }
  }

  /** After saves with distinct ids, there is one loadable entry per note. */
  lemma {:induction false} SavedLoadable(notes: seq<StoredNote>)
    requires DistinctIds(notes)
    ensures |LoadableSet(Saved(notes), {})| == |notes|
  {
    if notes != [] {
      var init := notes[..|notes| - 1];
      var last := notes[|notes| - 1];
      SavedLoadable(init);
      SavedAbsent(init, last.meta.id);
      SaveAddsLoadable(Saved(init), last.meta, last.content, {});
      assert MetaName(last.meta.id) !in LoadableSet(Saved(init), {});
    }
  }

  /**
   * Saving notes with distinct ids into an empty directory and listing it,
   * in any order, returns one entry per note, carrying exactly the saved
   * metadata.
   */
  lemma ListAfterSaves(notes: seq<StoredNote>, listing: seq<string>)
    requires DistinctIds(notes)
    requires IsListing(Saved(notes), listing)
    ensures |Listed(Saved(notes), listing, {})| == |notes|
    ensures forall m :: m in Listed(Saved(notes), listing, {}) <==> exists i :: 0 <= i < |notes| && notes[i].meta == m
  {
    var files := Saved(notes);
    SavedLoadable(notes);
    SavedMetadata(notes);
    ListReportsEveryLoadable(files, listing, {});
    forall m | m in Listed(files, listing, {})
      ensures exists i :: 0 <= i < |notes| && notes[i].meta == m
    {
      var name :| name in files && Loadable(files, {}, name) && files[name].meta == m;
      SavedNameOwner(notes, name);
      var i :| 0 <= i < |notes| && (name == MetaName(notes[i].meta.id) || name == ContentName(notes[i].meta.id));
      NameKinds(notes[i].meta.id);
      assert name == MetaName(notes[i].meta.id);
    }
    forall m | exists i :: 0 <= i < |notes| && notes[i].meta == m
      ensures m in Listed(files, listing, {})
    {
      var i :| 0 <= i < |notes| && notes[i].meta == m;
      NameKinds(notes[i].meta.id);
      assert Loadable(files, {}, MetaName(notes[i].meta.id));
    }
  }

  /** An upload named `stem` plus an extension is titled `stem`. */
  lemma TitleDropsExtension(stem: string, ext: string)
    requires |ext| > 0 && ext[0] == '.' && Plain(ext[1..])
    ensures TitleFromFilename(stem + ext) == stem
  {
    ExtOfAppend(stem, ext);
    var title := TitleFromFilename(stem + ext);
    assert title == (title + ext)[..|title|];
  }

  /** An upload whose name has no extension is titled with the whole name. */
  lemma TitleWithoutExtension(filename: string)
    requires NoExtension(filename)
    ensures TitleFromFilename(filename) == filename
  {
    ExtEmpty(filename);
  }

  lemma TitleExample()
    ensures TitleFromFilename("test-upload.md") == "test-upload"
  {
    assert "test-upload" + ".md" == "test-upload.md";
    TitleDropsExtension("test-upload", ".md");
  }
}
