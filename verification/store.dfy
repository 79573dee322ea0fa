/** The note store's in-memory state machine (`ResourceManager`): the map
    from note name to note, the CRUD operations over it, and the start-up
    load that rebuilds it from the index and the note files. Persistence is
    an abstract step whose outcome is a parameter. */
module Store {
  import opened Wrappers
  import opened NoteFormat
  import opened NotePath

  /** The in-memory cache, `ResourceManager.notes`. */
  type Notes = map<string, Note>

  datatype StoreError =
    | NotFound(name: string)
    | AlreadyExists(name: string)
    | SaveFailed(reason: string)
    | ConstructionFailed(reason: string)
    | PathLookupFailed(error: FormatError)

  /** What writing a note file did: it either replaced the file atomically,
      having first copied an existing file to the backup directory at the
      clock reading `backupAt` (or taken no backup), or it failed and left the
      file untouched. The backup time is a clock reading of its own, separate
      from the one the calling operation stamps into the note. */
  datatype SaveOutcome = Written(backupAt: Option<DateTime>) | WriteFailed(reason: string)

  /** The result of an operation that may change the cache even when it
      reports an error. */
  datatype Step<T> = Step(notes: Notes, result: Result<T, StoreError>)

  /** `_save_note` seen from the note: on success the note carries the time
      of the backup (when one was taken) and the checksum `to_dict` stamped
      into it; on failure the error surfaces. */
  function Persist(c: Codec, note: Note, outcome: SaveOutcome): (r: Result<Note, StoreError>)
    ensures outcome.WriteFailed? ==> r == Failure(SaveFailed(outcome.reason))
    ensures outcome.Written? ==>
              && r.Success?
              && SameFields(r.value, note)
              && r.value.metadata.formatVersion == note.metadata.formatVersion
              && r.value.metadata.lastBackup == (if outcome.backupAt.Some? then Some(c.iso(outcome.backupAt.value)) else note.metadata.lastBackup)
              && r.value.metadata.checksum == Some(Checksum(c, r.value))
  {
    match outcome
    case WriteFailed(reason) => Failure(SaveFailed(reason))
    case Written(backupAt) =>
      var n := if backupAt.Some? then note.(metadata := note.metadata.(lastBackup := Some(c.iso(backupAt.value)))) else note;
      Success(Stamp(c, n))
  }

  /** `add_note`: refused when the name is taken; otherwise a note stamped
      with `now`, the given tags (none meaning an empty list) and fresh
      metadata is saved and, only if saving succeeded, becomes the one new
      entry of the cache. */
  function Add(c: Codec, notes: Notes, name: string, content: string, tags: Option<seq<string>>,
               description: Option<string>, now: DateTime, save: SaveOutcome)
    : (r: Result<(Notes, Note), StoreError>)
    ensures name in notes ==> r == Failure(AlreadyExists(name))
    ensures name !in notes && save.WriteFailed? ==> r == Failure(SaveFailed(save.reason))
    ensures name !in notes && save.Written? ==> r.Success?
    ensures r.Success? ==>
              var (after, note) := r.value;
              && name !in notes
              && after == notes[name := note]
              && note.name == name
              && note.content == content
              && note.tags == tags.GetOr([])
              && note.description == description
              && note.created == now && note.modified == now
              && note.metadata.formatVersion == Some(SupportedVersion)
              && note.metadata.lastBackup == (if save.backupAt.Some? then Some(c.iso(save.backupAt.value)) else None)
              && note.metadata.checksum == Some(Checksum(c, note))
  {
    if name in notes then
      Failure(AlreadyExists(name))
    else
      var note := Note(name, content, now, now, tags.GetOr([]), description, FreshMetadata);
      var saved :- Persist(c, note, save);
      Success((notes[name := saved], saved))
  }

  /** `add_note` as the source spells it: the note is constructed without
      its required `created` and `modified` arguments, which raises
      `TypeError` before anything is saved, so no name is ever added. */
  function AddAsWritten(notes: Notes, name: string, content: string, tags: Option<seq<string>>,
                        description: Option<string>)
    : (r: Result<(Notes, Note), StoreError>)
    ensures r.Failure?
    ensures name !in notes ==> r.error.ConstructionFailed?
  {
    if name in notes then
      Failure(AlreadyExists(name))
    else
      Failure(ConstructionFailed("Note() missing required arguments: 'created' and 'modified'"))
  }

  /** `get_note`: the cached note, or `NotFound`. */
  function Get(notes: Notes, name: string): (r: Result<Note, StoreError>)
    ensures r.Success? <==> name in notes
    ensures r.Success? ==> r.value == notes[name]
    ensures r.Failure? ==> r.error == NotFound(name)
  {
    if name in notes then Success(notes[name]) else Failure(NotFound(name))
  }

  /** The note with the supplied fields overwritten and `modified` set to `now`. */
  function Edit(note: Note, content: Option<string>, tags: Option<seq<string>>,
                description: Option<string>, now: DateTime): Note
  {
    note.(content := content.GetOr(note.content),
          tags := tags.GetOr(note.tags),
          description := if description.Some? then description else note.description,
          modified := now)
  }

  /** `update_note`: `NotFound` for an unknown name. Otherwise only the
      supplied fields change and `modified` becomes `now`; the cached note is
      edited in place before it is saved, so the edit stays in the cache even
      when saving fails. No other entry changes. */
  function Update(c: Codec, notes: Notes, name: string, content: Option<string>, tags: Option<seq<string>>,
                  description: Option<string>, now: DateTime, save: SaveOutcome): (r: Step<Note>)
    ensures name !in notes ==> r == Step(notes, Failure(NotFound(name)))
    ensures name in notes ==>
              && r.notes.Keys == notes.Keys
              && (forall k :: k in notes && k != name ==> r.notes[k] == notes[k])
              && r.notes[name].name == notes[name].name
              && r.notes[name].created == notes[name].created
              && r.notes[name].content == (if content.Some? then content.value else notes[name].content)
              && r.notes[name].tags == (if tags.Some? then tags.value else notes[name].tags)
              && r.notes[name].description == (if description.Some? then description else notes[name].description)
              && r.notes[name].modified == now
    ensures name in notes && save.WriteFailed? ==>
              && r.result == Failure(SaveFailed(save.reason))
              && r.notes[name].metadata == notes[name].metadata
    ensures name in notes && save.Written? ==>
              && r.result == Success(r.notes[name])
              && r.notes[name].metadata.formatVersion == notes[name].metadata.formatVersion
              && r.notes[name].metadata.lastBackup
                 == (if save.backupAt.Some? then Some(c.iso(save.backupAt.value)) else notes[name].metadata.lastBackup)
              && r.notes[name].metadata.checksum == Some(Checksum(c, r.notes[name]))
  {
    if name !in notes then
      Step(notes, Failure(NotFound(name)))
    else
      var edited := Edit(notes[name], content, tags, description, now);
      match Persist(c, edited, save)
      case Failure(e) => Step(notes[name := edited], Failure(e))
      case Success(saved) => Step(notes[name := saved], Success(saved))
  }

  /** `delete_note`: `NotFound` for an unknown name, with nothing changed.
      Otherwise the entry is dropped from the cache first, and then the
      note's file is looked up without its creation time. That lookup fails
      exactly when the index row for the name has a creation time that does
      not parse, and the failure surfaces after the entry is already gone.
      Removing the file itself never fails the call: a missing file or an
      unlink error is only logged. */
  function Delete(c: Codec, dataDir: string, notes: Notes, name: string, index: Index, now: DateTime)
    : (r: Step<()>)
    ensures name !in notes ==> r == Step(notes, Failure(NotFound(name)))
    ensures name in notes ==>
              && r.notes.Keys == notes.Keys - {name}
              && (forall k :: k in r.notes ==> r.notes[k] == notes[k])
    ensures name in notes ==>
              (r.result.Failure? <==> name in index && c.parseIso(index[name].created).None?)
    ensures name in notes && r.result.Failure? ==>
              r.result.error == PathLookupFailed(MalformedTimestamp(index[name].created))
  {
    if name !in notes then
      Step(notes, Failure(NotFound(name)))
    else
      var remaining := notes - {name};
      match NotePathOf(c, dataDir, name, None, index, now)
      case Failure(e) => Step(remaining, Failure(PathLookupFailed(e)))
      case Success(_) => Step(remaining, Success(()))
  }

  /** `list_notes`: every cached name exactly once. */
  method ListNotes(notes: Notes) returns (names: seq<string>)
    ensures |names| == |notes|
    ensures forall k :: k in names <==> k in notes
    ensures forall i, j :: 0 <= i < j < |names| ==> names[i] != names[j]
  {
    names := [];
    var rest := notes.Keys;
    while rest != {}
      invariant rest <= notes.Keys
      invariant forall k :: k in names <==> k in notes && k !in rest
      invariant forall i, j :: 0 <= i < j < |names| ==> names[i] != names[j]
      invariant |names| + |rest| == |notes.Keys|
      decreases rest
    {
      var k :| k in rest;
      names := names + [k];
      rest := rest - {k};
    }
  }

  // ---------------------------------------------------------------------
  // Cache invariant
  // ---------------------------------------------------------------------

  /** Every cached note is filed under its own name and was not modified
      before it was created. */
  ghost predicate WellFormed(notes: Notes) {
    forall k :: k in notes ==> notes[k].name == k && Leq(notes[k].created, notes[k].modified)
  }

  lemma AddPreservesWellFormed(c: Codec, notes: Notes, name: string, content: string, tags: Option<seq<string>>,
                               description: Option<string>, now: DateTime, save: SaveOutcome)
    requires WellFormed(notes)
    ensures match Add(c, notes, name, content, tags, description, now, save)
            case Success((after, _)) => WellFormed(after)
            case Failure(_) => true
  {
  }

  /** Updating keeps the invariant as long as the clock does not run behind
      the updated note's creation time. */
  lemma UpdatePreservesWellFormed(c: Codec, notes: Notes, name: string, content: Option<string>,
                                  tags: Option<seq<string>>, description: Option<string>,
                                  now: DateTime, save: SaveOutcome)
    requires WellFormed(notes)
    requires name in notes ==> Leq(notes[name].created, now)
    ensures WellFormed(Update(c, notes, name, content, tags, description, now, save).notes)
  {
  }

  lemma DeletePreservesWellFormed(c: Codec, dataDir: string, notes: Notes, name: string, index: Index, now: DateTime)
    requires WellFormed(notes)
    ensures WellFormed(Delete(c, dataDir, notes, name, index, now).notes)
  {
  }

  // ---------------------------------------------------------------------
  // Scenarios relating several operations
  // ---------------------------------------------------------------------

  /** A note just added can be read back, and adding the name again fails. */
  lemma AddThenGet(c: Codec, notes: Notes, name: string, content: string, tags: Option<seq<string>>,
                   description: Option<string>, now: DateTime, save: SaveOutcome,
                   content2: string, now2: DateTime, save2: SaveOutcome)
    requires Add(c, notes, name, content, tags, description, now, save).Success?
    ensures
      var after := Add(c, notes, name, content, tags, description, now, save).value.0;
      && Get(after, name).Success?
      && Get(after, name).value.content == content
      && Add(c, after, name, content2, None, None, now2, save2) == Failure(AlreadyExists(name))
  {
  }

  /** After a delete the name is gone, and deleting it again fails. */
  lemma DeleteThenGet(c: Codec, dataDir: string, notes: Notes, name: string, index: Index, now: DateTime)
    requires name in notes
    ensures var after := Delete(c, dataDir, notes, name, index, now).notes;
            && Get(after, name) == Failure(NotFound(name))
            && Delete(c, dataDir, after, name, index, now) == Step(after, Failure(NotFound(name)))
  {
  }

  /** A delete whose index row holds an unreadable creation time reports an
      error, yet the note has already left the cache. */
  lemma DeleteFailsAfterRemoval(c: Codec, dataDir: string, notes: Notes, name: string, index: Index, now: DateTime)
    requires name in notes && name in index && c.parseIso(index[name].created).None?
    ensures var r := Delete(c, dataDir, notes, name, index, now);
            && r.result.Failure?
            && name !in r.notes
  {
  }

  /** An update that supplies only tags changes only the tags (and the
      modification time) of that note. */
  lemma UpdateOnlyTags(c: Codec, notes: Notes, name: string, tags: seq<string>, now: DateTime)
    requires name in notes
    ensures
      var r := Update(c, notes, name, None, Some(tags), None, now, Written(None));
      && r.result.Success?
      && r.result.value.tags == tags
      && r.result.value.content == notes[name].content
      && r.result.value.description == notes[name].description
      && r.result.value.modified == now
  {
  }

  // ---------------------------------------------------------------------
  // Start-up load
  // ---------------------------------------------------------------------

  /** The note files on disk, by path; `None` is a file that is not valid JSON. */
  type Files = map<string, Option<Document>>

  /** The file at `path` exists, parses, and passes `from_dict`. */
  predicate Loads(c: Codec, path: string, files: Files) {
    path in files && files[path].Some? && FromDict(c, files[path].value).Success?
  }

  /** `_load_notes`: every indexed note whose file exists and is accepted by
      `from_dict` is cached under its index name; a missing, malformed or
      rejected file skips that note only. */
  function LoadNotes(c: Codec, index: Index, files: Files): (r: Notes)
    ensures forall name :: name in r <==> name in index && Loads(c, index[name].path, files)
    ensures forall name | name in index && Loads(c, index[name].path, files) ::
              name in r && FromDict(c, files[index[name].path].value) == Success(r[name])
  {
    map name | name in index && Loads(c, index[name].path, files) :: FromDict(c, files[index[name].path].value).value
  }

  /** A bad file hurts only the notes indexed at that path: replacing the
      contents of `path` by anything leaves every other note's load as it was. */
  lemma LoadIsolatesFiles(c: Codec, index: Index, files: Files, path: string, contents: Option<Document>, name: string)
    requires name in index && index[name].path != path
    ensures var before, after := LoadNotes(c, index, files), LoadNotes(c, index, files[path := contents]);
            && (name in before <==> name in after)
            && (name in before ==> before[name] == after[name])
  {
    var files' := files[path := contents];
    assert Loads(c, index[name].path, files) <==> Loads(c, index[name].path, files');
  }

  /** A note saved with its index row is restored by the next start-up
      exactly as saving left it. */
  lemma LoadRestoresSaved(c: Codec, dataDir: string, index: Index, files: Files, name: string, n: Note)
    requires IsoRoundTrips(c)
    requires name in index && index[name] == IndexRow(c, dataDir, name, n)
    requires files[PathFor(dataDir, name, n.created) := Some(ToDict(c, n))] == files
    ensures name in LoadNotes(c, index, files)
    ensures LoadNotes(c, index, files)[name] == Stamp(c, n)
  {
    RoundTrip(c, n);
    assert files[PathFor(dataDir, name, n.created)] == Some(ToDict(c, n));
  }
}
