# PinThePiece note store, modelled in Dafny

PinThePiece keeps small named text notes (content, tags, optional
description) on the local disk. Each note is one JSON file under
`data/<year>/<MM>/<name>.json`, and the file carries a format version and a
checksum of the content and timestamps. An index maps names to files, and an
in-memory cache behind one lock serves add, get, update, delete, list and
search. This project models the logic of that engine (`ResourceManager`
and `Note` in `src/pinthepiece/server.py`) as pure Dafny functions and
proves properties about it:

- `wrappers.dfy` (`Wrappers`): `Option` and `Result`. These stand in for
  `None` and raised exceptions.
- `text.dfy` (`Text`): ASCII `isalnum`, `lower`, `strip`, `split(',')` and
  the `in` substring test. Three are proved against an independent
  characterisation: `in` against a window comparison, `split` against
  joining, and `strip` against a slice with only whitespace cut away.
  `isalnum` and `lower` are plain definitions.
- `decimal.dfy` (`Decimal`): `str(year)` and `f"{month:02d}"`.
- `note_format.dfy` (`NoteFormat`): the `Note` entity, its JSON document,
  `to_dict` / `from_dict`, the version check and the checksum.
- `note_path.dfy` (`NotePath`): name sanitisation, the hierarchical file
  path, and the index row that records it.
- `store.dfy` (`Store`): the cache as a `map<string, Note>`, with
  add/get/update/delete/list and the start-up load.
- `search.dfy` (`Search`): the search filter. Its reference predicate is
  `Matches`, and the scan `SearchNotes` is proved to compute it exactly.

SHA-256, `datetime.isoformat` and `datetime.fromisoformat` are fields of a
`Codec` value, passed as parameters and left uninterpreted. The properties
are about which values feed the hash and when it is compared, not about the
hash itself. The round-trip results assume only that `fromisoformat` reads
back what `isoformat` writes (`IsoRoundTrips`). The current time is a
parameter `now`. Writing a note file is an abstract step whose result is a
parameter (`SaveOutcome`): it was written, with or without a backup copy,
or it failed. A backup carries its own clock reading, because `_save_note`
reads the clock again for `last_backup` (`server.py:200`) after the
operation has stamped `created` or `modified`.

## Departures from the code as written

The model follows what the code evidently means where the code cannot run
as written:

- The format version is an integer, and this build supports version 1
  (`SupportedVersion`). The code compares the stored value with the string
  `"1.0.0"` and defaults a missing version to the integer `0`
  (`server.py:79`). That comparison raises `TypeError` in Python 3 whenever
  the stored value is a number.
- `from_dict` reads the checksum from the new note's own metadata. The code
  names an undefined `metadata` (see Findings).
- `add_note` stamps the new note with the current time (see Findings).
- Saving is one step that completes before the cache is changed. The code
  calls the async `_save_note` without awaiting it (`server.py:317`). It
  also hands the coroutine function to `asyncio.to_thread`
  (`server.py:371`), so on update the coroutine is never run.
- The index has one flat shape, `name -> {path, created, modified,
  version}`, as `_save_note` writes it (`server.py:204-210`). `add_note`
  also writes it nested under a `"notes"` key (`server.py:319`), which
  fails on a flat index.

## Model

| member | source | states |
|---|---|---|
| `Text.Contains` | src/pinthepiece/server.py:446 | Python's `q in s` holds exactly when some window of `s` equals `q`. |
| `Text.Split` | src/pinthepiece/server.py:438 | `query.split(',')` gives at least one piece, and at least two when the text has a comma. No piece holds a comma, and joining the pieces with commas gives the text back. |
| `Text.SplitJoin` | src/pinthepiece/server.py:438 | The converse round trip: splitting a comma-join of comma-free pieces gives those pieces back. |
| `Text.Strip` | src/pinthepiece/server.py:438 | `t.strip()` is a contiguous slice of `t`. Only whitespace is cut on either side, the result neither starts nor ends with whitespace, and each of its characters comes from `t`. |
| `Text.LowerIdempotent` | src/pinthepiece/server.py:431 | Lowering twice is lowering once, and a lowered string holds no upper-case letter. |
| `Decimal.Render` | src/pinthepiece/server.py:144 | `str(year)` is a non-empty run of digits with no leading zero, and it denotes the year. |
| `Decimal.Pad2` | src/pinthepiece/server.py:145 | The month directory name is exactly two digits that denote the month. |
| `NotePath.Sanitize` | src/pinthepiece/server.py:148 | The safe file name has the note name's length and only alphanumeric, `-` or `_` characters. Allowed characters stay in place and every other character becomes `_`. |
| `NotePath.SanitizeIdempotent` | src/pinthepiece/server.py:148 | Sanitising twice equals sanitising once. A name is unchanged exactly when all its characters are allowed. |
| `NotePath.SanitizeCollides` | src/pinthepiece/server.py:148 | Sanitising is not injective: `a b` and `a_b` get the same file name. |
| `NotePath.PathFor` | src/pinthepiece/server.py:143-149 | A note's file is the data directory, then `str(year)`, then the two-digit month, then `<sanitised name>.json`. |
| `NotePath.PathDeterminesPlacement` | src/pinthepiece/server.py:143-149 | Two notes get the same file exactly when their year, month and sanitised name are all equal. |
| `NotePath.IndexRow` | src/pinthepiece/server.py:204-210 | The index row points at the note's file, holds the ISO forms of its creation and modification times, and records the current version. |
| `NotePath.NotePathOf` | src/pinthepiece/server.py:133-149 | A given creation time decides the path. Otherwise the index entry's creation time decides it, and fails if that time does not parse. Otherwise the clock decides. Every result is the path of this name at some time. |
| `NotePath.PathIgnoresIndexAndClock` | src/pinthepiece/server.py:135-149 | With the creation time given, the path depends only on the name and that time. |
| `NotePath.PathRecoveredFromIndex` | src/pinthepiece/server.py:135-139 | A lookup without the creation time finds the file the note was saved to, as long as the index holds the row saving wrote. |
| `NoteFormat.Stamp` | src/pinthepiece/server.py:65-73 | Serialising leaves the note's fields alone and writes into its own metadata the checksum of its content and both ISO timestamps. |
| `NoteFormat.StampIdempotent` | src/pinthepiece/server.py:69-73 | Stamping an already stamped note changes nothing. |
| `NoteFormat.ToDict` | src/pinthepiece/server.py:57-74 | The document copies name, content, tags and description and holds both timestamps in ISO form and the current version. Its metadata is the note's, so it carries the fresh checksum, and that checksum is the hash of the document's own content and timestamps. |
| `NoteFormat.FromDict` | src/pinthepiece/server.py:77-105 | A version newer than supported is refused. On success the fields are copied, tags and metadata default when absent, and the timestamps are the parsed ones. A present checksum matches the recomputed one. Once version and timestamps pass, the only possible failure is a checksum mismatch. A document with no checksum, or with a matching one, is accepted. |
| `NoteFormat.RoundTrip` | src/pinthepiece/server.py:57-105 | `from_dict(to_dict(n))` succeeds and returns exactly the note as serialising stamped it. |
| `NoteFormat.TamperedChecksumRejected` | src/pinthepiece/server.py:95-103 | A document whose stored checksum is replaced by any other non-empty value fails with a checksum mismatch. |
| `NoteFormat.FromDictAsWritten` | src/pinthepiece/server.py:77-105 | The code as written always fails. A document without a version fails comparing the integer default 0 with the string class version. Any versioned document that passes the version and timestamp steps reaches the undefined name `metadata`. |
| `NoteFormat.RoundTripFailsAsWritten` | src/pinthepiece/server.py:96 | As written, no document produced by `to_dict` can be read back. |
| `Store.Persist` | src/pinthepiece/server.py:191-239 | A failed write surfaces as an error. A successful one keeps the note's fields, records the time the backup was taken, when one was, and leaves a checksum that matches the note. |
| `Store.Add` | src/pinthepiece/server.py:290-331 | A taken name fails with AlreadyExists, and a failed save fails too. On success the cache gains exactly `name ↦ note`. The note has the given content and description, tags that default to an empty list, created = modified = now, and fresh metadata: the supported format version, a backup time only when saving backed up an existing file at that path, and then the clock reading of that backup, and a valid checksum. |
| `Store.AddAsWritten` | src/pinthepiece/server.py:300-310 | The code as written always fails. A free name gets a construction error before anything is stored. |
| `Store.Get` | src/pinthepiece/server.py:333-337 | Succeeds exactly for a cached name and returns that name's note. Otherwise fails with NotFound. |
| `Store.Update` | src/pinthepiece/server.py:339-380 | An unknown name fails with NotFound and nothing changes. Otherwise only the supplied fields change, `modified` becomes now, and no other entry changes. The edit stays in the cache even when saving fails. On success the returned note is the cached one. Its format version is kept, its backup time changes only when saving took a backup, and then to the clock reading of that backup, and its checksum is valid. |
| `Store.Delete` | src/pinthepiece/server.py:382-403 | An unknown name fails with NotFound and nothing changes. Otherwise exactly that key leaves the cache and every other entry is unchanged. The call fails exactly when the file lookup that follows cannot parse the index row's creation time, and the entry is already gone by then. Removing the file itself never fails. |
| `Store.DeleteFailsAfterRemoval` | src/pinthepiece/server.py:391-394 | A delete whose index row has an unreadable creation time reports an error after the note has already left the cache. |
| `Store.ListNotes` | src/pinthepiece/server.py:405-407 | The list holds every cached name exactly once and nothing else. |
| `Store.AddPreservesWellFormed` | src/pinthepiece/server.py:300-329 | Adding keeps every note filed under its own name and never modified before it was created. |
| `Store.UpdatePreservesWellFormed` | src/pinthepiece/server.py:349-363 | Updating keeps that invariant as long as the clock does not run behind the note's creation time. |
| `Store.DeletePreservesWellFormed` | src/pinthepiece/server.py:385-391 | Deleting keeps that invariant. |
| `Store.AddThenGet` | src/pinthepiece/server.py:300-337 | A note just added can be read back with its content, and adding the same name again fails with AlreadyExists. |
| `Store.DeleteThenGet` | src/pinthepiece/server.py:385-391 | After a delete, get fails with NotFound, and a second delete fails with NotFound and changes nothing. |
| `Store.UpdateOnlyTags` | src/pinthepiece/server.py:355-363 | An update that supplies only tags changes the tags and the modification time, and keeps content and description. |
| `Store.LoadNotes` | src/pinthepiece/server.py:241-272 | A note is loaded under its index name exactly when its file exists, is valid JSON and is accepted by `from_dict`, and its value is what `from_dict` returned. |
| `Store.LoadIsolatesFiles` | src/pinthepiece/server.py:253-270 | A missing, garbled or tampered file changes nothing about loading notes that are stored elsewhere. |
| `Store.LoadRestoresSaved` | src/pinthepiece/server.py:252-262 | A note saved with its index row is restored at start-up exactly as saving left it. |
| `Search.QueryTerms` | src/pinthepiece/server.py:437-441 | The query is split into stripped comma-separated terms (at least two) only when tags are searched and it has a comma. Otherwise it is the single term. Whenever tags are searched, no term holds a comma. |
| `Search.AnyTagContains` | src/pinthepiece/server.py:457 | The inner `any` holds exactly when some lowered tag contains the term. |
| `Search.AllTermsHit` | src/pinthepiece/server.py:454-460 | With match-all, every term is in some lowered tag. |
| `Search.AnyTermHits` | src/pinthepiece/server.py:462-467 | Without match-all, some term is in some lowered tag. |
| `Search.NoteMatchesCorrect` | src/pinthepiece/server.py:443-468 | The loop's per-note test decides exactly `Matches`. That is a content hit, a non-empty description hit, or a tag hit (all or any terms), each only when its field is searched, and all three fields when none are named. |
| `Search.SearchNotes` | src/pinthepiece/server.py:413-472 | The result is a sub-map of the cache with identical values, and a note is in it exactly when it matches. |
| `Search.ContentMatchIgnoresCase` | src/pinthepiece/server.py:446 | The query `alpha` finds the content `The Alpha Protocol`. |
| `Search.CommaQueryTerms` | src/pinthepiece/server.py:437-441 | Searched over all fields, the query `urgent,final` gives the tag terms `urgent` and `final`. |
| `Search.TagQueryAllOrAny` | src/pinthepiece/server.py:431-472 | A note tagged `urgent` and `draft`, with no other text, is found by `urgent,final` without match-all and not with it. |
| `Search.TagTermsAllOrAny` | src/pinthepiece/server.py:453-467 | Against the tags `urgent` and `draft`, the terms `urgent` and `final` fail with match-all and succeed without it. |

## Findings

| source | as written | input that shows it | evidently intended | confidence | as-written member | corrected member |
|---|---|---|---|---|---|---|
| src/pinthepiece/server.py:96-102 | The checksum check reads `metadata`, a name bound nowhere in `from_dict`, so it raises `NameError`. | Any document that passes the version check and has two readable timestamps, e.g. `to_dict` of any note. Start-up then loads no note at all. | Read the checksum from the new note's own metadata. | high; not executed | `NoteFormat.FromDictAsWritten` (shown by `NoteFormat.RoundTripFailsAsWritten`) | `NoteFormat.FromDict` (proved by `NoteFormat.RoundTrip` and `NoteFormat.TamperedChecksumRejected`) |
| src/pinthepiece/server.py:305-310 | `Note(...)` is called without its required `created` and `modified` arguments, so it raises `TypeError` before anything is saved. | `add_note("x", "hello")` on an empty store. | Stamp the new note with the current time as both creation and modification time. | high; not executed | `Store.AddAsWritten` | `Store.Add` (proved by `Store.AddThenGet` and `Store.AddPreservesWellFormed`) |

## Left out

- Logging configuration and log calls (`server.py:14-39` and throughout): they are side effects only.
- Filesystem I/O: `_load_index`, `_save_index`, `_create_backup`, the temp-file/fsync/`os.replace` protocol of `_save_note`, directory creation, and the file unlink in `delete_note`. Saving is the abstract `SaveOutcome` step, and the start-up load reads an abstract map from path to parsed document.
- The index as persistent state: the cache is the only state. The model does not track index saves, index-save failures (which the code only logs), or the stale row `delete_note` leaves behind. `IndexRow` and `PathRecoveredFromIndex` cover the row's shape and its use in path lookup.
- The asyncio lock, the subscriber queues, `subscribe_to_changes`, `unsubscribe` and `_notify_changes`: they are concurrency and notification, not state logic. Each modelled operation is one atomic step, which is what the lock provides.
- Real SHA-256, `datetime.now`, `isoformat`, `fromisoformat`, JSON encoding and decoding: foreign library calls, modelled as uninterpreted `Codec` fields and a `now` parameter.
- `get_note_content`, the process-wide singleton, and the FastMCP/FastAPI tool wrappers with their response text (`server.py:409-624`): thin glue over `get_note` and external frameworks.
- Unicode: `isalnum`, `lower` and `strip` are modelled on ASCII only, so non-ASCII letters are sanitised to `_` and are not case-folded.
- `from_dict` on a document that lacks `name`, `content`, `created` or `modified` (a `KeyError` in Python): the document type always has these keys.
- Store.Delete: does not model a failure of `os.makedirs` inside the path lookup (`server.py:146`), because directory creation is filesystem I/O. Only the unreadable index timestamp makes it fail.
- Store.Persist: a write that fails after the backup, or after `to_dict` (`server.py:220`), leaves in memory the new `last_backup` and the freshly stamped `checksum`. The model, and so `Store.Update`'s failed-save case, treats a failed write as leaving the metadata unchanged, because where the write failed is not part of the save outcome.
- Store.ListNotes: states which names are listed but not their order. Python lists them in insertion order, and a Dafny map has none.
- Store.Update: does not state that `modified` strictly advances, because that depends on the clock, which is a parameter here.
- Search.SearchNotes: the result is a map, so the insertion order of Python's result dict is not modelled.
