/** The note entity and its document format: `Note.to_dict` and
    `Note.from_dict`, with the format version check and the integrity
    checksum over content and timestamps. */
module NoteFormat {
  import opened Wrappers

  /** Python's `datetime.MINYEAR .. datetime.MAXYEAR`. */
  type Year = y: int | 1 <= y <= 9999 witness 1

  type Month = m: int | 1 <= m <= 12 witness 1

  /** A `datetime` value; only the year and month are interpreted (they place
      the note's file), the rest are carried along. */
  datatype DateTime = DateTime(
    year: Year,
    month: Month,
    day: nat,
    hour: nat,
    minute: nat,
    second: nat,
    microsecond: nat)

  /** Chronological order of timestamps (field by field, most significant first). */
  predicate Leq(a: DateTime, b: DateTime) {
    if a.year != b.year then a.year < b.year
    else if a.month != b.month then a.month < b.month
    else if a.day != b.day then a.day < b.day
    else if a.hour != b.hour then a.hour < b.hour
    else if a.minute != b.minute then a.minute < b.minute
    else if a.second != b.second then a.second < b.second
    else a.microsecond <= b.microsecond
  }

  /** The foreign functions the format depends on, left uninterpreted: the
      SHA-256 hex digest of a string, `datetime.isoformat` and
      `datetime.fromisoformat` (which fails on text it cannot read). */
  datatype Codec = Codec(
    hash: string -> string,
    iso: DateTime -> string,
    parseIso: string -> Option<DateTime>)

  /** `fromisoformat` reads back every timestamp `isoformat` writes. */
  ghost predicate IsoRoundTrips(c: Codec) {
    forall t :: c.parseIso(c.iso(t)) == Some(t)
  }

  /** The format version this build writes and the newest it reads. */
  const SupportedVersion: int := 1

  /** The `metadata` dictionary; a key that is absent from a stored document
      is `None` here. */
  datatype Metadata = Metadata(
    formatVersion: Option<int>,
    lastBackup: Option<string>,
    checksum: Option<string>)

  /** The metadata every newly constructed note receives (its own copy). */
  const FreshMetadata := Metadata(Some(SupportedVersion), None, None)

  /** The metadata of a document that has no `metadata` key (`{}`). */
  const EmptyMetadata := Metadata(None, None, None)

  datatype Note = Note(
    name: string,
    content: string,
    created: DateTime,
    modified: DateTime,
    tags: seq<string>,
    description: Option<string>,
    metadata: Metadata)

  /** The JSON document a note is stored as. Keys that `from_dict` reads with
      a default (`tags`, `description`, `version`, `metadata`) may be absent. */
  datatype Document = Document(
    name: string,
    content: string,
    tags: Option<seq<string>>,
    description: Option<string>,
    created: string,
    modified: string,
    version: Option<int>,
    metadata: Option<Metadata>)

  datatype FormatError =
    | UnsupportedVersion(version: int)
    | MalformedTimestamp(text: string)
    | ChecksumMismatch
    | UndefinedName(identifier: string)
    | IncomparableVersion(version: int)

  /** Two notes agree on everything except their metadata. */
  predicate SameFields(a: Note, b: Note) {
    && a.name == b.name
    && a.content == b.content
    && a.created == b.created
    && a.modified == b.modified
    && a.tags == b.tags
    && a.description == b.description
  }

  /** The digest of content followed by both timestamps in ISO form. */
  function ChecksumOf(c: Codec, content: string, created: DateTime, modified: DateTime): string {
    c.hash(content + c.iso(created) + c.iso(modified))
  }

  function Checksum(c: Codec, n: Note): string {
    ChecksumOf(c, n.content, n.created, n.modified)
  }

  /** A checksum is present when it is truthy: set and non-empty. */
  predicate HasChecksum(m: Metadata) {
    m.checksum.Some? && m.checksum.value != ""
  }

  /** The note as `to_dict` leaves it: its own metadata now carries the
      checksum of its content and timestamps; nothing else changes. */
  function Stamp(c: Codec, n: Note): (r: Note)
    ensures SameFields(r, n)
    ensures r.metadata.formatVersion == n.metadata.formatVersion
    ensures r.metadata.lastBackup == n.metadata.lastBackup
    ensures r.metadata.checksum == Some(Checksum(c, r))
  {
    n.(metadata := n.metadata.(checksum := Some(Checksum(c, n))))
  }

  /** Stamping an already stamped note changes nothing. */
  lemma StampIdempotent(c: Codec, n: Note)
    ensures Stamp(c, Stamp(c, n)) == Stamp(c, n)
  {
  }

  /** `Note.to_dict`: the fields are copied, the timestamps rendered in ISO
      form, the current version written, and the metadata dictionary (shared
      with the note, so stamped with the fresh checksum) embedded. */
  function ToDict(c: Codec, n: Note): (d: Document)
    ensures d.name == n.name && d.content == n.content
    ensures d.tags == Some(n.tags) && d.description == n.description
    ensures d.created == c.iso(n.created) && d.modified == c.iso(n.modified)
    ensures d.version == Some(SupportedVersion)
    ensures d.metadata == Some(Stamp(c, n).metadata)
    ensures d.metadata.value.checksum == Some(c.hash(d.content + d.created + d.modified))
  {
    Document(
      n.name,
      n.content,
      Some(n.tags),
      n.description,
      c.iso(n.created),
      c.iso(n.modified),
      Some(SupportedVersion),
      Some(Stamp(c, n).metadata))
  }

  /** `Note.from_dict`, reading the checksum from the new note's own
      metadata: a newer version is refused, both timestamps must parse, and a
      present checksum must equal the one recomputed from the parsed note. */
  function FromDict(c: Codec, d: Document): (r: Result<Note, FormatError>)
    ensures d.version.GetOr(0) > SupportedVersion ==> r == Failure(UnsupportedVersion(d.version.GetOr(0)))
    ensures r.Success? ==>
              && d.version.GetOr(0) <= SupportedVersion
              && r.value.name == d.name
              && r.value.content == d.content
              && r.value.tags == d.tags.GetOr([])
              && r.value.description == d.description
              && c.parseIso(d.created) == Some(r.value.created)
              && c.parseIso(d.modified) == Some(r.value.modified)
              && r.value.metadata == d.metadata.GetOr(EmptyMetadata)
    ensures r.Success? && HasChecksum(r.value.metadata) ==> r.value.metadata.checksum == Some(Checksum(c, r.value))
    ensures d.version.GetOr(0) <= SupportedVersion && c.parseIso(d.created).Some? && c.parseIso(d.modified).Some?
            ==> (r.Failure? <==> r == Failure(ChecksumMismatch))
    ensures && d.version.GetOr(0) <= SupportedVersion
            && c.parseIso(d.created).Some? && c.parseIso(d.modified).Some?
            && (|| !HasChecksum(d.metadata.GetOr(EmptyMetadata))
                || d.metadata.GetOr(EmptyMetadata).checksum.value
                   == ChecksumOf(c, d.content, c.parseIso(d.created).value, c.parseIso(d.modified).value))
            ==> r.Success?
  {
    var version := d.version.GetOr(0);
    if version > SupportedVersion then
      Failure(UnsupportedVersion(version))
    else if c.parseIso(d.created).None? then
      Failure(MalformedTimestamp(d.created))
    else if c.parseIso(d.modified).None? then
      Failure(MalformedTimestamp(d.modified))
    else
      var note := Note(
        d.name,
        d.content,
        c.parseIso(d.created).value,
        c.parseIso(d.modified).value,
        d.tags.GetOr([]),
        d.description,
        d.metadata.GetOr(EmptyMetadata));
      if HasChecksum(note.metadata) && note.metadata.checksum.value != Checksum(c, note) then
        Failure(ChecksumMismatch)
      else
        Success(note)
  }

  /** Serialising and then deserialising a note gives back exactly the note
      as serialisation stamped it: same fields, same metadata, and a checksum
      that validates. */
  lemma RoundTrip(c: Codec, n: Note)
    requires IsoRoundTrips(c)
    ensures FromDict(c, ToDict(c, n)) == Success(Stamp(c, n))
  {
    assert c.parseIso(c.iso(n.created)) == Some(n.created);
    assert c.parseIso(c.iso(n.modified)) == Some(n.modified);
  }

  /** A stored document whose checksum was altered to any other non-empty
      value is refused on load. */
  lemma TamperedChecksumRejected(c: Codec, n: Note, forged: string)
    requires IsoRoundTrips(c)
    requires forged != "" && forged != Checksum(c, n)
    ensures
      var d := ToDict(c, n);
      FromDict(c, d.(metadata := Some(d.metadata.value.(checksum := Some(forged))))) == Failure(ChecksumMismatch)
  {
    assert c.parseIso(c.iso(n.created)) == Some(n.created);
    assert c.parseIso(c.iso(n.modified)) == Some(n.modified);
  }

  /** `Note.from_dict` as the source spells it. The class version is the
      string `"1.0.0"`, which `to_dict` writes and which a stored version
      (`Some`) stands for here; a missing version defaults to the integer 0,
      and comparing that with the string raises `TypeError`. After the
      version check and the construction of the note, the checksum test reads
      an identifier `metadata` that is bound nowhere, so every call that gets
      that far raises `NameError`. */
  function FromDictAsWritten(c: Codec, d: Document): (r: Result<Note, FormatError>)
    ensures r.Failure?
    ensures d.version.None? ==> r == Failure(IncomparableVersion(0))
    ensures && d.version.Some? && d.version.value <= SupportedVersion
            && c.parseIso(d.created).Some? && c.parseIso(d.modified).Some?
            ==> r == Failure(UndefinedName("metadata"))
  {
    if d.version.None? then
      Failure(IncomparableVersion(0))
    else if d.version.value > SupportedVersion then
      Failure(UnsupportedVersion(d.version.value))
    else if c.parseIso(d.created).None? then
      Failure(MalformedTimestamp(d.created))
    else if c.parseIso(d.modified).None? then
      Failure(MalformedTimestamp(d.modified))
    else
      Failure(UndefinedName("metadata"))
  }

  /** As written, no note that `to_dict` produced can be read back. */
  lemma RoundTripFailsAsWritten(c: Codec, n: Note)
    requires IsoRoundTrips(c)
    ensures FromDictAsWritten(c, ToDict(c, n)) == Failure(UndefinedName("metadata"))
  {
    assert c.parseIso(c.iso(n.created)) == Some(n.created);
    assert c.parseIso(c.iso(n.modified)) == Some(n.modified);
  }
}
