/** Where a note's file lives: `data/<year>/<MM>/<sanitised name>.json`,
    with the creation time taken from the caller, else from the index, else
    from the clock (`ResourceManager._get_note_path`). */
module NotePath {
  import opened Wrappers
  import opened Text
  import opened Decimal
  import opened NoteFormat

  /** Characters that survive sanitisation unchanged. */
  predicate IsSafeChar(ch: char) {
    IsAlnum(ch) || ch == '-' || ch == '_'
  }

  function SafeChar(ch: char): char {
    if IsSafeChar(ch) then ch else '_'
  }

  /** The file-name form of a note name: same length, only safe characters,
      safe input characters kept in place and every other one replaced by `_`. */
  function Sanitize(name: string): (safe: string)
    ensures |safe| == |name|
    ensures forall i :: 0 <= i < |safe| ==> IsSafeChar(safe[i])
    ensures forall i :: 0 <= i < |name| && IsSafeChar(name[i]) ==> safe[i] == name[i]
    ensures forall i :: 0 <= i < |name| && !IsSafeChar(name[i]) ==> safe[i] == '_'
    decreases |name|
  {
    if |name| == 0 then "" else [SafeChar(name[0])] + Sanitize(name[1..])
  }

  /** Sanitising twice is sanitising once, and exactly the names made of safe
      characters are left alone. */
  lemma SanitizeIdempotent(name: string)
    ensures Sanitize(Sanitize(name)) == Sanitize(name)
    ensures Sanitize(name) == name <==> forall i :: 0 <= i < |name| ==> IsSafeChar(name[i])
  {
  }

  /** Sanitising is not injective: distinct note names can share a file name. */
  lemma SanitizeCollides()
    ensures "a b" != "a_b" && Sanitize("a b") == Sanitize("a_b")
  {
    assert Sanitize("a b") == "a_b" by {
      assert !IsSafeChar(' ');
    }
  }

  /** POSIX `os.path.join(a, b)` for two components. */
  function JoinPath(a: string, b: string): string {
    if |b| > 0 && b[0] == '/' then b
    else if |a| == 0 || a[|a| - 1] == '/' then a + b
    else a + "/" + b
  }

  /** The directory prefix `os.path.join(dataDir, x)` puts in front of a
      relative component `x`. */
  function DirPrefix(dataDir: string): string {
    if |dataDir| == 0 || dataDir[|dataDir| - 1] == '/' then dataDir else dataDir + "/"
  }

  /** The part of a note's path below the data directory:
      `<year>/<MM>/<sanitised name>.json`. */
  function RelativePath(name: string, t: DateTime): string {
    Render(t.year) + "/" + (Pad2(t.month) + "/" + (Sanitize(name) + ".json"))
  }

  /** Joining a relative component onto a directory puts the directory's
      prefix in front of it. */
  lemma JoinOnto(dir: string, b: string)
    requires |b| > 0 && b[0] != '/'
    ensures JoinPath(dir, b) == DirPrefix(dir) + b
  {
  }

  /** Three joins of relative components, none ending in `/` except
      possibly the last, lay the components out separated by single `/`. */
  lemma JoinChain(dir: string, y: string, m: string, f: string)
    requires |y| > 0 && y[0] != '/' && y[|y| - 1] != '/'
    requires |m| > 0 && m[0] != '/' && m[|m| - 1] != '/'
    requires |f| > 0 && f[0] != '/'
    ensures JoinPath(JoinPath(JoinPath(dir, y), m), f) == DirPrefix(dir) + (y + "/" + (m + "/" + f))
  {
    var pre := DirPrefix(dir);
    JoinOnto(dir, y);
    var yd := pre + y;
    assert yd[|yd| - 1] == y[|y| - 1];
    var md := yd + "/" + m;
    assert JoinPath(yd, m) == md;
    assert md[|md| - 1] == m[|m| - 1];
    var p := md + "/" + f;
    assert JoinPath(md, f) == p;
    var rel := y + "/" + (m + "/" + f);
    assert |p| == |pre| + |rel|;
    forall i | 0 <= i < |p|
      ensures p[i] == (pre + rel)[i]
    {
      if i < |pre| + |y| + 1 + |m| {
        assert p[i] == md[i];
      }
    }
  }

  /** The file of note `name` created at `t`: the data directory, the year,
      the two-digit month and the sanitised name with a `.json` suffix. */
  function PathFor(dataDir: string, name: string, t: DateTime): (p: string)
    ensures p == DirPrefix(dataDir) + RelativePath(name, t)
  {
    var y, m, f := Render(t.year), Pad2(t.month), Sanitize(name) + ".json";
    assert f[0] != '/' by {
      if |Sanitize(name)| > 0 {
        assert IsSafeChar(Sanitize(name)[0]);
      }
    }
    assert IsAsciiDigit(y[|y| - 1]) && IsAsciiDigit(m[1]);
    JoinChain(dataDir, y, m, f);
    JoinPath(JoinPath(JoinPath(dataDir, y), m), f)
  }

  lemma NoSlashInDigits(s: string)
    requires AllDigits(s)
    ensures '/' !in s
  {
    assert forall i :: 0 <= i < |s| ==> s[i] != '/';
  }

  /** Two strings joined by `/` split back uniquely at the first `/`. */
  lemma SplitAtSlash(a1: string, b1: string, a2: string, b2: string)
    requires '/' !in a1 && '/' !in a2
    requires a1 + "/" + b1 == a2 + "/" + b2
    ensures a1 == a2 && b1 == b2
  {
    var s := a1 + "/" + b1;
    var s2 := a2 + "/" + b2;
    assert forall i :: 0 <= i < |a1| ==> s[i] == a1[i] != '/';
    assert forall i :: 0 <= i < |a2| ==> s2[i] == a2[i] != '/';
    assert s[|a1|] == '/' && s2[|a2|] == '/';
    assert |a1| == |a2|;
    assert a1 == s[..|a1|] == a2;
    assert b1 == s[|a1| + 1..] == b2;
  }

  lemma RelativePathInjective(name1: string, t1: DateTime, name2: string, t2: DateTime)
    requires RelativePath(name1, t1) == RelativePath(name2, t2)
    ensures t1.year == t2.year && t1.month == t2.month && Sanitize(name1) == Sanitize(name2)
  {
    var y1, y2 := Render(t1.year), Render(t2.year);
    var m1, m2 := Pad2(t1.month), Pad2(t2.month);
    var f1, f2 := Sanitize(name1) + ".json", Sanitize(name2) + ".json";
    NoSlashInDigits(y1);
    NoSlashInDigits(y2);
    SplitAtSlash(y1, m1 + "/" + f1, y2, m2 + "/" + f2);
    NoSlashInDigits(m1);
    NoSlashInDigits(m2);
    SplitAtSlash(m1, f1, m2, f2);
    assert Sanitize(name1) == f1[..|f1| - 5];
    assert Sanitize(name2) == f2[..|f2| - 5];
    RenderInjective(t1.year, t2.year);
    Pad2Injective(t1.month, t2.month);
  }

  /** A note's file determines its placement: two notes share a file exactly
      when they were created in the same year and month and their names
      sanitise to the same file name. */
  lemma PathDeterminesPlacement(dataDir: string, name1: string, t1: DateTime, name2: string, t2: DateTime)
    ensures PathFor(dataDir, name1, t1) == PathFor(dataDir, name2, t2)
            <==> t1.year == t2.year && t1.month == t2.month && Sanitize(name1) == Sanitize(name2)
  {
    var pre := DirPrefix(dataDir);
    var r1, r2 := RelativePath(name1, t1), RelativePath(name2, t2);
    if PathFor(dataDir, name1, t1) == PathFor(dataDir, name2, t2) {
      assert r1 == (pre + r1)[|pre|..] == (pre + r2)[|pre|..] == r2;
      RelativePathInjective(name1, t1, name2, t2);
    }
  }

  /** The flat index row `_save_note` writes for a note: its file, both
      timestamps in ISO form and the format version. */
  datatype IndexEntry = IndexEntry(path: string, created: string, modified: string, version: int)

  type Index = map<string, IndexEntry>

  function IndexRow(c: Codec, dataDir: string, name: string, n: Note): (e: IndexEntry)
    ensures e.path == PathFor(dataDir, name, n.created)
    ensures e.created == c.iso(n.created) && e.modified == c.iso(n.modified)
    ensures e.version == SupportedVersion
  {
    IndexEntry(PathFor(dataDir, name, n.created), c.iso(n.created), c.iso(n.modified), SupportedVersion)
  }

  /** `_get_note_path(name, created)`: a given creation time decides the
      place; otherwise the index entry's creation time, which must parse;
      otherwise the current time `now`. */
  function NotePathOf(c: Codec, dataDir: string, name: string, created: Option<DateTime>, index: Index, now: DateTime)
    : (r: Result<string, FormatError>)
    ensures created.Some? ==> r == Success(PathFor(dataDir, name, created.value))
    ensures created.None? && name !in index ==> r == Success(PathFor(dataDir, name, now))
    ensures created.None? && name in index ==>
              match c.parseIso(index[name].created)
              case Some(t) => r == Success(PathFor(dataDir, name, t))
              case None => r.Failure?
    ensures r.Success? ==> exists t :: r.value == PathFor(dataDir, name, t)
  {
    match created
    case Some(t) => Success(PathFor(dataDir, name, t))
    case None =>
      if name in index then
        match c.parseIso(index[name].created)
        case Some(t) => Success(PathFor(dataDir, name, t))
        case None => Failure(MalformedTimestamp(index[name].created))
      else
        Success(PathFor(dataDir, name, now))
  }

  /** With the creation time given, neither the index nor the clock matters. */
  lemma PathIgnoresIndexAndClock(c: Codec, dataDir: string, name: string, t: DateTime,
                                 index1: Index, now1: DateTime, index2: Index, now2: DateTime)
    ensures NotePathOf(c, dataDir, name, Some(t), index1, now1) == NotePathOf(c, dataDir, name, Some(t), index2, now2)
  {
  }

  /** A lookup without the creation time finds the file the note was saved
      to, as long as the index holds the row saving wrote. */
  lemma PathRecoveredFromIndex(c: Codec, dataDir: string, name: string, n: Note, index: Index, now: DateTime)
    requires IsoRoundTrips(c)
    requires name in index && index[name] == IndexRow(c, dataDir, name, n)
    ensures NotePathOf(c, dataDir, name, None, index, now) == Success(PathFor(dataDir, name, n.created))
  {
    assert c.parseIso(c.iso(n.created)) == Some(n.created);
  }
}
