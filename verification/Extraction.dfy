/** Extracting an accepted archive into an empty staging directory, with its limits. */
module Extraction {
  import opened Bytes
  import opened ArchivePath
  import ZipDirectory
  import Manifest
  import Utf8

  const MAX_FILE_BYTES: nat := 10 * 1024 * 1024
  const MAX_MEDIA_FILE_BYTES: nat := 90 * 1024 * 1024
  const MAX_TOTAL_BYTES: nat := 100 * 1024 * 1024
  const CHUNK_BYTES: nat := 64 * 1024

  datatype ArchiveError =
    | ArchiveTooLarge | Directory(reason: ZipDirectory.ZipError) | Empty | DeclaredTotalTooLarge | CountMismatch | NotReadable | Forbidden
    | Layout(path: PathError) | FileTooLarge | ActualSizeTooLarge | Conflict
    | ManifestMissing | ManifestIsDir | ManifestTooLarge | ManifestRefused(why: Manifest.ManifestError) | WrongIdentity
    | SpecialNode | TooManyEntries | TotalTooLarge | NotWritable

  // ---- The staging directory ----

  datatype Staging = Staging(files: map<Path, seq<Byte>>, dirs: set<Path>)

  const EMPTY_STAGING := Staging(map[], {})

  /** Every directory on the way to `path`, and `path` itself; an existing file on the way stops it. */
  function CreateDirAll(s: Staging, path: Path): Option<Staging> {
    if path == [] then Some(s)
    else
      match CreateDirAll(s, path[..|path| - 1])
      case None => None
      case Some(t) => if path in t.files then None else Some(t.(dirs := t.dirs + {path}))
  }

  /** One entry to extract: the size it declares, and what it unpacks to. */
  datatype Target = Target(path: Path, isDir: bool, declared: nat, data: seq<Byte>)

  function PerFileLimit(path: Path): nat {
    if path != [] && path[0] == "media" then MAX_MEDIA_FILE_BYTES else MAX_FILE_BYTES
  }

  /** What has been extracted so far, and how many bytes that took. */
  datatype Progress = Progress(staging: Staging, total: nat)

  function ExtractEntry(p: Progress, t: Target): Result<Progress, ArchiveError> {
    if t.isDir then
      match CreateDirAll(p.staging, t.path)
      case None => Err(Conflict)
      case Some(s) => Ok(p.(staging := s))
    else if t.declared > PerFileLimit(t.path) then Err(FileTooLarge)
    else if t.path == [] then Err(Conflict)
    else
      match CreateDirAll(p.staging, t.path[..|t.path| - 1])
      case None => Err(Conflict)
      case Some(s) =>
        if t.path in s.files || t.path in s.dirs then Err(Conflict)
        else if |t.data| > PerFileLimit(t.path) || p.total + |t.data| > MAX_TOTAL_BYTES then Err(ActualSizeTooLarge)
        else Ok(Progress(s.(files := s.files[t.path := t.data]), p.total + |t.data|))
  }

  function ExtractAll(targets: seq<Target>): Result<Progress, ArchiveError> {
    if targets == [] then Ok(Progress(EMPTY_STAGING, 0))
    else
      var n := |targets| - 1;
      var p :- ExtractAll(targets[..n]);
      ExtractEntry(p, targets[n])
  }

  /** The copy loop reads chunks of any size the decompressor chooses, and checks both limits before it writes a chunk.
      `written` is what the file holds afterwards, also after a refusal. */
  method CopyChunks(data: seq<Byte>, limit: nat, total: nat, chunk: nat -> nat)
    returns (r: Result<nat, ArchiveError>, written: seq<Byte>)
    requires total <= MAX_TOTAL_BYTES
    requires forall at :: 1 <= chunk(at) <= CHUNK_BYTES
    ensures r == if |data| <= limit && total + |data| <= MAX_TOTAL_BYTES then Ok(total + |data|) else Err(ActualSizeTooLarge)
    ensures r.Ok? ==> written == data
    ensures written <= data && |written| <= limit && total + |written| <= MAX_TOTAL_BYTES
  {
    var copied, extracted := 0, total;
    written := [];
    while copied < |data|
      invariant copied <= |data| && written == data[..copied] && copied <= limit && extracted == total + copied <= MAX_TOTAL_BYTES
    {
      var read := if copied + chunk(copied) <= |data| then chunk(copied) else |data| - copied;
      copied := copied + read;
      extracted := extracted + read;
      if copied > limit || extracted > MAX_TOTAL_BYTES {
        return Err(ActualSizeTooLarge), written;
      }
      written := written + data[copied - read..copied];
    }
    assert data[..copied] == data;
    return Ok(extracted), written;
  }

  // ---- When extraction succeeds, and with what ----

  predicate OnTheWay(p: Path, path: Path) { p != [] && p <= path }

  /** The directories an extracted entry leaves behind. */
  predicate LeavesDir(t: Target, p: Path) { OnTheWay(p, t.path) && (t.isDir || p != t.path) }

  ghost predicate IsDir(targets: seq<Target>, p: Path) { exists i :: 0 <= i < |targets| && LeavesDir(targets[i], p) }

  ghost predicate IsFile(targets: seq<Target>, p: Path) {
    exists i :: 0 <= i < |targets| && !targets[i].isDir && targets[i].path == p
  }

  function FilesOf(targets: seq<Target>): map<Path, seq<Byte>> {
    if targets == [] then map[]
    else
      var last, before := targets[|targets| - 1], FilesOf(targets[..|targets| - 1]);
      if last.isDir then before else before[last.path := last.data]
  }

  function BytesOf(targets: seq<Target>): nat {
    if targets == [] then 0
    else
      var last, before := targets[|targets| - 1], BytesOf(targets[..|targets| - 1]);
      if last.isDir then before else before + |last.data|
  }

  /** Neither of the two is a file in the place of the other or on the way to it. */
  predicate Compatible(a: Target, b: Target) { (!a.isDir ==> !(a.path <= b.path)) && (!b.isDir ==> !(b.path <= a.path)) }

  predicate WithinLimit(t: Target) { !t.isDir ==> t.declared <= PerFileLimit(t.path) && |t.data| <= PerFileLimit(t.path) }

  ghost predicate Placed(targets: seq<Target>) { forall i :: 0 <= i < |targets| ==> targets[i].path != [] }

  ghost predicate Distinct(targets: seq<Target>) {
    forall i, j :: 0 <= i < j < |targets| ==> targets[i].path != targets[j].path
  }

  ghost predicate Fits(targets: seq<Target>) {
    && (forall i :: 0 <= i < |targets| ==> WithinLimit(targets[i]))
    && BytesOf(targets) <= MAX_TOTAL_BYTES
    && forall i, j :: 0 <= i < j < |targets| ==> Compatible(targets[i], targets[j])
  }

  lemma {:induction false} CreateDirAllGives(s: Staging, path: Path)
    ensures CreateDirAll(s, path).Some? <==> forall k :: 0 < k <= |path| ==> path[..k] !in s.files
    ensures CreateDirAll(s, path).Some? ==>
              var t := CreateDirAll(s, path).value;
              t.files == s.files && forall p :: p in t.dirs <==> p in s.dirs || OnTheWay(p, path)
  {
    if path != [] {
      var n := |path| - 1;
      CreateDirAllGives(s, path[..n]);
      assert forall k :: 0 < k <= n ==> path[..n][..k] == path[..k];
      assert path[..n + 1] == path;
      forall p: Path
        ensures OnTheWay(p, path) <==> OnTheWay(p, path[..n]) || p == path
      {
        if p <= path && p != path {
          assert p == path[..|p|] && path[..|p|] == path[..n][..|p|];
        }
      }
    }
  }

  lemma {:induction false} FilesOfGives(targets: seq<Target>, p: Path)
    ensures p in FilesOf(targets) <==> IsFile(targets, p)
  {
    if targets != [] {
      var n := |targets| - 1;
      FilesOfGives(targets[..n], p);
      assert forall i :: 0 <= i < n ==> targets[..n][i] == targets[i];
    }
  }

  lemma {:induction false} FileContents(targets: seq<Target>, i: nat)
    requires i < |targets| && !targets[i].isDir
    requires forall j :: i < j < |targets| && !targets[j].isDir ==> targets[j].path != targets[i].path
    ensures targets[i].path in FilesOf(targets) && FilesOf(targets)[targets[i].path] == targets[i].data
  {
    var n := |targets| - 1;
    if i < n {
      FileContents(targets[..n], i);
    }
  }

  ghost predicate Reached(p: Progress, targets: seq<Target>) {
    && p.staging.files == FilesOf(targets) && p.total == BytesOf(targets)
    && forall d :: d in p.staging.dirs <==> IsDir(targets, d)
  }

  /** No earlier file stands on the way to `path`, in terms of the earlier targets. */
  lemma ClearWay(targets: seq<Target>, path: Path)
    requires Placed(targets)
    ensures (forall k :: 0 < k <= |path| ==> path[..k] !in FilesOf(targets)) <==>
              forall i :: 0 <= i < |targets| && !targets[i].isDir ==> !(targets[i].path <= path)
  {
    if forall i :: 0 <= i < |targets| && !targets[i].isDir ==> !(targets[i].path <= path) {
      forall k | 0 < k <= |path|
        ensures path[..k] !in FilesOf(targets)
      {
        FilesOfGives(targets, path[..k]);
      }
    } else {
      var i :| 0 <= i < |targets| && !targets[i].isDir && targets[i].path <= path;
      FilesOfGives(targets, targets[i].path);
      assert path[..|targets[i].path|] == targets[i].path;
    }
  }

  lemma ParentPrefix(a: Path, path: Path)
    requires path != []
    ensures a <= path[..|path| - 1] <==> a < path
  {}

  lemma DirStep(p: Progress, before: seq<Target>, t: Target)
    requires t.path != [] && Placed(before) && Reached(p, before) && t.isDir
    ensures ExtractEntry(p, t).Ok? <==> forall i :: 0 <= i < |before| ==> Compatible(before[i], t)
    ensures ExtractEntry(p, t).Ok? ==> Reached(ExtractEntry(p, t).value, before + [t])
  {
    assert forall i :: 0 <= i < |before| ==> before[i] == (before + [t])[i];
    assert (before + [t])[|before|] == t && (before + [t])[..|before|] == before;
    CreateDirAllGives(p.staging, t.path);
    ClearWay(before, t.path);
    DirsGrow(before, t);
  }

  lemma DirsGrow(before: seq<Target>, t: Target)
    ensures forall d :: IsDir(before + [t], d) <==> IsDir(before, d) || LeavesDir(t, d)
  {
    var all := before + [t];
    forall d
      ensures IsDir(all, d) <==> IsDir(before, d) || LeavesDir(t, d)
    {
      assert all[|before|] == t;
      assert forall i :: 0 <= i < |before| ==> all[i] == before[i];
    }
  }

  lemma FileWay(p: Progress, before: seq<Target>, t: Target)
    requires t.path != [] && Placed(before) && Reached(p, before)
    ensures var parents := CreateDirAll(p.staging, t.path[..|t.path| - 1]);
            && (parents.Some? <==> forall i :: 0 <= i < |before| && !before[i].isDir ==> !(before[i].path < t.path))
            && (parents.Some? ==> (t.path in parents.value.files <==> IsFile(before, t.path))
                                  && (t.path in parents.value.dirs <==> IsDir(before, t.path)))
  {
    var parent := t.path[..|t.path| - 1];
    CreateDirAllGives(p.staging, parent);
    ClearWay(before, parent);
    forall i | 0 <= i < |before|
      ensures before[i].path <= parent <==> before[i].path < t.path
    {
      ParentPrefix(before[i].path, t.path);
    }
    FilesOfGives(before, t.path);
    assert !OnTheWay(t.path, parent);
  }

  /** When a file is extracted, in terms of the directories on its way. */
  lemma FileEntry(p: Progress, t: Target)
    requires t.path != [] && !t.isDir
    ensures var parents := CreateDirAll(p.staging, t.path[..|t.path| - 1]);
            ExtractEntry(p, t).Ok? <==>
              && WithinLimit(t) && p.total + |t.data| <= MAX_TOTAL_BYTES
              && parents.Some? && t.path !in parents.value.files && t.path !in parents.value.dirs
  {}

  lemma FileStepSucceeds(p: Progress, before: seq<Target>, t: Target)
    requires t.path != [] && Placed(before) && Reached(p, before) && !t.isDir
    ensures ExtractEntry(p, t).Ok? <==>
              && WithinLimit(t) && BytesOf(before) + |t.data| <= MAX_TOTAL_BYTES
              && forall i :: 0 <= i < |before| ==> Compatible(before[i], t)
  {
    FileEntry(p, t);
    FileWay(p, before, t);
    FileFits(before, t);
  }

  lemma FileStepReaches(p: Progress, before: seq<Target>, t: Target)
    requires t.path != [] && Placed(before) && Reached(p, before) && !t.isDir && ExtractEntry(p, t).Ok?
    ensures Reached(ExtractEntry(p, t).value, before + [t])
  {
    var parent := t.path[..|t.path| - 1];
    assert (before + [t])[..|before|] == before;
    CreateDirAllGives(p.staging, parent);
    DirsGrow(before, t);
    forall d
      ensures LeavesDir(t, d) <==> OnTheWay(d, parent)
    {}
  }

  lemma FileFits(before: seq<Target>, t: Target)
    requires t.path != [] && !t.isDir
    ensures (forall i :: 0 <= i < |before| ==> Compatible(before[i], t)) <==>
              && (forall i :: 0 <= i < |before| && !before[i].isDir ==> !(before[i].path < t.path))
              && !IsFile(before, t.path) && !IsDir(before, t.path)
  {
    assert forall i :: 0 <= i < |before| ==>
      (Compatible(before[i], t) <==>
         && (!before[i].isDir ==> !(before[i].path < t.path) && before[i].path != t.path) && !LeavesDir(before[i], t.path));
  }

  lemma FitsGrows(before: seq<Target>, t: Target)
    ensures Fits(before + [t]) <==>
              && Fits(before) && WithinLimit(t) && BytesOf(before + [t]) <= MAX_TOTAL_BYTES
              && forall i :: 0 <= i < |before| ==> Compatible(before[i], t)
  {
    var all := before + [t];
    assert all[..|before|] == before && all[|before|] == t;
    assert forall i :: 0 <= i < |before| ==> all[i] == before[i];
  }

  /** Entries are all extracted exactly when every file declares and unpacks to no more than its own limit, all together are
      within the total, and no file stands where another entry is or needs a directory. Then every file has its contents. */
  lemma {:induction false} ExtractAllIff(targets: seq<Target>)
    requires Placed(targets)
    ensures ExtractAll(targets).Ok? <==> Fits(targets)
    ensures ExtractAll(targets).Ok? ==> Reached(ExtractAll(targets).value, targets)
  {
    if targets != [] {
      var n := |targets| - 1;
      var before, t := targets[..n], targets[n];
      assert targets == before + [t];
      ExtractAllIff(before);
      FitsGrows(before, t);
      if ExtractAll(before).Ok? {
        if t.isDir {
          DirStep(ExtractAll(before).value, before, t);
        } else {
          FileStepSucceeds(ExtractAll(before).value, before, t);
          if ExtractEntry(ExtractAll(before).value, t).Ok? {
            FileStepReaches(ExtractAll(before).value, before, t);
          }
        }
      }
    }
  }

  // ---- Archives ----

  /** An entry as the archive reader reports it, whatever the directory says: its name if it can be decoded, its kind, the
      size it declares and what it unpacks to. */
  datatype Content = Content(name: Option<string>, isDir: bool, declared: nat, data: seq<Byte>, encrypted: bool, symlink: bool)

  function TargetOf(c: Content, alnum: char -> bool): Result<Target, ArchiveError> {
    if c.encrypted || c.symlink then Err(Forbidden)
    else if c.name == None then Err(NotReadable)
    else
      match RelativePath(c.name.value, c.isDir, alnum)
      case Err(e) => Err(Layout(e))
      case Ok(path) => Ok(Target(path, c.isDir, c.declared, c.data))
  }

  /** An entry is extracted exactly if it is neither encrypted nor a link, its name can be decoded, and leads to one of the
      places in a package; it then goes to that place as it is. */
  lemma TargetIff(c: Content, text: string, alnum: char -> bool)
    requires c.name.Some? ==> NamesPath(c.name.value, c.isDir, text)
    ensures TargetOf(c, alnum).Ok? <==> !c.encrypted && !c.symlink && c.name.Some? && InPackage(Split(text), alnum)
    ensures TargetOf(c, alnum).Ok? ==> TargetOf(c, alnum).value == Target(Split(text), c.isDir, c.declared, c.data)
  {
    if c.name.Some? {
      RelativePathIff(c.name.value, c.isDir, text, alnum);
    }
  }

  /** How one entry is read and extracted. */
  datatype Steps = Steps(target: Content -> Result<Target, ArchiveError>,
                         extract: (Progress, Target) -> Result<Progress, ArchiveError>)

  function PackageSteps(alnum: char -> bool): Steps {
    Steps((c: Content) => TargetOf(c, alnum), ExtractEntry)
  }

  function ExtractItems(items: seq<Content>, steps: Steps): Result<Progress, ArchiveError> {
    if items == [] then Ok(Progress(EMPTY_STAGING, 0))
    else
      var p :- ExtractItems(items[..|items| - 1], steps);
      var t :- steps.target(items[|items| - 1]);
      steps.extract(p, t)
  }

  /** How an import reads directories, manifests and entries. */
  datatype Importer = Importer(
    parse: seq<Byte> -> Result<seq<ZipDirectory.Entry>, ZipDirectory.ZipError>,
    read: seq<Byte> -> Result<Manifest.Manifest, Manifest.ManifestError>,
    steps: Steps)

  function PackageImporter(alnum: char -> bool, lib: Manifest.Library): Importer {
    Importer((bytes: seq<Byte>) => ZipDirectory.ParseDirectory(bytes, ZipDirectory.PackageRules(alnum)),
             (bytes: seq<Byte>) => Manifest.ParsePackageToml(bytes, lib), PackageSteps(alnum))
  }

  function ReadManifest(s: Staging, im: Importer): Result<(Manifest.Manifest, Staging), ArchiveError> {
    if [MANIFEST_NAME] !in s.files then Err(ManifestMissing)
    else
      match im.read(s.files[[MANIFEST_NAME]])
      case Err(e) => Err(ManifestRefused(e))
      case Ok(m) => Ok((m, s))
  }

  /** `contents` is what the archive reader finds in `bytes`. */
  function Extract(bytes: seq<Byte>, contents: seq<Content>, im: Importer): Result<(Manifest.Manifest, Staging), ArchiveError> {
    match im.parse(bytes)
    case Err(e) => Err(Directory(e))
    case Ok(es) =>
      if |contents| != |es| then Err(CountMismatch)
      else
        var p :- ExtractItems(contents, im.steps);
        ReadManifest(p.staging, im)
  }

  /** One file: its parents, the file itself, which must be new, and the bytes in chunks. `written` is what the file holds
      afterwards, if it was made: never more than its limits allow, even when it is refused. */
  method WriteFile(p: Progress, t: Target, chunk: nat -> nat) returns (r: Result<Progress, ArchiveError>, written: Option<seq<Byte>>)
    requires !t.isDir && p.total <= MAX_TOTAL_BYTES
    requires forall at :: 1 <= chunk(at) <= CHUNK_BYTES
    ensures r == ExtractEntry(p, t)
    ensures r.Ok? ==> written == Some(t.data) && r.value.total <= MAX_TOTAL_BYTES
    ensures written.Some? ==> written.value <= t.data && ExtractEntry(p, t.(data := written.value)).Ok?
  {
    if t.declared > PerFileLimit(t.path) {
      return Err(FileTooLarge), None;
    }
    if t.path == [] {
      return Err(Conflict), None;
    }
    var parents := CreateDirAll(p.staging, t.path[..|t.path| - 1]);
    if parents == None || t.path in parents.value.files || t.path in parents.value.dirs {
      return Err(Conflict), None;
    }
    var copied, bytes := CopyChunks(t.data, PerFileLimit(t.path), p.total, chunk);
    if copied.Err? {
      return Err(copied.error), Some(bytes);
    }
    var s := parents.value;
    return Ok(Progress(s.(files := s.files[t.path := bytes]), copied.value)), Some(bytes);
  }

  /** `made` is what the entry comes to, or a beginning of it. */
  predicate MadeFrom(made: Target, target: Result<Target, ArchiveError>) {
    target.Ok? && made.data <= target.value.data && made == target.value.(data := made.data)
  }

  /** One entry. `left` are the files in the staging directory afterwards, which extracting `cut`, the entry or a beginning
      of it, would leave; without a `cut` no file was made. */
  method UnpackEntry(p: Progress, t: Target, chunk: nat -> nat)
    returns (r: Result<Progress, ArchiveError>, left: map<Path, seq<Byte>>, ghost cut: Option<Target>)
    requires p.total <= MAX_TOTAL_BYTES
    requires forall at :: 1 <= chunk(at) <= CHUNK_BYTES
    ensures r == ExtractEntry(p, t)
    ensures r.Ok? ==> r.value.total <= MAX_TOTAL_BYTES && cut == Some(t)
    ensures match cut
            case None => left == p.staging.files
            case Some(m) => MadeFrom(m, Ok(t)) && ExtractEntry(p, m).Ok? && left == ExtractEntry(p, m).value.staging.files
  {
    if t.isDir {
      r := ExtractEntry(p, t);
      if r.Ok? {
        CreateDirAllGives(p.staging, t.path);
      }
      return r, p.staging.files, if r.Ok? then Some(t) else None;
    }
    var written: Option<seq<Byte>>;
    r, written := WriteFile(p, t, chunk);
    if written == None {
      return r, p.staging.files, None;
    }
    CreateDirAllGives(p.staging, t.path[..|t.path| - 1]);
    return r, p.staging.files[t.path := written.value], Some(t.(data := written.value));
  }

  /** The files in the staging directory after some of an archive: those of the first entries, and no more than fits the
      limits. */
  ghost predicate Leaves(files: map<Path, seq<Byte>>, made: seq<Target>, contents: seq<Content>, steps: Steps) {
    && ExtractAll(made).Ok? && ExtractAll(made).value.staging.files == files
    && |made| <= |contents|
    && forall i :: 0 <= i < |made| ==> MadeFrom(made[i], steps.target(contents[i]))
  }

  lemma LeavesMore(made: seq<Target>, contents: seq<Content>, steps: Steps, p: Progress, t: Target)
    requires |made| < |contents| && ExtractAll(made) == Ok(p) && Leaves(p.staging.files, made, contents, steps)
    requires MadeFrom(t, steps.target(contents[|made|])) && ExtractEntry(p, t).Ok?
    ensures var q := ExtractEntry(p, t).value; ExtractAll(made + [t]) == Ok(q) && Leaves(q.staging.files, made + [t], contents, steps)
  {
    var more := made + [t];
    assert more[..|made|] == made;
    assert forall i :: 0 <= i < |made| ==> more[i] == made[i];
  }

  /** The loop over the entries. `left` are the files in the staging directory afterwards, those of the entries in `made`,
      the last of which may be cut short by a refusal. */
  method UnpackAll(contents: seq<Content>, steps: Steps, chunk: nat -> nat)
    returns (r: Result<Progress, ArchiveError>, left: map<Path, seq<Byte>>, ghost made: seq<Target>)
    requires steps.extract == ExtractEntry
    requires forall at :: 1 <= chunk(at) <= CHUNK_BYTES
    ensures r == ExtractItems(contents, steps)
    ensures r.Ok? ==> left == r.value.staging.files
    ensures Leaves(left, made, contents, steps)
  {
    made := [];
    var p := Progress(EMPTY_STAGING, 0);
    for i := 0 to |contents|
      invariant ExtractItems(contents[..i], steps) == Ok(p) && p.total <= MAX_TOTAL_BYTES
      invariant |made| == i && ExtractAll(made) == Ok(p) && Leaves(p.staging.files, made, contents, steps)
    {
      StepOf(contents, i, p, steps);
      var target := steps.target(contents[i]);
      if target.Err? {
        FailureStays(contents, i + 1, steps);
        return Err(target.error), p.staging.files, made;
      }
      var next, files, cut := UnpackEntry(p, target.value, chunk);
      if cut.Some? {
        LeavesMore(made, contents, steps, p, cut.value);
        made := made + [cut.value];
      }
      if next.Err? {
        FailureStays(contents, i + 1, steps);
        return Err(next.error), files, made;
      }
      p := next.value;
    }
    assert contents[..|contents|] == contents;
    return Ok(p), p.staging.files, made;
  }

  method ExtractArchive(bytes: seq<Byte>, contents: seq<Content>, alnum: char -> bool, lib: Manifest.Library, chunk: nat -> nat)
    returns (r: Result<(Manifest.Manifest, Staging), ArchiveError>, left: map<Path, seq<Byte>>, ghost made: seq<Target>)
    requires forall at :: 1 <= chunk(at) <= CHUNK_BYTES
    ensures r == Extract(bytes, contents, PackageImporter(alnum, lib))
    ensures r.Ok? ==> left == r.value.1.files
    ensures Leaves(left, made, contents, PackageSteps(alnum))
  {
    var parsed := ZipDirectory.ParseCentralDirectory(bytes, ZipDirectory.PackageRules(alnum));
    if parsed.Err? {
      return Err(Directory(parsed.error)), map[], [];
    }
    if |contents| != |parsed.value| {
      return Err(CountMismatch), map[], [];
    }
    var p, files, m := UnpackAll(contents, PackageSteps(alnum), chunk);
    if p.Err? {
      return Err(p.error), files, m;
    }
    return ReadManifest(p.value.staging, PackageImporter(alnum, lib)), files, m;
  }

  lemma StepOf(items: seq<Content>, i: nat, p: Progress, steps: Steps)
    requires i < |items| && ExtractItems(items[..i], steps) == Ok(p)
    ensures ExtractItems(items[..i + 1], steps) ==
              if steps.target(items[i]).Ok? then steps.extract(p, steps.target(items[i]).value)
              else Err(steps.target(items[i]).error)
  {
    assert items[..i + 1][..i] == items[..i];
  }

  lemma {:induction false} FailureStays(items: seq<Content>, i: nat, steps: Steps)
    requires i <= |items| && ExtractItems(items[..i], steps).Err?
    ensures ExtractItems(items, steps) == ExtractItems(items[..i], steps)
  {
    if i == |items| {
      assert items[..i] == items;
    } else {
      var n := |items| - 1;
      assert items[..n][..i] == items[..i];
      FailureStays(items[..n], i, steps);
    }
  }

  // ---- What an accepted archive is extracted to ----

  /** Every entry is a plain one with a place. */
  predicate AllPlaced(contents: seq<Content>, steps: Steps) {
    forall i :: 0 <= i < |contents| ==> steps.target(contents[i]).Ok?
  }

  function TargetsOf(contents: seq<Content>, steps: Steps): (targets: seq<Target>)
    requires AllPlaced(contents, steps)
    ensures |targets| == |contents| && forall i :: 0 <= i < |targets| ==> steps.target(contents[i]) == Ok(targets[i])
  {
    seq(|contents|, i requires 0 <= i < |contents| && steps.target(contents[i]).Ok? => steps.target(contents[i]).value)
  }

  lemma {:induction false} ExtractItemsIff(contents: seq<Content>, steps: Steps)
    requires steps.extract == ExtractEntry
    ensures ExtractItems(contents, steps).Ok? ==> AllPlaced(contents, steps)
    ensures AllPlaced(contents, steps) ==> ExtractItems(contents, steps) == ExtractAll(TargetsOf(contents, steps))
  {
    if contents != [] {
      var n := |contents| - 1;
      ExtractItemsIff(contents[..n], steps);
      if AllPlaced(contents, steps) {
        assert TargetsOf(contents, steps)[..n] == TargetsOf(contents[..n], steps);
      }
    }
  }

  lemma TargetBelow(c: Content, alnum: char -> bool)
    requires TargetOf(c, alnum).Ok?
    ensures StrictlyBelow(TargetOf(c, alnum).value.path)
  {
    RelativePathKeeps(c.name.value, c.isDir, alnum);
  }

  lemma ExtractStaged(bytes: seq<Byte>, contents: seq<Content>, es: seq<ZipDirectory.Entry>, targets: seq<Target>, im: Importer)
    requires im.parse(bytes) == Ok(es) && |contents| == |es|
    requires Placed(targets) && ExtractItems(contents, im.steps) == ExtractAll(targets)
    ensures var r := Extract(bytes, contents, im);
            && (r.Ok? <==> Fits(targets) && [MANIFEST_NAME] in FilesOf(targets) && im.read(FilesOf(targets)[[MANIFEST_NAME]]).Ok?)
            && (r.Ok? ==> r.value.1.files == FilesOf(targets) && im.read(FilesOf(targets)[[MANIFEST_NAME]]) == Ok(r.value.0))
            && (r.Ok? ==> forall d :: d in r.value.1.dirs <==> IsDir(targets, d))
  {
    ExtractAllIff(targets);
  }

  /** Fitting entries that end with a readable manifest among their files. */
  ghost predicate Complete(targets: seq<Target>, lib: Manifest.Library) {
    && Fits(targets)
    && [MANIFEST_NAME] in FilesOf(targets) && Manifest.ParsePackageToml(FilesOf(targets)[[MANIFEST_NAME]], lib).Ok?
  }

  lemma ExtractNeeds(bytes: seq<Byte>, contents: seq<Content>, alnum: char -> bool, lib: Manifest.Library)
    requires Extract(bytes, contents, PackageImporter(alnum, lib)).Ok?
    ensures var parsed := ZipDirectory.ParseDirectory(bytes, ZipDirectory.PackageRules(alnum));
            parsed.Ok? && |contents| == |parsed.value| && AllPlaced(contents, PackageSteps(alnum))
  {
    ExtractItemsIff(contents, PackageSteps(alnum));
  }

  lemma PlacedTargets(contents: seq<Content>, alnum: char -> bool)
    requires AllPlaced(contents, PackageSteps(alnum))
    ensures var targets := TargetsOf(contents, PackageSteps(alnum)); forall i :: 0 <= i < |targets| ==> StrictlyBelow(targets[i].path)
  {
    var targets := TargetsOf(contents, PackageSteps(alnum));
    forall i | 0 <= i < |targets|
      ensures StrictlyBelow(targets[i].path)
    {
      TargetBelow(contents[i], alnum);
    }
  }

  /** Whatever the archive reader finds: extraction succeeds exactly when the directory is accepted with as many entries as
      the reader finds, each of them is a plain one with a place in a package, they fit the limits and do not stand in each
      other's way, and a readable manifest is among them. The staged files and directories are then exactly theirs. */
  lemma ExtractIff(bytes: seq<Byte>, contents: seq<Content>, alnum: char -> bool, lib: Manifest.Library)
    ensures var r := Extract(bytes, contents, PackageImporter(alnum, lib));
            var parsed := ZipDirectory.ParseDirectory(bytes, ZipDirectory.PackageRules(alnum));
            r.Ok? <==>
              && parsed.Ok? && |contents| == |parsed.value|
              && AllPlaced(contents, PackageSteps(alnum)) && Complete(TargetsOf(contents, PackageSteps(alnum)), lib)
    ensures var r := Extract(bytes, contents, PackageImporter(alnum, lib));
            r.Ok? ==>
              var targets := TargetsOf(contents, PackageSteps(alnum));
              && r.value.1.files == FilesOf(targets) && (forall d :: d in r.value.1.dirs <==> IsDir(targets, d))
              && Manifest.ParsePackageToml(FilesOf(targets)[[MANIFEST_NAME]], lib) == Ok(r.value.0)
              && forall i :: 0 <= i < |targets| ==> StrictlyBelow(targets[i].path)
  {
    var im := PackageImporter(alnum, lib);
    if Extract(bytes, contents, im).Ok? {
      ExtractNeeds(bytes, contents, alnum, lib);
    }
    if AllPlaced(contents, PackageSteps(alnum)) && im.parse(bytes).Ok? && |contents| == |im.parse(bytes).value| {
      PlacedTargets(contents, alnum);
      ExtractItemsIff(contents, PackageSteps(alnum));
      ExtractStaged(bytes, contents, im.parse(bytes).value, TargetsOf(contents, PackageSteps(alnum)), im);
    }
  }

  lemma {:induction false} FilesAreBelow(made: seq<Target>, p: Path)
    requires Fits(made) && (forall i :: 0 <= i < |made| ==> StrictlyBelow(made[i].path)) && p in FilesOf(made)
    ensures StrictlyBelow(p) && |FilesOf(made)[p]| <= PerFileLimit(p)
  {
    FilesOfGives(made, p);
    var i :| 0 <= i < |made| && !made[i].isDir && made[i].path == p;
    forall j | i < j < |made| && !made[j].isDir
      ensures made[j].path != p
    {
      assert Compatible(made[i], made[j]);
    }
    FileContents(made, i);
    assert WithinLimit(made[i]);
  }

  /** What is left in the staging directory by an extraction, finished or refused, of whatever the reader finds: every file
      strictly below it and within its own limit, and all together within 100 MiB. */
  lemma LeftIsBounded(left: map<Path, seq<Byte>>, made: seq<Target>, contents: seq<Content>, alnum: char -> bool)
    requires Leaves(left, made, contents, PackageSteps(alnum))
    ensures left == FilesOf(made) && BytesOf(made) <= MAX_TOTAL_BYTES
    ensures forall p :: p in left ==> StrictlyBelow(p) && |left[p]| <= PerFileLimit(p)
  {
    forall i | 0 <= i < |made|
      ensures StrictlyBelow(made[i].path)
    {
      TargetBelow(contents[i], alnum);
    }
    ExtractAllIff(made);
    forall p | p in left
      ensures StrictlyBelow(p) && |left[p]| <= PerFileLimit(p)
    {
      FilesAreBelow(made, p);
    }
  }

  // ---- A reader that agrees with the directory ----

  /** The archive reader finds the entries of the directory, by name and kind, and all of them plain. */
  ghost predicate Reads(contents: seq<Content>, es: seq<ZipDirectory.Entry>) {
    && |contents| == |es|
    && forall i :: 0 <= i < |es| ==> ReadsOne(contents[i], es[i])
  }

  predicate ReadsOne(c: Content, e: ZipDirectory.Entry) {
    && !c.encrypted && !c.symlink && c.name.Some?
    && ZipDirectory.Normalized(c.name.value) == e.name && EndsWithSlash(c.name.value) == c.isDir == e.isDir
  }

  lemma TargetExists(c: Content, e: ZipDirectory.Entry, alnum: char -> bool)
    requires ReadsOne(c, e) && RelativePath(e.name, e.isDir, alnum).Ok?
    ensures TargetOf(c, alnum).Ok?
  {
    ZipDirectory.TrimTwice(c.name.value);
  }

  /** Every entry of an accepted archive has a place. */
  lemma AcceptedTargets(bytes: seq<Byte>, contents: seq<Content>, es: seq<ZipDirectory.Entry>, alnum: char -> bool)
    requires ZipDirectory.ParseDirectory(bytes, ZipDirectory.PackageRules(alnum)) == Ok(es) && Reads(contents, es)
    ensures AllPlaced(contents, PackageSteps(alnum))
  {
    forall i | 0 <= i < |contents|
      ensures TargetOf(contents[i], alnum).Ok?
    {
      ZipDirectory.AcceptedPath(bytes, es, alnum, i);
      TargetExists(contents[i], es[i], alnum);
    }
  }

  lemma TargetPath(c: Content, e: ZipDirectory.Entry, alnum: char -> bool)
    requires ReadsOne(c, e) && TargetOf(c, alnum).Ok?
    ensures TargetOf(c, alnum).value.path == Split(e.name)
  {
    RelativePathKeeps(c.name.value, c.isDir, alnum);
  }

  /** The places of an accepted archive's entries are pairwise distinct, so none is refused for its place alone. */
  lemma TargetsDistinct(bytes: seq<Byte>, contents: seq<Content>, es: seq<ZipDirectory.Entry>, alnum: char -> bool)
    requires ZipDirectory.ParseDirectory(bytes, ZipDirectory.PackageRules(alnum)) == Ok(es) && Reads(contents, es)
    requires AllPlaced(contents, PackageSteps(alnum))
    ensures var targets := TargetsOf(contents, PackageSteps(alnum)); Placed(targets) && Distinct(targets)
  {
    var targets := TargetsOf(contents, PackageSteps(alnum));
    PlacedTargets(contents, alnum);
    forall i, j | 0 <= i < j < |targets|
      ensures targets[i].path != targets[j].path
    {
      TargetPath(contents[i], es[i], alnum);
      TargetPath(contents[j], es[j], alnum);
      ZipDirectory.AcceptedNamesDiffer(bytes, es, ZipDirectory.PackageRules(alnum), i, j);
      SplitSegments(es[i].name);
      SplitSegments(es[j].name);
    }
  }

  // ---- A file system that does not tell all names apart ----

  function FoldPath(path: Path, fold: string -> string): (r: Path)
    ensures |r| == |path| && forall i :: 0 <= i < |r| ==> r[i] == fold(path[i])
  {
    seq(|path|, i requires 0 <= i < |path| => fold(path[i]))
  }

  function Folded(t: Target, fold: string -> string): Target { t.(path := FoldPath(t.path, fold)) }

  /** What is extracted to a file system that takes names with the same folding for the same. */
  function FoldAll(targets: seq<Target>, fold: string -> string): (r: seq<Target>)
    ensures |r| == |targets| && forall i :: 0 <= i < |r| ==> r[i] == Folded(targets[i], fold)
  {
    seq(|targets|, i requires 0 <= i < |targets| => Folded(targets[i], fold))
  }

  /** The top-level names of packages are lower-case already. */
  ghost predicate TopsStay(targets: seq<Target>, fold: string -> string) {
    forall i :: 0 <= i < |targets| ==> targets[i].path != [] && fold(targets[i].path[0]) == targets[i].path[0]
  }

  lemma {:induction false} FoldedBytes(targets: seq<Target>, fold: string -> string)
    ensures BytesOf(FoldAll(targets, fold)) == BytesOf(targets)
  {
    if targets != [] {
      var n := |targets| - 1;
      FoldedBytes(targets[..n], fold);
      assert FoldAll(targets, fold)[..n] == FoldAll(targets[..n], fold);
    }
  }

  lemma FoldedPrefix(a: Path, b: Path, fold: string -> string)
    ensures a <= b ==> FoldPath(a, fold) <= FoldPath(b, fold)
  {
    if a <= b {
      assert FoldPath(b, fold)[..|a|] == FoldPath(a, fold);
    }
  }

  ghost predicate NoClash(targets: seq<Target>, fold: string -> string) {
    forall i, j :: 0 <= i < j < |targets| ==> Compatible(Folded(targets[i], fold), Folded(targets[j], fold))
  }

  lemma FoldedFitsIff(targets: seq<Target>, fold: string -> string)
    requires TopsStay(targets, fold)
    ensures Fits(FoldAll(targets, fold)) <==> Fits(targets) && NoClash(targets, fold)
  {
    var folded := FoldAll(targets, fold);
    FoldedBytes(targets, fold);
    forall i | 0 <= i < |targets|
      ensures WithinLimit(folded[i]) <==> WithinLimit(targets[i])
    {
      assert folded[i].path[0] == targets[i].path[0];
    }
    forall i, j | 0 <= i < j < |targets| && Compatible(folded[i], folded[j])
      ensures Compatible(targets[i], targets[j])
    {
      FoldedPrefix(targets[i].path, targets[j].path, fold);
      FoldedPrefix(targets[j].path, targets[i].path, fold);
    }
  }

  /** On such a file system entries are all extracted exactly when they are on one that tells all names apart, and no file
      stands where another entry, of a name folded alike, is or needs a directory. */
  lemma FoldedExtractIff(targets: seq<Target>, fold: string -> string)
    requires TopsStay(targets, fold)
    ensures ExtractAll(FoldAll(targets, fold)).Ok? <==> ExtractAll(targets).Ok? && NoClash(targets, fold)
  {
    ExtractAllIff(targets);
    ExtractAllIff(FoldAll(targets, fold));
    FoldedFitsIff(targets, fold);
  }

  /** Two empty files of different names below one top-level directory fit together, and clash where the names fold alike. */
  lemma TwoNames(top: string, x: string, y: string, fold: string -> string)
    requires x != y && fold(x) == fold(y) && fold(top) == top
    ensures var targets := [Target([top, x], false, 0, []), Target([top, y], false, 0, [])];
            TopsStay(targets, fold) && Fits(targets) && !NoClash(targets, fold)
  {
    var a, b := Target([top, x], false, 0, []), Target([top, y], false, 0, []);
    assert a.path[1] != b.path[1];
    assert BytesOf([a, b]) == 0 by {
      assert [a, b][..1] == [a] && [a][..0] == [];
      assert BytesOf([a]) == 0;
    }
    assert Compatible([a, b][0], [a, b][1]);
    assert !Compatible(Folded([a, b][0], fold), Folded([a, b][1], fold)) by {
      assert FoldPath(a.path, fold) == FoldPath(b.path, fold);
    }
  }

  lemma SharedName(x: string, alnum: char -> bool)
    requires ValidSegment(x, alnum) && '/' !in x && '\\' !in x
    ensures RelativePath("shared/" + x, false, alnum) == Ok(["shared", x])
  {
    var name := "shared/" + x;
    ManifestCharacters();
    assert name[6] == '/' && name != MANIFEST_NAME;
    assert Split(name) == ["shared", x] by {
      SplitJoin(["shared", x]);
      assert name == Join(["shared", x]) by {
        assert ["shared", x][1..] == [x];
      }
    }
    SanitizeEachKeeps([x], alnum);
    assert ["shared", x][1..] == [x];
  }

  /** Two file names that differ, in the case of a letter say, are both accepted below `shared`. Their empty files are extracted
      where the names differ, and the archive is refused where they fold alike. */
  lemma FoldedNamesClash(x: string, y: string, fold: string -> string, alnum: char -> bool)
    requires ValidSegment(x, alnum) && '/' !in x && '\\' !in x
    requires ValidSegment(y, alnum) && '/' !in y && '\\' !in y
    requires x != y && fold(x) == fold(y) && fold("shared") == "shared"
    ensures RelativePath("shared/" + x, false, alnum) == Ok(["shared", x])
    ensures RelativePath("shared/" + y, false, alnum) == Ok(["shared", y])
    ensures var targets := [Target(["shared", x], false, 0, []), Target(["shared", y], false, 0, [])];
            ExtractAll(targets).Ok? && ExtractAll(FoldAll(targets, fold)).Err?
  {
    SharedName(x, alnum);
    SharedName(y, alnum);
    var targets := [Target(["shared", x], false, 0, []), Target(["shared", y], false, 0, [])];
    TwoNames("shared", x, y, fold);
    ExtractAllIff(targets);
    FoldedExtractIff(targets, fold);
  }
}
