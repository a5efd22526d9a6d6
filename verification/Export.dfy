/** Exporting a package as one archive in a fixed order, which is then checked with the rules of the import. */
module Export {
  import opened Bytes
  import opened Sorting
  import opened ArchivePath
  import opened Collecting
  import opened Extraction
  import FileTree
  import Manifest
  import Utf8
  import ZipDirectory

  const MAX_ARCHIVE_BYTES: nat := 20 * 1024 * 1024
  const MAX_MANIFEST_BYTES: nat := 256 * 1024

  /** How an archive is written, and the rules of the import it is then checked with. */
  datatype Exporter = Exporter(write: seq<ZipDirectory.Item> -> seq<Byte>, im: Importer)

  /** The zip library: what it puts before the directory of some entries (local headers and compressed data), and how it
      fills the headers of the directory. */
  datatype ZipLibrary = ZipLibrary(before: seq<ZipDirectory.Item> -> seq<Byte>, layout: ZipDirectory.Layout)

  function PackageExporter(alnum: char -> bool, lib: Manifest.Library, zip: ZipLibrary): Exporter {
    Exporter((items: seq<ZipDirectory.Item>) => ZipDirectory.WithDirectory(zip.layout, zip.before(items), items), PackageImporter(alnum, lib))
  }

  /** A media file to carry along, by its content hash. */
  datatype Media = Media(sha: string, data: seq<Byte>)

  // ---- The entries of the archive ----

  function LowerAscii(s: string): (r: string)
    ensures |r| == |s|
  {
    seq(|s|, i requires 0 <= i < |s| => if 'A' <= s[i] <= 'Z' then (s[i] as int + 32) as char else s[i])
  }

  /** Hashes are folded to lower case: no upper-case letter is left, and nothing but the case of letters changes. */
  lemma LowerAsciiFolds(s: string)
    ensures forall i :: 0 <= i < |s| ==> !('A' <= LowerAscii(s)[i] <= 'Z') && SameLetter(LowerAscii(s)[i], UpperAscii(s)[i])
  {
    forall i | 0 <= i < |s|
      ensures !('A' <= LowerAscii(s)[i] <= 'Z') && SameLetter(LowerAscii(s)[i], UpperAscii(s)[i])
    {}
  }

  function IndexPath(): Path { ["media", "index.json"] }

  function MediaPath(sha: string): Path { ["media", "files", LowerAscii(sha)] }

  function MediaFiles(media: seq<Media>): seq<Found> {
    seq(|media|, i requires 0 <= i < |media| => Found(MediaPath(media[i].sha), media[i].data))
  }

  /** What the exporter adds to the collected files. */
  function Extras(index: seq<Byte>, media: seq<Media>): seq<Found> { [Found(IndexPath(), index)] + MediaFiles(media) }

  /** The manifest first, then everything else in the order of the names. */
  function Entries(files: seq<Found>, manifest: seq<Byte>, extras: seq<Found>): seq<Found> {
    [Found([MANIFEST_NAME], manifest)] + SortBy(files + extras, NameKey())
  }

  function ToItem(f: Found): ZipDirectory.Item { ZipDirectory.Item(Utf8.Encode(Name(f)), f.data) }

  function ToItems(entries: seq<Found>): (r: seq<ZipDirectory.Item>)
    ensures |r| == |entries|
  {
    seq(|entries|, i requires 0 <= i < |entries| => ToItem(entries[i]))
  }

  /** What the archive reader finds of an entry that was written. */
  function AsFound(item: ZipDirectory.Item): Content {
    var name := Utf8.Decode(item.name);
    Content(name, name.Some? && EndsWithSlash(name.value), |item.data|, item.data, false, false)
  }

  function Contents(entries: seq<Found>): (r: seq<Content>)
    ensures |r| == |entries|
  {
    seq(|entries|, i requires 0 <= i < |entries| => AsFound(ToItem(entries[i])))
  }

  function TotalBytes(files: seq<Found>): nat {
    if files == [] then 0 else |files[0].data| + TotalBytes(files[1..])
  }

  /** What the format's fields cannot hold, the writer refuses. */
  predicate AllFieldsFit(items: seq<ZipDirectory.Item>) {
    forall i :: 0 <= i < |items| ==> ZipDirectory.FieldsFit(items[i])
  }

  // ---- The check on the way in, also used on what was just written ----

  function DeclaredTotal(es: seq<ZipDirectory.Entry>): nat {
    if es == [] then 0 else DeclaredTotal(es[..|es| - 1]) + es[|es| - 1].size
  }

  type ManifestReader = seq<Byte> -> Result<Manifest.Manifest, Manifest.ManifestError>

  predicate IsManifest(c: Content) { c.name == Some(MANIFEST_NAME) }

  /** What keeps an entry from being looked at. */
  function ContentRefusal(c: Content): Option<ArchiveError> {
    if c.encrypted then Some(Forbidden)
    else if c.name == None then Some(NotReadable)
    else if IsManifest(c) && c.isDir then Some(ManifestIsDir)
    else if IsManifest(c) && c.declared > MAX_MANIFEST_BYTES then Some(ManifestTooLarge)
    else None
  }

  /** Each manifest must declare to be small and be readable, and the last one is kept. */
  function FindManifest(contents: seq<Content>, read: ManifestReader, found: Option<Manifest.Manifest>):
    Result<Option<Manifest.Manifest>, ArchiveError>
    decreases |contents|
  {
    if contents == [] then Ok(found)
    else if ContentRefusal(contents[0]).Some? then Err(ContentRefusal(contents[0]).value)
    else if !IsManifest(contents[0]) then FindManifest(contents[1..], read, found)
    else
      match read(contents[0].data)
      case Err(e) => Err(ManifestRefused(e))
      case Ok(m) => FindManifest(contents[1..], read, Some(m))
  }

  method ScanForManifest(contents: seq<Content>, read: ManifestReader) returns (r: Result<Option<Manifest.Manifest>, ArchiveError>)
    ensures r == FindManifest(contents, read, None)
  {
    var manifest: Option<Manifest.Manifest> := None;
    for i := 0 to |contents|
      invariant FindManifest(contents, read, None) == FindManifest(contents[i..], read, manifest)
    {
      assert contents[i..][1..] == contents[i + 1..];
      var c := contents[i];
      if c.encrypted {
        return Err(Forbidden);
      }
      if c.name == None {
        return Err(NotReadable);
      }
      if c.name.value == MANIFEST_NAME {
        if c.isDir {
          return Err(ManifestIsDir);
        }
        if c.declared > MAX_MANIFEST_BYTES {
          return Err(ManifestTooLarge);
        }
        var m := read(c.data);
        if m.Err? {
          return Err(ManifestRefused(m.error));
        }
        manifest := Some(m.value);
      }
    }
    return Ok(manifest);
  }

  function ValidateAndReadManifest(bytes: seq<Byte>, contents: seq<Content>, im: Importer): Result<Manifest.Manifest, ArchiveError> {
    if |bytes| > MAX_ARCHIVE_BYTES then Err(ArchiveTooLarge)
    else
      match im.parse(bytes)
      case Err(e) => Err(Directory(e))
      case Ok(es) =>
        if es == [] then Err(Empty)
        else if DeclaredTotal(es) > MAX_TOTAL_BYTES then Err(DeclaredTotalTooLarge)
        else if |contents| != |es| then Err(CountMismatch)
        else
          var found :- FindManifest(contents, im.read, None);
          if found == None then Err(ManifestMissing) else Ok(found.value)
  }

  method ValidateArchive(bytes: seq<Byte>, contents: seq<Content>, alnum: char -> bool, lib: Manifest.Library)
    returns (r: Result<Manifest.Manifest, ArchiveError>)
    ensures r == ValidateAndReadManifest(bytes, contents, PackageImporter(alnum, lib))
  {
    if |bytes| > MAX_ARCHIVE_BYTES {
      return Err(ArchiveTooLarge);
    }
    var parsed := ZipDirectory.ParseCentralDirectory(bytes, ZipDirectory.PackageRules(alnum));
    if parsed.Err? {
      return Err(Directory(parsed.error));
    }
    if parsed.value == [] {
      return Err(Empty);
    }
    if DeclaredTotal(parsed.value) > MAX_TOTAL_BYTES {
      return Err(DeclaredTotalTooLarge);
    }
    if |contents| != |parsed.value| {
      return Err(CountMismatch);
    }
    var found := ScanForManifest(contents, PackageImporter(alnum, lib).read);
    if found.Err? {
      return Err(found.error);
    }
    return if found.value == None then Err(ManifestMissing) else Ok(found.value.value);
  }

  // ---- Export ----

  /** An archive and what the reader finds in it. */
  datatype Archive = Archive(bytes: seq<Byte>, contents: seq<Content>)

  function BuildArchive(entries: seq<Found>, x: Exporter): Result<Archive, ArchiveError> {
    var items := ToItems(entries);
    if !AllFieldsFit(items) then Err(NotWritable) else Ok(Archive(x.write(items), Contents(entries)))
  }

  /** Building the archive and checking it like an import. */
  function WriteAndCheck(entries: seq<Found>, id: string, x: Exporter): Result<Archive, ArchiveError> {
    var archive :- BuildArchive(entries, x);
    var parsed :- ValidateAndReadManifest(archive.bytes, archive.contents, x.im);
    if parsed.id != id then Err(WrongIdentity) else Ok(archive)
  }

  function Writer(id: string, x: Exporter): seq<Found> -> Result<Archive, ArchiveError> {
    (entries: seq<Found>) => WriteAndCheck(entries, id, x)
  }

  function ExportWith(files: seq<Found>, manifest: seq<Byte>, extras: seq<Found>, write: seq<Found> -> Result<Archive, ArchiveError>):
    Result<Archive, ArchiveError>
  {
    if |files| + |extras| + 1 > ZipDirectory.MAX_ENTRIES then Err(TooManyEntries)
    else if TotalBytes(files) + TotalBytes(extras) > MAX_TOTAL_BYTES then Err(TotalTooLarge)
    else write(Entries(files, manifest, extras))
  }

  /** Everything after the walk; `id` is the package's directory, `manifest` the reprinted manifest. */
  function ExportFiles(files: seq<Found>, id: string, manifest: seq<Byte>, index: seq<Byte>, media: seq<Media>, x: Exporter):
    Result<Archive, ArchiveError>
  {
    if exists i :: 0 <= i < |media| && |media[i].data| > MAX_MEDIA_FILE_BYTES then Err(FileTooLarge)
    else ExportWith(files, manifest, Extras(index, media), Writer(id, x))
  }

  /** `files` is the result of a walk over the package, in the order of that walk. */
  ghost predicate Collected(root: FileTree.Node, files: seq<Found>) {
    DistinctPaths(files) && forall f :: f in files <==> IsListed(root, f)
  }

  /** File systems have no empty names and no slashes in names. */
  ghost predicate Named(root: FileTree.Node) {
    forall q :: Lookup(root, q).Some? ==> forall i :: 0 <= i < |q| ==> q[i] != "" && '/' !in q[i]
  }

  method ExportPackage(root: FileTree.Node, id: string, m: Manifest.Manifest, index: seq<Byte>, media: seq<Media>, x: Exporter)
    returns (r: Result<Archive, ArchiveError>, ghost files: seq<Found>)
    requires root.Dir?
    ensures HasSpecial(root, true) ==> r == Err(SpecialNode)
    ensures !HasSpecial(root, true) ==> Collected(root, files) && r == ExportFiles(files, id, Manifest.PrintedBytes(m), index, media, x)
  {
    files := [];
    var collected := CollectDir(root, [], []);
    if collected == None {
      return Err(SpecialNode), [];
    }
    files := collected.value;
    forall f
      ensures ListedBelow(root, [], f) <==> IsListed(root, f)
    {
      assert f.path[0..] == f.path;
    }
    r := ExportFiles(collected.value, id, Manifest.PrintedBytes(m), index, media, x);
  }

  // ---- The order of the walk does not matter ----

  /** The name of the entry leads back to its path, and is a file's name. */
  ghost predicate WellNamed(f: Found) { f.path != [] && Split(Name(f)) == f.path && !EndsWithSlash(Name(f)) }

  ghost predicate AllWellNamed(files: seq<Found>) { forall i :: 0 <= i < |files| ==> WellNamed(files[i]) }

  lemma ListedIsNamed(root: FileTree.Node, f: Found)
    requires Named(root) && IsListed(root, f)
    ensures WellNamed(f)
  {
    NameGivesPath(f);
  }

  lemma NameGivesPath(f: Found)
    requires f.path != [] && forall i :: 0 <= i < |f.path| ==> f.path[i] != "" && '/' !in f.path[i]
    ensures WellNamed(f)
  {
    SplitJoin(f.path);
    JoinEnds(f.path);
  }

  lemma {:induction false} JoinEnds(segs: seq<string>)
    requires |segs| >= 1 && segs[|segs| - 1] != "" && '/' !in segs[|segs| - 1]
    ensures !EndsWithSlash(Join(segs)) && Join(segs) != ""
  {
    if |segs| > 1 {
      JoinEnds(segs[1..]);
      var rest := Join(segs[1..]);
      assert Join(segs)[|Join(segs)| - 1] == rest[|rest| - 1];
    }
  }

  /** Content hashes are lower-case hex in the media library, and the exporter takes each file once. */
  ghost predicate MediaNamed(media: seq<Media>) {
    && (forall i :: 0 <= i < |media| ==> media[i].sha != "" && '/' !in media[i].sha)
    && forall i, j :: 0 <= i < j < |media| ==> LowerAscii(media[i].sha) != LowerAscii(media[j].sha)
  }

  lemma ExtraPath(index: seq<Byte>, media: seq<Media>, i: nat)
    requires i <= |media|
    ensures Extras(index, media)[i].path == if i == 0 then IndexPath() else MediaPath(media[i - 1].sha)
  {}

  lemma MediaPathNamed(f: Found, sha: string)
    requires sha != "" && '/' !in sha && (f.path == IndexPath() || f.path == MediaPath(sha))
    ensures WellNamed(f)
  {
    assert '/' !in "media" && '/' !in "index.json" && '/' !in "files";
    assert forall k :: 0 <= k < |sha| ==> sha[k] in sha;
    NameGivesPath(f);
  }

  lemma MediaPathsDiffer(a: string, b: string)
    ensures MediaPath(a) != IndexPath() && (LowerAscii(a) != LowerAscii(b) ==> MediaPath(a) != MediaPath(b))
  {
    assert |MediaPath(a)| != |IndexPath()|;
    assert MediaPath(a)[2] == LowerAscii(a) && MediaPath(b)[2] == LowerAscii(b);
  }

  lemma ExtrasWellNamed(index: seq<Byte>, media: seq<Media>)
    requires MediaNamed(media)
    ensures AllWellNamed(Extras(index, media)) && DistinctPaths(Extras(index, media))
    ensures forall f :: f in Extras(index, media) ==> f.path != [] && f.path[0] == "media"
  {
    var extras := Extras(index, media);
    forall i | 0 <= i < |extras|
      ensures WellNamed(extras[i]) && extras[i].path[0] == "media"
    {
      ExtraPath(index, media, i);
      MediaPathNamed(extras[i], if i == 0 then "0" else media[i - 1].sha);
    }
    forall i, j | 0 <= i < j < |extras|
      ensures extras[i].path != extras[j].path
    {
      ExtraPath(index, media, i);
      ExtraPath(index, media, j);
      MediaPathsDiffer(media[j - 1].sha, if i == 0 then "" else media[i - 1].sha);
    }
  }

  lemma CollectedWellNamed(root: FileTree.Node, files: seq<Found>)
    requires Named(root) && Collected(root, files)
    ensures AllWellNamed(files) && forall f :: f in files ==> f.path != [] && f.path[0] != "media"
  {
    forall i | 0 <= i < |files|
      ensures WellNamed(files[i])
    {
      assert files[i] in files;
      ListedIsNamed(root, files[i]);
    }
  }

  lemma AppendWellNamed(a: seq<Found>, b: seq<Found>)
    requires AllWellNamed(a) && AllWellNamed(b) && DistinctPaths(a) && DistinctPaths(b)
    requires forall f, g :: f in a && g in b ==> f.path != g.path
    ensures AllWellNamed(a + b) && DistinctKeys(a + b, NameKey())
  {
    var all := a + b;
    forall i | 0 <= i < |all|
      ensures WellNamed(all[i])
    {
      assert i < |a| ==> all[i] == a[i];
      assert i >= |a| ==> all[i] == b[i - |a|];
    }
    forall i, j | 0 <= i < j < |all|
      ensures Name(all[i]) != Name(all[j])
    {
      assert WellNamed(all[i]) && WellNamed(all[j]);
      assert i < |a| ==> all[i] in a;
      assert j >= |a| ==> all[j] in b;
    }
  }

  lemma AllDistinct(root: FileTree.Node, files: seq<Found>, index: seq<Byte>, media: seq<Media>)
    requires Named(root) && Collected(root, files) && MediaNamed(media)
    ensures AllWellNamed(files + Extras(index, media)) && DistinctKeys(files + Extras(index, media), NameKey())
  {
    ExtrasWellNamed(index, media);
    CollectedWellNamed(root, files);
    AppendWellNamed(files, Extras(index, media));
  }

  lemma FilesDistinct(files: seq<Found>, index: seq<Byte>, media: seq<Media>)
    requires DistinctKeys(files + Extras(index, media), NameKey())
    ensures DistinctKeys(files, NameKey())
  {
    assert forall i :: 0 <= i < |files| ==> files[i] == (files + Extras(index, media))[i];
  }

  lemma {:induction false} TotalInserted(x: Found, files: seq<Found>, key: Found -> string)
    ensures TotalBytes(InsertBy(x, files, key)) == |x.data| + TotalBytes(files)
  {
    if !(files == [] || !Less(key(files[0]), key(x))) {
      TotalInserted(x, files[1..], key);
    }
  }

  lemma {:induction false} TotalSorted(files: seq<Found>, key: Found -> string)
    ensures TotalBytes(SortBy(files, key)) == TotalBytes(files)
  {
    if files != [] {
      TotalSorted(files[1..], key);
      TotalInserted(files[0], SortBy(files[1..], key), key);
    }
  }

  lemma SameFilesSame(a: seq<Found>, b: seq<Found>)
    requires DistinctKeys(a, NameKey()) && DistinctKeys(b, NameKey()) && forall f :: f in a <==> f in b
    ensures |a| == |b| && TotalBytes(a) == TotalBytes(b) && SortBy(a, NameKey()) == SortBy(b, NameKey())
  {
    SortForgetsOrder(a, b, NameKey());
    SortKeeps(a, NameKey());
    SortKeeps(b, NameKey());
    TotalSorted(a, NameKey());
    TotalSorted(b, NameKey());
  }

  lemma SameFilesExportSame(a: seq<Found>, b: seq<Found>, manifest: seq<Byte>, extras: seq<Found>,
                            write: seq<Found> -> Result<Archive, ArchiveError>)
    requires DistinctKeys(a, NameKey()) && DistinctKeys(b, NameKey()) && forall f :: f in a <==> f in b
    requires DistinctKeys(a + extras, NameKey()) && DistinctKeys(b + extras, NameKey())
    ensures ExportWith(a, manifest, extras, write) == ExportWith(b, manifest, extras, write)
  {
    SameFilesSame(a, b);
    SameFilesSame(a + extras, b + extras);
  }

  /** However the directories are listed, the same package gives the same archive, or the same refusal. */
  lemma ExportForgetsOrder(root: FileTree.Node, a: seq<Found>, b: seq<Found>, id: string, manifest: seq<Byte>, index: seq<Byte>,
                           media: seq<Media>, x: Exporter)
    requires Named(root) && Collected(root, a) && Collected(root, b) && MediaNamed(media)
    ensures ExportFiles(a, id, manifest, index, media, x) == ExportFiles(b, id, manifest, index, media, x)
  {
    AllDistinct(root, a, index, media);
    AllDistinct(root, b, index, media);
    FilesDistinct(a, index, media);
    FilesDistinct(b, index, media);
    SameFilesExportSame(a, b, manifest, Extras(index, media), Writer(id, x));
  }
}
