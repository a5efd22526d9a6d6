/** Extracting what was exported gives the package back. */
module ExportImport {
  import opened Bytes
  import opened Sorting
  import opened ArchivePath
  import opened Collecting
  import opened Extraction
  import opened Export
  import FileTree
  import Manifest
  import Utf8
  import ZipDirectory

  // ---- What the reader finds ----

  lemma WrittenReads(entries: seq<Found>, l: ZipDirectory.Layout, start: nat, alnum: char -> bool)
    requires ZipDirectory.WellWritten(l, start, ToItems(entries), ZipDirectory.PackageRules(alnum))
    ensures var es := ZipDirectory.Expected(l, ToItems(entries), 0, start, ZipDirectory.PackageRules(alnum));
            Reads(Contents(entries), es) && forall i :: 0 <= i < |es| ==> es[i].size == |entries[i].data|
  {
    var rules, items := ZipDirectory.PackageRules(alnum), ToItems(entries);
    var es := ZipDirectory.Expected(l, items, 0, start, rules);
    forall i | 0 <= i < |es|
      ensures ReadsOne(Contents(entries)[i], es[i]) && es[i].size == |entries[i].data|
    {
      ZipDirectory.ExpectedContents(l, items, 0, start, i, rules);
      assert ZipDirectory.GoodName(items[i].name, rules) && items[i] == ToItem(entries[i]);
    }
  }

  function TargetFor(f: Found): Target { Target(f.path, false, |f.data|, f.data) }

  lemma TargetIs(f: Found, alnum: char -> bool)
    requires WellNamed(f) && TargetOf(AsFound(ToItem(f)), alnum).Ok?
    ensures TargetOf(AsFound(ToItem(f)), alnum) == Ok(TargetFor(f))
  {
    Utf8.DecodeEncode(Name(f));
    RelativePathKeeps(Name(f), false, alnum);
  }

  lemma {:induction false} BytesAreDeclared(targets: seq<Target>, es: seq<ZipDirectory.Entry>)
    requires |targets| == |es| && forall i :: 0 <= i < |es| ==> !targets[i].isDir && |targets[i].data| == es[i].size
    ensures BytesOf(targets) == DeclaredTotal(es)
  {
    if es != [] {
      BytesAreDeclared(targets[..|es| - 1], es[..|es| - 1]);
    }
  }

  // ---- What the archive holds ----

  /** The entries of an export, by where they come from. */
  ghost predicate Belongs(root: FileTree.Node, manifest: seq<Byte>, index: seq<Byte>, media: seq<Media>, f: Found) {
    || f == Found([MANIFEST_NAME], manifest)
    || IsListed(root, f)
    || f == Found(IndexPath(), index)
    || exists i :: 0 <= i < |media| && f == Found(MediaPath(media[i].sha), media[i].data)
  }

  lemma ExtrasHold(index: seq<Byte>, media: seq<Media>, f: Found)
    ensures f in Extras(index, media) <==>
              f == Found(IndexPath(), index) || exists i :: 0 <= i < |media| && f == Found(MediaPath(media[i].sha), media[i].data)
  {
    var extras := Extras(index, media);
    if f in extras {
      var i :| 0 <= i < |extras| && extras[i] == f;
      assert i > 0 ==> f == Found(MediaPath(media[i - 1].sha), media[i - 1].data);
    }
    forall i | 0 <= i < |media|
      ensures Found(MediaPath(media[i].sha), media[i].data) in extras
    {
      assert extras[i + 1] == Found(MediaPath(media[i].sha), media[i].data);
    }
    assert extras[0] in extras;
  }

  lemma EntriesHold(root: FileTree.Node, files: seq<Found>, manifest: seq<Byte>, index: seq<Byte>, media: seq<Media>, f: Found)
    requires Collected(root, files)
    ensures f in Entries(files, manifest, Extras(index, media)) <==> Belongs(root, manifest, index, media, f)
  {
    SortHasSame(files + Extras(index, media), NameKey(), f);
    ExtrasHold(index, media, f);
  }

  lemma EntryNamed(root: FileTree.Node, files: seq<Found>, manifest: seq<Byte>, index: seq<Byte>, media: seq<Media>, f: Found)
    requires Named(root) && Collected(root, files) && MediaNamed(media)
    requires f in Entries(files, manifest, Extras(index, media))
    ensures WellNamed(f)
  {
    var all := files + Extras(index, media);
    if f == Found([MANIFEST_NAME], manifest) {
      ManifestCharacters();
      NameGivesPath(f);
    } else {
      SortHasSame(all, NameKey(), f);
      var i :| 0 <= i < |all| && all[i] == f;
      AllDistinct(root, files, index, media);
    }
  }

  // ---- No file stands where another needs a directory ----

  lemma {:induction false} NothingBelowFile(node: FileTree.Node, p: Path, q: Path)
    requires Lookup(node, p).Some? && Lookup(node, p).value.File? && p < q
    ensures Lookup(node, q) == None
    decreases |p|
  {
    if p != [] {
      assert q[0] == p[0];
      NothingBelowFile(node.entries[p[0]], p[1..], q[1..]);
    }
  }

  lemma MediaNotInTheWay(index: seq<Byte>, media: seq<Media>, f: Found, g: Found)
    requires f in Extras(index, media) && g in Extras(index, media)
    ensures !(f.path < g.path)
  {
    ExtrasHold(index, media, f);
    ExtrasHold(index, media, g);
    assert "index.json" != "files" by { assert |"files"| == 5; }
    PrefixSecond(f.path, g.path);
  }

  lemma PrefixSecond(a: Path, b: Path)
    requires |a| >= 2
    ensures a < b ==> |b| > |a| && a[1] == b[1]
  {}

  lemma ExtrasInMedia(index: seq<Byte>, media: seq<Media>, f: Found)
    requires f in Extras(index, media)
    ensures f.path != [] && f.path[0] == "media"
  {
    ExtrasHold(index, media, f);
  }

  lemma NotInTheWay(root: FileTree.Node, files: seq<Found>, manifest: seq<Byte>, index: seq<Byte>, media: seq<Media>, f: Found, g: Found)
    requires Collected(root, files)
    requires f in Entries(files, manifest, Extras(index, media)) && g in Entries(files, manifest, Extras(index, media))
    ensures !(f.path < g.path)
  {
    var extras := Extras(index, media);
    SortHasSame(files + extras, NameKey(), f);
    SortHasSame(files + extras, NameKey(), g);
    if f.path < g.path && g in files && f in files {
      NothingBelowFile(root, f.path, g.path);
    }
    if f in extras { ExtrasInMedia(index, media, f); }
    if g in extras { ExtrasInMedia(index, media, g); }
    if f in extras && g in extras { MediaNotInTheWay(index, media, f, g); }
    assert MANIFEST_NAME != "media" by { ManifestCharacters(); assert |"media"| == 5; }
  }

  // ---- The theorem ----

  lemma CheckedParts(entries: seq<Found>, id: string, x: Exporter, archive: Archive)
    requires WriteAndCheck(entries, id, x) == Ok(archive)
    ensures archive == Archive(x.write(ToItems(entries)), Contents(entries)) && AllFieldsFit(ToItems(entries))
    ensures |archive.bytes| <= MAX_ARCHIVE_BYTES && x.im.parse(archive.bytes).Ok?
    ensures DeclaredTotal(x.im.parse(archive.bytes).value) <= MAX_TOTAL_BYTES
    ensures FindManifest(archive.contents, x.im.read, None).Ok?
  {}

  lemma CheckedManifest(entries: seq<Found>, id: string, x: Exporter, archive: Archive)
    requires WriteAndCheck(entries, id, x) == Ok(archive) && entries != [] && entries[0].path == [MANIFEST_NAME]
    ensures |entries[0].data| <= MAX_MANIFEST_BYTES && x.im.read(entries[0].data).Ok?
  {
    CheckedParts(entries, id, x, archive);
    ManifestItem(entries[0]);
    assert archive.contents[0] == AsFound(ToItem(entries[0]));
  }

  lemma ManifestItem(f: Found)
    requires f.path == [MANIFEST_NAME]
    ensures IsManifest(AsFound(ToItem(f)))
  {
    Utf8.DecodeEncode(Name(f));
  }

  /** The targets of an exported archive are its entries. */
  ghost predicate SameAsEntries(targets: seq<Target>, entries: seq<Found>) {
    |targets| == |entries| && forall i :: 0 <= i < |entries| ==> targets[i] == TargetFor(entries[i])
  }

  lemma TargetIsEntry(entries: seq<Found>, alnum: char -> bool, i: nat)
    requires AllPlaced(Contents(entries), PackageSteps(alnum)) && i < |entries| && WellNamed(entries[i])
    ensures TargetsOf(Contents(entries), PackageSteps(alnum))[i] == TargetFor(entries[i])
  {
    assert Contents(entries)[i] == AsFound(ToItem(entries[i]));
    TargetIs(entries[i], alnum);
  }

  lemma {:induction false} TargetsAreEntries(entries: seq<Found>, es: seq<ZipDirectory.Entry>, alnum: char -> bool)
    requires AllPlaced(Contents(entries), PackageSteps(alnum)) && forall f :: f in entries ==> WellNamed(f)
    requires |es| == |entries| && forall i :: 0 <= i < |es| ==> es[i].size == |entries[i].data|
    ensures var targets := TargetsOf(Contents(entries), PackageSteps(alnum));
            SameAsEntries(targets, entries) && BytesOf(targets) == DeclaredTotal(es)
  {
    var targets := TargetsOf(Contents(entries), PackageSteps(alnum));
    forall i | 0 <= i < |entries|
      ensures targets[i] == TargetFor(entries[i])
    {
      assert entries[i] in entries;
      TargetIsEntry(entries, alnum, i);
    }
    BytesAreDeclared(targets, es);
  }

  lemma FitsIff(targets: seq<Target>, entries: seq<Found>)
    requires SameAsEntries(targets, entries) && BytesOf(targets) <= MAX_TOTAL_BYTES && Distinct(targets)
    requires forall f, g :: f in entries && g in entries ==> !(f.path < g.path)
    ensures Fits(targets) <==> forall f :: f in entries ==> |f.data| <= PerFileLimit(f.path)
  {
    assert forall i :: 0 <= i < |entries| ==> entries[i] in entries;
    if forall f :: f in entries ==> |f.data| <= PerFileLimit(f.path) {
      forall i | 0 <= i < |targets|
        ensures WithinLimit(targets[i])
      {
        assert entries[i] in entries;
      }
      forall i, j | 0 <= i < j < |targets|
        ensures Compatible(targets[i], targets[j])
      {
        assert entries[i] in entries && entries[j] in entries && targets[i].path != targets[j].path;
      }
    }
    if Fits(targets) {
      forall f | f in entries
        ensures |f.data| <= PerFileLimit(f.path)
      {
        var i :| 0 <= i < |entries| && entries[i] == f;
        assert WithinLimit(targets[i]);
      }
    }
  }

  /** `d` is a directory that the file needs. */
  predicate Above(d: Path, f: Found) { d != [] && d < f.path }

  lemma ExtractedDirs(targets: seq<Target>, entries: seq<Found>, d: Path)
    requires SameAsEntries(targets, entries)
    ensures IsDir(targets, d) <==> exists f :: f in entries && Above(d, f)
  {
    if IsDir(targets, d) {
      var i :| 0 <= i < |targets| && LeavesDir(targets[i], d);
      assert entries[i] in entries && Above(d, entries[i]);
    }
    if f :| f in entries && Above(d, f) {
      var i :| 0 <= i < |entries| && entries[i] == f;
      assert LeavesDir(targets[i], d);
    }
  }

  lemma ExtractedFiles(targets: seq<Target>, entries: seq<Found>, f: Found)
    requires SameAsEntries(targets, entries) && Placed(targets) && Distinct(targets)
    ensures f.path in FilesOf(targets) && FilesOf(targets)[f.path] == f.data <==> f in entries
  {
    FilesOfGives(targets, f.path);
    if f in entries {
      var i :| 0 <= i < |entries| && entries[i] == f;
      FileContents(targets, i);
    }
    if f.path in FilesOf(targets) && FilesOf(targets)[f.path] == f.data {
      var i :| 0 <= i < |targets| && !targets[i].isDir && targets[i].path == f.path;
      FileContents(targets, i);
      assert entries[i] == f;
    }
  }

  /** A reprinted manifest that can be read is the manifest that was on disk. */
  lemma ReprintedManifest(original: seq<Byte>, m: Manifest.Manifest, lib: Manifest.Library)
    requires Manifest.Faithful(lib) && Manifest.ParsePackageToml(original, lib) == Ok(m)
    requires Manifest.ParsePackageToml(Manifest.PrintedBytes(m), lib).Ok?
    ensures Manifest.ParsePackageToml(Manifest.PrintedBytes(m), lib) == Ok(m)
  {
    var input, revision := Manifest.ReadIsBuilt(original, lib);
    Manifest.RoundTrip(input, revision, lib, m);
  }

  /** Checked entries with known targets: extraction succeeds exactly when every entry is within its own limit, and then
      gives the entries back, each with its contents, and nothing else. */
  lemma TargetsRoundTrip(entries: seq<Found>, id: string, x: Exporter, archive: Archive, targets: seq<Target>)
    requires WriteAndCheck(entries, id, x) == Ok(archive) && entries != [] && entries[0].path == [MANIFEST_NAME]
    requires x.im.parse(archive.bytes).Ok? && |x.im.parse(archive.bytes).value| == |entries|
    requires SameAsEntries(targets, entries) && Placed(targets) && Distinct(targets) && BytesOf(targets) <= MAX_TOTAL_BYTES
    requires ExtractItems(archive.contents, x.im.steps) == ExtractAll(targets)
    requires forall f, g :: f in entries && g in entries ==> !(f.path < g.path)
    ensures var r := Extract(archive.bytes, archive.contents, x.im);
            && (r.Ok? <==> forall f :: f in entries ==> |f.data| <= PerFileLimit(f.path))
            && (r.Ok? ==> forall f: Found :: f.path in r.value.1.files && r.value.1.files[f.path] == f.data <==> f in entries)
            && (r.Ok? ==> forall d :: d in r.value.1.dirs <==> exists f :: f in entries && Above(d, f))
            && (r.Ok? ==> x.im.read(entries[0].data) == Ok(r.value.0))
  {
    CheckedParts(entries, id, x, archive);
    CheckedManifest(entries, id, x, archive);
    ExtractStaged(archive.bytes, archive.contents, x.im.parse(archive.bytes).value, targets, x.im);
    FitsIff(targets, entries);
    FileContents(targets, 0);
    forall f: Found
      ensures f.path in FilesOf(targets) && FilesOf(targets)[f.path] == f.data <==> f in entries
    {
      ExtractedFiles(targets, entries, f);
    }
    forall d
      ensures IsDir(targets, d) <==> exists f :: f in entries && Above(d, f)
    {
      ExtractedDirs(targets, entries, d);
    }
  }

  lemma SmallArchiveFits(l: ZipDirectory.Layout, before: seq<Byte>, items: seq<ZipDirectory.Item>)
    requires |items| <= ZipDirectory.MAX_ENTRIES && AllFieldsFit(items)
    requires |ZipDirectory.WithDirectory(l, before, items)| <= MAX_ARCHIVE_BYTES
    ensures ZipDirectory.SizesFit(l, |before|, items)
  {}

  lemma WrittenEntries(entries: seq<Found>, l: ZipDirectory.Layout, before: seq<Byte>, alnum: char -> bool)
    returns (es: seq<ZipDirectory.Entry>)
    requires ZipDirectory.WritesHeaders(l) && ZipDirectory.SizesFit(l, |before|, ToItems(entries))
    requires ZipDirectory.ParseDirectory(ZipDirectory.WithDirectory(l, before, ToItems(entries)), ZipDirectory.PackageRules(alnum)).Ok?
    ensures ZipDirectory.ParseDirectory(ZipDirectory.WithDirectory(l, before, ToItems(entries)), ZipDirectory.PackageRules(alnum)) == Ok(es)
    ensures Reads(Contents(entries), es) && forall i :: 0 <= i < |es| ==> es[i].size == |entries[i].data|
  {
    ZipDirectory.WrittenAcceptedIff(l, before, ToItems(entries), ZipDirectory.PackageRules(alnum));
    WrittenReads(entries, l, |before|, alnum);
    es := ZipDirectory.Expected(l, ToItems(entries), 0, |before|, ZipDirectory.PackageRules(alnum));
  }

  /** The targets of an archive that was accepted with all its entries. */
  lemma WrittenTargets(entries: seq<Found>, l: ZipDirectory.Layout, before: seq<Byte>, alnum: char -> bool)
    returns (es: seq<ZipDirectory.Entry>, targets: seq<Target>)
    requires ZipDirectory.WritesHeaders(l) && ZipDirectory.SizesFit(l, |before|, ToItems(entries))
    requires ZipDirectory.ParseDirectory(ZipDirectory.WithDirectory(l, before, ToItems(entries)), ZipDirectory.PackageRules(alnum)).Ok?
    requires forall f :: f in entries ==> WellNamed(f)
    ensures ZipDirectory.ParseDirectory(ZipDirectory.WithDirectory(l, before, ToItems(entries)), ZipDirectory.PackageRules(alnum)) == Ok(es)
    ensures |es| == |entries| && SameAsEntries(targets, entries) && Placed(targets) && Distinct(targets)
    ensures BytesOf(targets) == DeclaredTotal(es)
    ensures ExtractItems(Contents(entries), PackageSteps(alnum)) == ExtractAll(targets)
  {
    var contents := Contents(entries);
    var bytes := ZipDirectory.WithDirectory(l, before, ToItems(entries));
    es := WrittenEntries(entries, l, before, alnum);
    AcceptedTargets(bytes, contents, es, alnum);
    targets := TargetsOf(contents, PackageSteps(alnum));
    TargetsDistinct(bytes, contents, es, alnum);
    TargetsAreEntries(entries, es, alnum);
    ExtractItemsIff(contents, PackageSteps(alnum));
  }

  lemma EntriesRoundTrip(entries: seq<Found>, id: string, alnum: char -> bool, lib: Manifest.Library,
                         zip: ZipLibrary, archive: Archive)
    requires WriteAndCheck(entries, id, PackageExporter(alnum, lib, zip)) == Ok(archive) && ZipDirectory.WritesHeaders(zip.layout)
    requires 0 < |entries| <= ZipDirectory.MAX_ENTRIES && entries[0].path == [MANIFEST_NAME]
    requires forall f :: f in entries ==> WellNamed(f)
    requires forall f, g :: f in entries && g in entries ==> !(f.path < g.path)
    ensures var r := Extract(archive.bytes, archive.contents, PackageImporter(alnum, lib));
            && (r.Ok? <==> forall f :: f in entries ==> |f.data| <= PerFileLimit(f.path))
            && (r.Ok? ==> forall f: Found :: f.path in r.value.1.files && r.value.1.files[f.path] == f.data <==> f in entries)
            && (r.Ok? ==> forall d :: d in r.value.1.dirs <==> exists f :: f in entries && Above(d, f))
            && (r.Ok? ==> PackageImporter(alnum, lib).read(entries[0].data) == Ok(r.value.0))
  {
    var x := PackageExporter(alnum, lib, zip);
    var items := ToItems(entries);
    CheckedParts(entries, id, x, archive);
    SmallArchiveFits(zip.layout, zip.before(items), items);
    var es, targets := WrittenTargets(entries, zip.layout, zip.before(items), alnum);
    TargetsRoundTrip(entries, id, x, archive, targets);
  }

  lemma ExportedEntries(files: seq<Found>, id: string, manifest: seq<Byte>, index: seq<Byte>, media: seq<Media>, x: Exporter, archive: Archive)
    requires ExportFiles(files, id, manifest, index, media, x) == Ok(archive)
    ensures var entries := Entries(files, manifest, Extras(index, media));
            && WriteAndCheck(entries, id, x) == Ok(archive)
            && 0 < |entries| <= ZipDirectory.MAX_ENTRIES && entries[0] == Found([MANIFEST_NAME], manifest)
  {
    var extras := Extras(index, media);
    SortKeeps(files + extras, NameKey());
    assert |Entries(files, manifest, extras)| == |files| + |extras| + 1;
    assert ExportFiles(files, id, manifest, index, media, x) == ExportWith(files, manifest, extras, Writer(id, x));
    assert ExportWith(files, manifest, extras, Writer(id, x)) == Writer(id, x)(Entries(files, manifest, extras));
  }

  /** Of the entries of an archive that was exported, only the package's own files and the media index can be too large
      for the import: the manifest and the media files have been checked against smaller or equal limits. */
  lemma OnlyFilesCanBeTooLarge(root: FileTree.Node, manifest: seq<Byte>, index: seq<Byte>, media: seq<Media>)
    requires |manifest| <= MAX_MANIFEST_BYTES && forall i :: 0 <= i < |media| ==> |media[i].data| <= MAX_MEDIA_FILE_BYTES
    ensures (forall f :: Belongs(root, manifest, index, media, f) ==> |f.data| <= PerFileLimit(f.path)) <==>
              && |index| <= MAX_MEDIA_FILE_BYTES
              && forall f :: IsListed(root, f) ==> |f.data| <= MAX_FILE_BYTES
  {
    assert MANIFEST_NAME != "media" by { ManifestCharacters(); assert |"media"| == 5; }
    assert Belongs(root, manifest, index, media, Found(IndexPath(), index));
    assert forall f :: IsListed(root, f) ==> Belongs(root, manifest, index, media, f) && PerFileLimit(f.path) == MAX_FILE_BYTES;
  }

  lemma BelongingRoundTrip(root: FileTree.Node, files: seq<Found>, id: string, manifest: seq<Byte>, index: seq<Byte>, media: seq<Media>,
                           alnum: char -> bool, lib: Manifest.Library, zip: ZipLibrary, archive: Archive)
    requires Named(root) && Collected(root, files) && MediaNamed(media) && ZipDirectory.WritesHeaders(zip.layout)
    requires var entries := Entries(files, manifest, Extras(index, media));
             |entries| <= ZipDirectory.MAX_ENTRIES && WriteAndCheck(entries, id, PackageExporter(alnum, lib, zip)) == Ok(archive)
    ensures var r := Extract(archive.bytes, archive.contents, PackageImporter(alnum, lib));
            && (r.Ok? <==> forall f :: Belongs(root, manifest, index, media, f) ==> |f.data| <= PerFileLimit(f.path))
            && (r.Ok? ==> forall f: Found ::
                  f.path in r.value.1.files && r.value.1.files[f.path] == f.data <==> Belongs(root, manifest, index, media, f))
            && (r.Ok? ==> forall d :: d in r.value.1.dirs <==> exists f :: Belongs(root, manifest, index, media, f) && Above(d, f))
            && (r.Ok? ==> PackageImporter(alnum, lib).read(manifest) == Ok(r.value.0))
  {
    var entries := Entries(files, manifest, Extras(index, media));
    forall f
      ensures f in entries <==> Belongs(root, manifest, index, media, f)
    {
      EntriesHold(root, files, manifest, index, media, f);
    }
    forall f | f in entries
      ensures WellNamed(f)
    {
      EntryNamed(root, files, manifest, index, media, f);
    }
    forall f, g | f in entries && g in entries
      ensures !(f.path < g.path)
    {
      NotInTheWay(root, files, manifest, index, media, f, g);
    }
    EntriesRoundTrip(entries, id, alnum, lib, zip, archive);
  }

  /** Export, then import: extraction of an exported archive succeeds exactly when every visible file of the package is
      within the 10 MiB limit, which the export itself does not check, and the index within 90 MiB. It then gives the
      manifest that was read from the package, exactly its visible files, the reprinted manifest, the media index and the
      media files, and of directories only those such a file lies in. */
  lemma ExportThenExtract(root: FileTree.Node, files: seq<Found>, id: string, original: seq<Byte>, m: Manifest.Manifest,
                          index: seq<Byte>, media: seq<Media>, alnum: char -> bool, lib: Manifest.Library,
                          zip: ZipLibrary, archive: Archive)
    requires Manifest.Faithful(lib) && Manifest.ParsePackageToml(original, lib) == Ok(m)
    requires Named(root) && Collected(root, files) && MediaNamed(media) && ZipDirectory.WritesHeaders(zip.layout)
    requires ExportFiles(files, id, Manifest.PrintedBytes(m), index, media, PackageExporter(alnum, lib, zip)) == Ok(archive)
    ensures var r := Extract(archive.bytes, archive.contents, PackageImporter(alnum, lib));
            && (r.Ok? <==> |index| <= MAX_MEDIA_FILE_BYTES && forall f :: IsListed(root, f) ==> |f.data| <= MAX_FILE_BYTES)
            && (r.Ok? ==> r.value.0 == m)
            && (r.Ok? ==> forall f: Found ::
                  f.path in r.value.1.files && r.value.1.files[f.path] == f.data <==> Belongs(root, Manifest.PrintedBytes(m), index, media, f))
            && (r.Ok? ==> forall d ::
                  d in r.value.1.dirs <==> exists f :: Belongs(root, Manifest.PrintedBytes(m), index, media, f) && Above(d, f))
  {
    var manifest := Manifest.PrintedBytes(m);
    var x := PackageExporter(alnum, lib, zip);
    ExportedEntries(files, id, manifest, index, media, x, archive);
    CheckedManifest(Entries(files, manifest, Extras(index, media)), id, x, archive);
    OnlyFilesCanBeTooLarge(root, manifest, index, media);
    BelongingRoundTrip(root, files, id, manifest, index, media, alnum, lib, zip, archive);
    if Extract(archive.bytes, archive.contents, PackageImporter(alnum, lib)).Ok? {
      ReprintedManifest(original, m, lib);
    }
  }
}
