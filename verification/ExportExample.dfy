/** A family of small packages: each can be exported, and the archive of one with a file over 10 MiB cannot be imported. */
module ExportExample {
  import opened Bytes
  import opened ArchivePath
  import opened Collecting
  import opened Extraction
  import opened Export
  import opened ExportImport
  import opened ExportSuccess
  import opened FileTree
  import opened Sorting
  import M = Manifest
  import Toml
  import Utf8
  import ZipDirectory

  // ---- The manifest ----

  function SampleManifest(): M.Manifest { M.Manifest("p", None, "0.1.0", None, ["*"], [], [], 1) }

  function NoUrls(): M.Library { M.StandardLibrary((u: string) => None) }

  lemma SampleIsBuilt()
    ensures M.IntoManifest(M.PackageInput("p", None, None, None, ["*"], [], []), 1, NoUrls()) == Ok(SampleManifest())
  {
    var lib := NoUrls();
    M.ShortTexts();
    M.TrimmedStays("*");
    M.DefaultVersionTrimmed();
    M.TrimmedStays("0.1.0");
    assert M.CleanAll(["*"][1..], raw => M.CleanTarget(raw, lib), ["*"]) == Ok(["*"]);
    assert [] + ["*"] == ["*"];
  }

  lemma NoUrlsIsFaithful()
    ensures M.Faithful(NoUrls())
  {
    M.StandardLibraryIsFaithful((u: string) => None);
  }

  lemma SampleIsReadable()
    ensures M.ParsePackageToml(M.PrintedBytes(SampleManifest()), NoUrls()) == Ok(SampleManifest())
  {
    NoUrlsIsFaithful();
    SampleIsBuilt();
    M.RoundTrip(M.PackageInput("p", None, None, None, ["*"], [], []), 1, NoUrls(), SampleManifest());
  }

  lemma {:induction false} PrintBound(g: Toml.Grammar, doc: seq<Toml.Statement>, k: nat)
    requires forall i :: 0 <= i < |doc| ==> |g.print1(doc[i])| <= k
    ensures |Toml.Print(g, doc)| <= |doc| * k
  {
    if doc != [] {
      PrintBound(g, doc[1..], k);
      assert |doc| * k == k + (|doc| - 1) * k;
    }
  }

  lemma {:induction false} EscapeBound(s: string)
    ensures |Toml.Escape(s)| <= 2 * |s|
  {
    if s != "" {
      EscapeBound(s[1..]);
    }
  }

  lemma SampleStatements()
    ensures M.Statements(SampleManifest()) ==
              [Toml.Pair(Toml.Id, Toml.Str("p")), Toml.Pair(Toml.Version, Toml.Str("0.1.0")), Toml.Pair(Toml.Revision, Toml.Int(1)),
               Toml.Header(Toml.Android), Toml.Pair(Toml.Packages, Toml.Array(["*"]))]
  {}

  lemma SampleStatementBound(i: nat)
    requires i < 5
    ensures |Toml.PrintStatement(M.Statements(SampleManifest())[i])| <= 100
  {
    SampleStatements();
    EscapeBound("p");
    EscapeBound("0.1.0");
    EscapeBound("*");
    assert |Toml.PrintNat(1)| == 1;
    assert Toml.PrintRest([]) == "";
  }

  lemma SampleIsSmall()
    ensures |M.PrintedBytes(SampleManifest())| <= 2000
  {
    SampleStatements();
    forall i | 0 <= i < 5
      ensures |Toml.ManifestGrammar().print1(M.Statements(SampleManifest())[i])| <= 100
    {
      SampleStatementBound(i);
    }
    PrintBound(Toml.ManifestGrammar(), M.Statements(SampleManifest()), 100);
    M.LengthBound(M.Serialize(SampleManifest()));
  }

  // ---- The package ----

  function SamplePath(): Path { ["plugins", "k", "b"] }

  function PluginFolder(data: seq<Byte>): Node { Dir(map["k" := Dir(map["b" := File(data)])]) }

  /** A package with one file of a plugin. */
  function Sample(data: seq<Byte>): Node {
    Dir(map["plugins" := PluginFolder(data)][MANIFEST_NAME := File(M.PrintedBytes(SampleManifest()))])
  }

  lemma SampleNames()
    ensures "plugins" != MANIFEST_NAME && "plugins" != "media" && MANIFEST_NAME != "media"
    ensures !Hidden("plugins") && !Hidden("k") && !Hidden("b")
    ensures '/' !in "plugins" && '/' !in "k" && '/' !in "b" && '/' !in MANIFEST_NAME
  {
    assert |"plugins"| == 7 && |"media"| == 5;
    ManifestCharacters();
  }

  lemma InFolder(data: seq<Byte>, rest: Path)
    ensures var n := Lookup(Dir(map["b" := File(data)]), rest);
            && (rest == ["b"] ==> n == Some(File(data)))
            && (n.Some? ==> rest == [] || rest == ["b"])
            && (n.Some? && n.value.File? ==> rest == ["b"])
  {
    if rest != [] {
      assert rest == [rest[0]] + rest[1..];
      if rest[0] == "b" && rest[1..] != [] {
        assert Lookup(File(data), rest[1..]) == None;
      }
    }
  }

  lemma InPlugins(data: seq<Byte>, rest: Path)
    ensures var n := Lookup(PluginFolder(data), rest);
            && (rest == ["k", "b"] ==> n == Some(File(data)))
            && (n.Some? ==> rest == [] || rest == ["k"] || rest == ["k", "b"])
            && (n.Some? && n.value.File? ==> rest == ["k", "b"])
  {
    if rest != [] {
      assert rest == [rest[0]] + rest[1..];
      InFolder(data, rest[1..]);
    }
  }

  lemma SampleHolds(data: seq<Byte>)
    ensures Sample(data).entries.Keys == {"plugins", MANIFEST_NAME}
    ensures Sample(data).entries["plugins"] == PluginFolder(data) && Sample(data).entries[MANIFEST_NAME].File?
  {
    SampleNames();
  }

  /** Looking up a path in a directory of the plugin folder and one other file. */
  lemma TwoEntries(root: Node, data: seq<Byte>, name: string, q: Path)
    requires root.Dir? && root.entries.Keys == {"plugins", name} && name != "plugins"
    requires root.entries["plugins"] == PluginFolder(data) && root.entries[name].File?
    ensures var n := Lookup(root, q);
            && (q == SamplePath() ==> n == Some(File(data)))
            && (n.Some? ==> q == [] || q == ["plugins"] || q == ["plugins", "k"] || q == SamplePath() || q == [name])
            && (n.Some? && n.value.File? ==> q == SamplePath() || q == [name])
  {
    if q != [] {
      var rest := q[1..];
      assert q == [q[0]] + rest;
      InPlugins(data, rest);
      if q[0] == name && rest != [] {
        assert Lookup(root.entries[name], rest) == None;
      }
    }
  }

  lemma SampleLookup(data: seq<Byte>, q: Path)
    ensures var n := Lookup(Sample(data), q);
            && (q == SamplePath() ==> n == Some(File(data)))
            && (n.Some? ==> q == [] || q == ["plugins"] || q == ["plugins", "k"] || q == SamplePath() || q == [MANIFEST_NAME])
            && (n.Some? && n.value.File? ==> q == SamplePath() || q == [MANIFEST_NAME])
  {
    SampleNames();
    SampleHolds(data);
    TwoEntries(Sample(data), data, MANIFEST_NAME, q);
  }

  lemma SampleIsNamed(data: seq<Byte>)
    ensures Named(Sample(data))
  {
    SampleNames();
    forall q | Lookup(Sample(data), q).Some?
      ensures forall i :: 0 <= i < |q| ==> q[i] != "" && '/' !in q[i]
    {
      SampleLookup(data, q);
    }
  }

  lemma SampleIsCollected(data: seq<Byte>)
    ensures Collected(Sample(data), [Found(SamplePath(), data)])
  {
    SampleNames();
    forall f
      ensures f in [Found(SamplePath(), data)] <==> IsListed(Sample(data), f)
    {
      SampleLookup(data, f.path);
      SampleLookup(data, SamplePath());
    }
  }

  // ---- Its archive ----

  function Letters(): char -> bool { (c: char) => 'a' <= c <= 'z' }

  lemma SegmentLetter(s: string)
    requires |s| == 1 && 'a' <= s[0] <= 'z'
    ensures ValidSegment(s, Letters()) && '\\' !in s && ValidScopeId(s)
  {
    assert BeforeDot(s) == s;
    assert |UpperAscii(s)| == 1;
    assert forall name :: name in RESERVED_NAMES ==> |name| >= 3;
  }

  lemma SegmentIndex()
    ensures ValidSegment("index.json", Letters()) && '\\' !in "index.json"
  {
    var s := "index.json";
    assert BeforeDot(s)[0] == 'i';
    assert UpperAscii(BeforeDot(s))[0] == 'I';
    assert forall i :: 0 <= i < |s| ==> 'a' <= s[i] <= 'z' || s[i] == '.';
  }

  lemma LegalManifest()
    ensures !ZipDirectory.HasIllegalParts(MANIFEST_NAME)
  {
    var m := MANIFEST_NAME;
    assert forall i :: 0 <= i < |m| && m[i] == '.' ==> i == 7;
  }

  lemma LegalSample()
    ensures !ZipDirectory.HasIllegalParts("plugins/k/b")
  {
    var s := "plugins/k/b";
    assert forall i :: 0 <= i < |s| ==> s[i] != '.';
  }

  lemma LegalIndex()
    ensures !ZipDirectory.HasIllegalParts("media/index.json")
  {
    var t := "media/index.json";
    assert forall i :: 0 <= i < |t| && t[i] == '.' ==> i == 11;
  }

  lemma ImportableInPackage(f: Found, alnum: char -> bool)
    requires WellNamed(f) && !ZipDirectory.HasIllegalParts(Name(f)) && InPackage(f.path, alnum)
    ensures Importable(f, alnum)
  {
    RelativePathIff(Name(f), false, Name(f), alnum);
  }

  lemma TwoPartName(f: Found, top: string, seg: string)
    requires f.path == [top, seg]
    ensures Name(f) == top + "/" + seg
  {
    assert f.path[1..] == [seg];
    assert Join([seg]) == seg;
  }

  lemma SampleName(f: Found)
    requires f.path == SamplePath()
    ensures Name(f) == "plugins/k/b"
  {
    assert f.path[1..] == ["k", "b"] && f.path[1..][1..] == ["b"];
    assert Join(["b"]) == "b" && "k" + "/" + "b" == "k/b";
    assert Join(["k", "b"]) == "k/b" && "plugins" + "/" + "k/b" == "plugins/k/b";
  }

  lemma SampleInPackage()
    ensures InPackage(SamplePath(), Letters())
  {
    SegmentLetter("k");
    SegmentLetter("b");
    var rest := SamplePath()[1..];
    assert rest == ["k", "b"];
    assert GoodSegment(rest[0], Letters()) && GoodSegment(rest[1], Letters());
    assert GoodSegments(rest, Letters());
  }

  lemma SampleFile(data: seq<Byte>)
    ensures var f := Found(SamplePath(), data); WellNamed(f) && |Name(f)| <= 20 && Importable(f, Letters())
  {
    var f := Found(SamplePath(), data);
    assert forall i :: 0 <= i < |f.path| ==> f.path[i] != "" && '/' !in f.path[i] by {
      SampleNames();
    }
    NameGivesPath(f);
    assert !ZipDirectory.HasIllegalParts(Name(f)) && |Name(f)| <= 20 by {
      SampleName(f);
      LegalSample();
    }
    SampleInPackage();
    ImportableInPackage(f, Letters());
  }

  lemma IndexName(f: Found)
    requires f.path == ["media", "index.json"]
    ensures Name(f) == "media/index.json"
  {
    TwoPartName(f, "media", "index.json");
    assert "media" + "/" == "media/";
    assert "media/" + "index.json" == "media/index.json";
  }

  lemma SampleIndex()
    ensures var f := Found(IndexPath(), []); WellNamed(f) && |Name(f)| <= 20 && Importable(f, Letters())
  {
    var f := Found(IndexPath(), []);
    MediaPathNamed(f, "0");
    assert !ZipDirectory.HasIllegalParts(Name(f)) && |Name(f)| <= 20 by {
      IndexName(f);
      LegalIndex();
    }
    SegmentIndex();
    ImportableInPackage(f, Letters());
  }

  lemma SampleManifestEntry(manifest: seq<Byte>)
    ensures var f := Found([MANIFEST_NAME], manifest); |Name(f)| <= 20 && Importable(f, Letters())
  {
    ManifestCharacters();
    LegalManifest();
  }

  /** An entry of the sample's archive has a short, importable name. */
  lemma SampleEntry(data: seq<Byte>, manifest: seq<Byte>, f: Found)
    requires Belongs(Sample(data), manifest, [], [], f)
    ensures |Name(f)| <= 20 && Importable(f, Letters()) && (f.data == data || f.data == manifest || f.data == [])
  {
    SampleIsCollected(data);
    SampleFile(data);
    SampleIndex();
    SampleManifestEntry(manifest);
    assert IsListed(Sample(data), f) ==> f in [Found(SamplePath(), data)];
  }

  function SampleFiles(data: seq<Byte>): seq<Found> { [Found(SamplePath(), data)] }

  function SampleEntries(data: seq<Byte>): seq<Found> {
    Entries(SampleFiles(data), M.PrintedBytes(SampleManifest()), Extras([], []))
  }

  lemma SampleTotal(data: seq<Byte>, manifest: seq<Byte>)
    ensures var entries := Entries(SampleFiles(data), manifest, Extras([], []));
            |entries| == 3 && TotalBytes(entries) == |manifest| + |data| && entries[0] == Found([MANIFEST_NAME], manifest)
    ensures TotalBytes(SampleFiles(data)) + TotalBytes(Extras([], [])) == |data|
  {
    var files, extras := SampleFiles(data), Extras([], []);
    var all := files + extras;
    var rest := SortBy(all, NameKey());
    SortKeeps(all, NameKey());
    TotalSorted(all, NameKey());
    assert all[1..] == extras && files[1..] == [] && extras[1..] == [];
    assert ([Found([MANIFEST_NAME], manifest)] + rest)[1..] == rest;
  }

  /** What an exporter needs for three entries with short, importable names. */
  lemma ShortIsExportable(entries: seq<Found>, m: M.Manifest, x: Exporter)
    requires |entries| == 3 && forall f :: f in entries ==> |Name(f)| <= 20 && |f.data| < U32_LIMIT && Importable(f, Letters())
    requires |x.write(ToItems(entries))| <= MAX_ARCHIVE_BYTES && TotalBytes(entries) <= MAX_TOTAL_BYTES
    requires |entries[0].data| <= MAX_MANIFEST_BYTES && x.im.read(entries[0].data) == Ok(m) && m.id == "p"
    ensures Exportable(entries, "p", x, Letters())
  {
    var items := ToItems(entries);
    forall i | 0 <= i < 3
      ensures ZipDirectory.FieldsFit(items[i]) && Importable(entries[i], Letters())
    {
      assert items[i] == ToItem(entries[i]) && entries[i] in entries;
      M.LengthBound(Name(entries[i]));
    }
  }

  lemma SampleBelongs(data: seq<Byte>, manifest: seq<Byte>, f: Found)
    requires |data| <= 50 * 1024 * 1024 && |manifest| <= 2000
    requires f in Entries(SampleFiles(data), manifest, Extras([], []))
    ensures |Name(f)| <= 20 && |f.data| < U32_LIMIT && Importable(f, Letters())
  {
    SampleIsCollected(data);
    EntriesHold(Sample(data), SampleFiles(data), manifest, [], [], f);
    SampleEntry(data, manifest, f);
  }

  lemma SampleIsExportable(data: seq<Byte>, manifest: seq<Byte>, m: M.Manifest, x: Exporter)
    requires |data| <= 50 * 1024 * 1024 && |manifest| <= 2000
    requires x.im.read(manifest) == Ok(m) && m.id == "p"
    requires |x.write(ToItems(Entries(SampleFiles(data), manifest, Extras([], []))))| <= MAX_ARCHIVE_BYTES
    ensures Exportable(Entries(SampleFiles(data), manifest, Extras([], [])), "p", x, Letters())
  {
    var entries := Entries(SampleFiles(data), manifest, Extras([], []));
    SampleTotal(data, manifest);
    forall f | f in entries
      ensures |Name(f)| <= 20 && |f.data| < U32_LIMIT && Importable(f, Letters())
    {
      SampleBelongs(data, manifest, f);
    }
    ShortIsExportable(entries, m, x);
  }

  lemma SampleCanBeExported(data: seq<Byte>, manifest: seq<Byte>, m: M.Manifest, x: Exporter, zip: ZipLibrary)
    requires |data| <= 50 * 1024 * 1024 && |manifest| <= 2000
    requires x.im.read(manifest) == Ok(m) && m.id == "p" && WritesPackages(x, Letters(), zip)
    requires |x.write(ToItems(Entries(SampleFiles(data), manifest, Extras([], []))))| <= MAX_ARCHIVE_BYTES
    ensures ExportFiles(SampleFiles(data), "p", manifest, [], [], x).Ok?
  {
    SampleTotal(data, manifest);
    SampleIsNamed(data);
    SampleIsCollected(data);
    SampleIsExportable(data, manifest, m, x);
    ExportSucceedsIff(Sample(data), SampleFiles(data), "p", manifest, [], [], x, Letters(), zip);
  }

  function SampleExporter(zip: ZipLibrary): Exporter { PackageExporter(Letters(), NoUrls(), zip) }

  lemma SampleIsExported(data: seq<Byte>, zip: ZipLibrary)
    requires |data| <= 50 * 1024 * 1024 && ZipDirectory.WritesHeaders(zip.layout)
    requires |SampleExporter(zip).write(ToItems(SampleEntries(data)))| <= MAX_ARCHIVE_BYTES
    ensures ExportFiles(SampleFiles(data), "p", M.PrintedBytes(SampleManifest()), [], [], SampleExporter(zip)).Ok?
  {
    SampleIsSmall();
    SampleIsReadable();
    PackageExporterWrites(Letters(), NoUrls(), zip);
    SampleCanBeExported(data, M.PrintedBytes(SampleManifest()), SampleManifest(), SampleExporter(zip), zip);
  }

  lemma SampleIsWithinLimitsIff(data: seq<Byte>)
    ensures (forall f :: IsListed(Sample(data), f) ==> |f.data| <= MAX_FILE_BYTES) <==> |data| <= MAX_FILE_BYTES
  {
    SampleIsCollected(data);
    var one := Found(SamplePath(), data);
    assert one in SampleFiles(data) && IsListed(Sample(data), one);
    forall f | IsListed(Sample(data), f)
      ensures f == one
    {
      assert f in SampleFiles(data);
    }
  }

  /** A sample package with a file of up to 50 MiB is exported whenever the library packs it into 20 MiB, and its archive
      can be imported exactly if that file is within 10 MiB. */
  lemma SampleRoundTrip(data: seq<Byte>, zip: ZipLibrary)
    requires |data| <= 50 * 1024 * 1024 && ZipDirectory.WritesHeaders(zip.layout)
    requires |SampleExporter(zip).write(ToItems(SampleEntries(data)))| <= MAX_ARCHIVE_BYTES
    ensures var r := ExportFiles(SampleFiles(data), "p", M.PrintedBytes(SampleManifest()), [], [], SampleExporter(zip));
            r.Ok? && (Extract(r.value.bytes, r.value.contents, PackageImporter(Letters(), NoUrls())).Ok? <==> |data| <= MAX_FILE_BYTES)
  {
    var manifest := M.PrintedBytes(SampleManifest());
    SampleIsExported(data, zip);
    var archive := ExportFiles(SampleFiles(data), "p", manifest, [], [], SampleExporter(zip)).value;
    SampleIsNamed(data);
    SampleIsCollected(data);
    SampleIsReadable();
    NoUrlsIsFaithful();
    SampleIsWithinLimitsIff(data);
    ExportThenExtract(Sample(data), SampleFiles(data), "p", manifest, SampleManifest(), [], [], Letters(), NoUrls(), zip, archive);
  }

  // ---- A file over 10 MiB ----

  /** A library that stores every file uncompressed. */
  function StoredZip(): ZipLibrary {
    ZipLibrary((items: seq<ZipDirectory.Item>) => ZipDirectory.Locals(ZipDirectory.RawLayout(), items), ZipDirectory.RawLayout())
  }

  /** The raw writer spends at most 110 bytes and the data before the directory, and 126 bytes in it, on a short name. */
  lemma ShortEntry(f: Found, offset: nat)
    requires |Name(f)| <= 20
    ensures |ZipDirectory.LocalHeader(ToItem(f))| <= 110 + |f.data| && |ZipDirectory.CentralHeader(ToItem(f), offset)| <= 126
  {
    M.LengthBound(Name(f));
    ZipDirectory.LocalLength(ToItem(f));
    ZipDirectory.CentralOffsets(ToItem(f), offset);
  }

  lemma {:induction false} LocalsBound(entries: seq<Found>)
    requires forall f :: f in entries ==> |Name(f)| <= 20
    ensures |ZipDirectory.Locals(ZipDirectory.RawLayout(), ToItems(entries))| <= |entries| * 110 + TotalBytes(entries)
  {
    if entries != [] {
      assert ToItems(entries)[1..] == ToItems(entries[1..]);
      ShortEntry(entries[0], 0);
      LocalsBound(entries[1..]);
    }
  }

  lemma {:induction false} CentralsBound(l: ZipDirectory.Layout, items: seq<ZipDirectory.Item>, offset: nat)
    requires forall item, o :: item in items ==> |l.central(item, o)| <= 126
    ensures |ZipDirectory.Centrals(l, items, offset)| <= |items| * 126
  {
    if items != [] {
      var next := offset + |l.local(items[0])|;
      CentralsBound(l, items[1..], next);
      assert ZipDirectory.Centrals(l, items, offset) == l.central(items[0], offset) + ZipDirectory.Centrals(l, items[1..], next);
    }
  }

  lemma ShortCentrals(entries: seq<Found>)
    requires forall f :: f in entries ==> |Name(f)| <= 20
    ensures |ZipDirectory.Centrals(ZipDirectory.RawLayout(), ToItems(entries), 0)| <= |entries| * 126
  {
    var l, items := ZipDirectory.RawLayout(), ToItems(entries);
    forall item, o | item in items
      ensures |l.central(item, o)| <= 126
    {
      var i :| 0 <= i < |items| && items[i] == item;
      ShortEntry(entries[i], o);
    }
    CentralsBound(l, items, 0);
  }

  lemma StoredBound(entries: seq<Found>)
    requires forall f :: f in entries ==> |Name(f)| <= 20
    ensures |SampleExporter(StoredZip()).write(ToItems(entries))| <= |entries| * 236 + TotalBytes(entries) + 22
  {
    var l, items := ZipDirectory.RawLayout(), ToItems(entries);
    LocalsBound(entries);
    ShortCentrals(entries);
    ZipDirectory.DirectoryLength(l, ZipDirectory.Locals(l, items), items);
    assert SampleExporter(StoredZip()).write(items) == ZipDirectory.WithDirectory(l, ZipDirectory.Locals(l, items), items);
  }

  lemma SampleIsStored(data: seq<Byte>, manifest: seq<Byte>)
    requires |data| <= 15 * 1024 * 1024 && |manifest| <= 2000
    ensures |SampleExporter(StoredZip()).write(ToItems(Entries(SampleFiles(data), manifest, Extras([], []))))| <= MAX_ARCHIVE_BYTES
  {
    var entries := Entries(SampleFiles(data), manifest, Extras([], []));
    forall f | f in entries
      ensures |Name(f)| <= 20
    {
      SampleBelongs(data, manifest, f);
    }
    SampleTotal(data, manifest);
    StoredBound(entries);
  }

  /** A package with a visible file of 10 MiB and one byte is exported, and its archive is refused. */
  lemma LargeFileIsRefused()
    ensures var data := seq(MAX_FILE_BYTES + 1, _ => 0);
            var r := ExportFiles(SampleFiles(data), "p", M.PrintedBytes(SampleManifest()), [], [], SampleExporter(StoredZip()));
            r.Ok? && Extract(r.value.bytes, r.value.contents, PackageImporter(Letters(), NoUrls())).Err?
  {
    var data := seq(MAX_FILE_BYTES + 1, _ => 0);
    SampleIsSmall();
    SampleIsStored(data, M.PrintedBytes(SampleManifest()));
    ZipDirectory.RawWritesHeaders();
    SampleRoundTrip(data, StoredZip());
  }
}
