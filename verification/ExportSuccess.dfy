/** When an export succeeds. */
module ExportSuccess {
  import opened Bytes
  import opened Sorting
  import opened ArchivePath
  import opened Collecting
  import opened Extraction
  import opened Export
  import opened ExportImport
  import FileTree
  import Manifest
  import Utf8
  import ZipDirectory

  /** A name the import accepts for a file. */
  predicate Importable(f: Found, alnum: char -> bool) {
    !ZipDirectory.HasIllegalParts(Name(f)) && RelativePath(Name(f), false, alnum).Ok?
  }

  lemma GoodNameIff(f: Found, alnum: char -> bool)
    requires WellNamed(f) && |Utf8.Encode(Name(f))| < U16_LIMIT
    ensures ZipDirectory.GoodName(ToItem(f).name, ZipDirectory.PackageRules(alnum)) <==> Importable(f, alnum)
    ensures ZipDirectory.NameOf(ToItem(f), ZipDirectory.PackageRules(alnum)) == Name(f)
  {
    Utf8.DecodeEncode(Name(f));
  }

  lemma WellWrittenGiven(l: ZipDirectory.Layout, start: nat, items: seq<ZipDirectory.Item>, rules: ZipDirectory.Rules,
                         names: seq<string>, fine: nat -> bool)
    requires ZipDirectory.SizesFit(l, start, items) && |names| == |items|
    requires forall i :: 0 <= i < |items| ==> ZipDirectory.NameOf(items[i], rules) == names[i]
    requires forall i :: 0 <= i < |items| ==> (ZipDirectory.GoodName(items[i].name, rules) <==> fine(i))
    requires forall i, j :: 0 <= i < j < |names| ==> names[i] != names[j]
    ensures ZipDirectory.WellWritten(l, start, items, rules) <==> forall i :: 0 <= i < |items| ==> fine(i)
  {}

  function Names(entries: seq<Found>): seq<string> { seq(|entries|, i requires 0 <= i < |entries| => Name(entries[i])) }

  lemma ItemNames(entries: seq<Found>, alnum: char -> bool, i: nat)
    requires i < |entries| && WellNamed(entries[i]) && ZipDirectory.FieldsFit(ToItems(entries)[i])
    ensures var item, rules := ToItems(entries)[i], ZipDirectory.PackageRules(alnum);
            && (ZipDirectory.GoodName(item.name, rules) <==> Importable(entries[i], alnum))
            && ZipDirectory.NameOf(item, rules) == Names(entries)[i]
  {
    assert ToItems(entries)[i] == ToItem(entries[i]);
    GoodNameIff(entries[i], alnum);
  }

  lemma NamesDiffer(entries: seq<Found>)
    requires DistinctKeys(entries, NameKey())
    ensures forall i, j :: 0 <= i < j < |entries| ==> Names(entries)[i] != Names(entries)[j]
  {
    forall i, j | 0 <= i < j < |entries|
      ensures Names(entries)[i] != Names(entries)[j]
    {
      assert NameKey()(entries[i]) != NameKey()(entries[j]);
    }
  }

  lemma WellWrittenIff(entries: seq<Found>, l: ZipDirectory.Layout, start: nat, alnum: char -> bool)
    requires AllWellNamed(entries) && DistinctKeys(entries, NameKey()) && ZipDirectory.SizesFit(l, start, ToItems(entries))
    ensures ZipDirectory.WellWritten(l, start, ToItems(entries), ZipDirectory.PackageRules(alnum)) <==>
              forall i :: 0 <= i < |entries| ==> Importable(entries[i], alnum)
  {
    var items, rules := ToItems(entries), ZipDirectory.PackageRules(alnum);
    var fine := (i: nat) => i < |entries| && Importable(entries[i], alnum);
    forall i | 0 <= i < |entries|
      ensures ZipDirectory.GoodName(items[i].name, rules) <==> fine(i)
      ensures ZipDirectory.NameOf(items[i], rules) == Names(entries)[i]
    {
      assert WellNamed(entries[i]);
      ItemNames(entries, alnum, i);
    }
    NamesDiffer(entries);
    WellWrittenGiven(l, start, items, rules, Names(entries), fine);
    assert forall i :: 0 <= i < |entries| ==> (fine(i) <==> Importable(entries[i], alnum));
  }

  lemma {:induction false} TotalAppend(a: seq<Found>, f: Found)
    ensures TotalBytes(a + [f]) == TotalBytes(a) + |f.data|
  {
    if a == [] {
      assert ([] + [f])[1..] == [];
    } else {
      assert (a + [f])[1..] == a[1..] + [f];
      TotalAppend(a[1..], f);
    }
  }

  lemma {:induction false} DeclaredIsTotal(entries: seq<Found>, es: seq<ZipDirectory.Entry>)
    requires |es| == |entries| && forall i :: 0 <= i < |es| ==> es[i].size == |entries[i].data|
    ensures DeclaredTotal(es) == TotalBytes(entries)
  {
    if es != [] {
      var n := |es| - 1;
      DeclaredIsTotal(entries[..n], es[..n]);
      assert entries == entries[..n] + [entries[n]];
      TotalAppend(entries[..n], entries[n]);
    }
  }

  /** A plain entry of known name. */
  predicate IsPlain(c: Content) { !c.encrypted && c.name.Some? && !(IsManifest(c) && c.isDir) }

  lemma {:induction false} NoMoreManifests(contents: seq<Content>, read: ManifestReader, found: Option<Manifest.Manifest>)
    requires forall i :: 0 <= i < |contents| ==> IsPlain(contents[i]) && !IsManifest(contents[i])
    ensures FindManifest(contents, read, found) == Ok(found)
  {
    if contents != [] {
      NoMoreManifests(contents[1..], read, found);
    }
  }

  lemma IsManifestIff(f: Found)
    requires WellNamed(f)
    ensures var c := AsFound(ToItem(f));
            c.name == Some(Name(f)) && !c.isDir && IsPlain(c) && (IsManifest(c) <==> f.path == [MANIFEST_NAME])
  {
    Utf8.DecodeEncode(Name(f));
    ManifestNameIsSafe();
  }

  /** The manifest comes first and is the only one. */
  ghost predicate OneManifest(entries: seq<Found>) {
    && AllWellNamed(entries) && DistinctKeys(entries, NameKey())
    && entries != [] && entries[0].path == [MANIFEST_NAME]
  }

  lemma FoundFirst(contents: seq<Content>, read: ManifestReader)
    requires contents != [] && IsManifest(contents[0]) && contents[0].declared == |contents[0].data|
    requires forall i :: 0 <= i < |contents| ==> IsPlain(contents[i]) && (i > 0 ==> !IsManifest(contents[i]))
    ensures var found := FindManifest(contents, read, None);
            && (found.Ok? <==> |contents[0].data| <= MAX_MANIFEST_BYTES && read(contents[0].data).Ok?)
            && (found.Ok? ==> found.value == Some(read(contents[0].data).value))
  {
    if read(contents[0].data).Ok? {
      NoMoreManifests(contents[1..], read, Some(read(contents[0].data).value));
    }
  }

  lemma OnlyFirstIsManifest(entries: seq<Found>, i: nat)
    requires OneManifest(entries) && i < |entries|
    ensures IsPlain(Contents(entries)[i]) && (IsManifest(Contents(entries)[i]) <==> i == 0)
  {
    assert WellNamed(entries[i]) && WellNamed(entries[0]);
    assert Contents(entries)[i] == AsFound(ToItem(entries[i]));
    IsManifestIff(entries[i]);
    if i > 0 {
      assert NameKey()(entries[0]) != NameKey()(entries[i]);
    }
  }

  ghost predicate AllImportable(entries: seq<Found>, alnum: char -> bool) {
    forall i :: 0 <= i < |entries| ==> Importable(entries[i], alnum)
  }

  /** The parser takes the written archive exactly when `accepted`, with as many entries and bytes as were written. */
  ghost predicate ParsesBack(entries: seq<Found>, x: Exporter, accepted: bool) {
    var bytes := x.write(ToItems(entries));
    AllFieldsFit(ToItems(entries)) && |bytes| <= MAX_ARCHIVE_BYTES ==>
      (&& (x.im.parse(bytes).Ok? <==> accepted)
       && (accepted ==> |x.im.parse(bytes).value| == |entries| && DeclaredTotal(x.im.parse(bytes).value) == TotalBytes(entries)))
  }

  /** When the archive of some entries is written and passes its own check; `accepted` says whether the parser takes it. */
  lemma WrittenAndCheckedIff(entries: seq<Found>, id: string, x: Exporter, accepted: bool)
    requires entries != []
    requires ParsesBack(entries, x, accepted)
    requires var found := FindManifest(Contents(entries), x.im.read, None);
             && (found.Ok? <==> |entries[0].data| <= MAX_MANIFEST_BYTES && x.im.read(entries[0].data).Ok?)
             && (found.Ok? ==> found.value == Some(x.im.read(entries[0].data).value))
    ensures WriteAndCheck(entries, id, x).Ok? <==>
              && AllFieldsFit(ToItems(entries)) && |x.write(ToItems(entries))| <= MAX_ARCHIVE_BYTES
              && accepted && TotalBytes(entries) <= MAX_TOTAL_BYTES
              && |entries[0].data| <= MAX_MANIFEST_BYTES
              && x.im.read(entries[0].data).Ok? && x.im.read(entries[0].data).value.id == id
  {}

  lemma ExpectedTotal(entries: seq<Found>, l: ZipDirectory.Layout, start: nat, rules: ZipDirectory.Rules)
    ensures DeclaredTotal(ZipDirectory.Expected(l, ToItems(entries), 0, start, rules)) == TotalBytes(entries)
  {
    var es := ZipDirectory.Expected(l, ToItems(entries), 0, start, rules);
    forall i | 0 <= i < |es|
      ensures es[i].size == |entries[i].data|
    {
      ZipDirectory.ExpectedContents(l, ToItems(entries), 0, start, i, rules);
    }
    DeclaredIsTotal(entries, es);
  }

  lemma WrittenParse(entries: seq<Found>, l: ZipDirectory.Layout, before: seq<Byte>, alnum: char -> bool)
    requires AllWellNamed(entries) && DistinctKeys(entries, NameKey())
    requires ZipDirectory.WritesHeaders(l) && ZipDirectory.SizesFit(l, |before|, ToItems(entries))
    ensures var r := ZipDirectory.ParseDirectory(ZipDirectory.WithDirectory(l, before, ToItems(entries)), ZipDirectory.PackageRules(alnum));
            && (r.Ok? <==> forall i :: 0 <= i < |entries| ==> Importable(entries[i], alnum))
            && (r.Ok? ==> |r.value| == |entries| && DeclaredTotal(r.value) == TotalBytes(entries))
  {
    WellWrittenIff(entries, l, |before|, alnum);
    ZipDirectory.WrittenAcceptedIff(l, before, ToItems(entries), ZipDirectory.PackageRules(alnum));
    ExpectedTotal(entries, l, |before|, ZipDirectory.PackageRules(alnum));
  }

  lemma AscendingIsDistinct(items: seq<Found>)
    requires Ascends(items, NameKey())
    ensures DistinctKeys(items, NameKey())
  {
    forall i, j | 0 <= i < j < |items|
      ensures NameKey()(items[i]) != NameKey()(items[j])
    {
      LessIsStrict(NameKey()(items[i]), NameKey()(items[j]));
    }
  }

  lemma NotTheManifest(root: FileTree.Node, files: seq<Found>, index: seq<Byte>, media: seq<Media>, f: Found)
    requires Collected(root, files) && f in SortBy(files + Extras(index, media), NameKey())
    ensures f.path != [MANIFEST_NAME]
  {
    SortHasSame(files + Extras(index, media), NameKey(), f);
    if f in Extras(index, media) { ExtrasInMedia(index, media, f); }
    assert MANIFEST_NAME != "media" by { ManifestCharacters(); assert |"media"| == 5; }
  }

  lemma ConsDistinct(first: Found, rest: seq<Found>)
    requires WellNamed(first) && AllWellNamed(rest) && DistinctKeys(rest, NameKey())
    requires forall f :: f in rest ==> f.path != first.path
    ensures DistinctKeys([first] + rest, NameKey()) && AllWellNamed([first] + rest)
  {
    var all := [first] + rest;
    forall i, j | 0 <= i < j < |all|
      ensures NameKey()(all[i]) != NameKey()(all[j])
    {
      assert all[j] == rest[j - 1] && rest[j - 1] in rest && WellNamed(rest[j - 1]);
      if i > 0 {
        assert NameKey()(rest[i - 1]) != NameKey()(rest[j - 1]);
      }
    }
    forall i | 0 <= i < |all|
      ensures WellNamed(all[i])
    {
      assert i > 0 ==> all[i] == rest[i - 1];
    }
  }

  lemma ManifestWellNamed(manifest: seq<Byte>)
    ensures WellNamed(Found([MANIFEST_NAME], manifest))
  {
    ManifestCharacters();
    NameGivesPath(Found([MANIFEST_NAME], manifest));
  }

  lemma RestWellNamed(root: FileTree.Node, files: seq<Found>, index: seq<Byte>, media: seq<Media>)
    requires Named(root) && Collected(root, files) && MediaNamed(media)
    ensures var rest := SortBy(files + Extras(index, media), NameKey());
            AllWellNamed(rest) && DistinctKeys(rest, NameKey()) && forall f :: f in rest ==> f.path != [MANIFEST_NAME]
  {
    var all := files + Extras(index, media);
    var rest := SortBy(all, NameKey());
    AllDistinct(root, files, index, media);
    SortAscends(all, NameKey());
    AscendingIsDistinct(rest);
    forall f | f in rest
      ensures f.path != [MANIFEST_NAME] && WellNamed(f)
    {
      SortHasSame(all, NameKey(), f);
      NotTheManifest(root, files, index, media, f);
    }
  }

  lemma EntriesHaveOneManifest(root: FileTree.Node, files: seq<Found>, manifest: seq<Byte>, index: seq<Byte>, media: seq<Media>)
    requires Named(root) && Collected(root, files) && MediaNamed(media)
    ensures OneManifest(Entries(files, manifest, Extras(index, media)))
  {
    RestWellNamed(root, files, index, media);
    ManifestWellNamed(manifest);
    ConsDistinct(Found([MANIFEST_NAME], manifest), SortBy(files + Extras(index, media), NameKey()));
  }

  /** The exporter writes package archives: their directory is the format's, and it is checked with the import's rules. */
  ghost predicate WritesPackages(x: Exporter, alnum: char -> bool, zip: ZipLibrary) {
    && ZipDirectory.WritesHeaders(zip.layout)
    && (forall bytes :: x.im.parse(bytes) == ZipDirectory.ParseDirectory(bytes, ZipDirectory.PackageRules(alnum)))
    && forall items :: x.write(items) == ZipDirectory.WithDirectory(zip.layout, zip.before(items), items)
  }

  lemma PackageExporterWrites(alnum: char -> bool, lib: Manifest.Library, zip: ZipLibrary)
    requires ZipDirectory.WritesHeaders(zip.layout)
    ensures WritesPackages(PackageExporter(alnum, lib, zip), alnum, zip)
    ensures PackageExporter(alnum, lib, zip).im == PackageImporter(alnum, lib)
  {}

  lemma ParsedByExporter(entries: seq<Found>, x: Exporter, alnum: char -> bool, zip: ZipLibrary)
    requires WritesPackages(x, alnum, zip) && AllWellNamed(entries) && DistinctKeys(entries, NameKey())
    requires |entries| <= ZipDirectory.MAX_ENTRIES && AllFieldsFit(ToItems(entries))
    requires |x.write(ToItems(entries))| <= MAX_ARCHIVE_BYTES
    ensures var r := x.im.parse(x.write(ToItems(entries)));
            && (r.Ok? <==> forall i :: 0 <= i < |entries| ==> Importable(entries[i], alnum))
            && (r.Ok? ==> |r.value| == |entries| && DeclaredTotal(r.value) == TotalBytes(entries))
  {
    var items := ToItems(entries);
    SmallArchiveFits(zip.layout, zip.before(items), items);
    WrittenParse(entries, zip.layout, zip.before(items), alnum);
  }

  lemma CheckedIff(entries: seq<Found>, id: string, x: Exporter, accepted: bool)
    requires OneManifest(entries)
    requires ParsesBack(entries, x, accepted)
    ensures WriteAndCheck(entries, id, x).Ok? <==>
              && AllFieldsFit(ToItems(entries)) && |x.write(ToItems(entries))| <= MAX_ARCHIVE_BYTES
              && accepted && TotalBytes(entries) <= MAX_TOTAL_BYTES
              && |entries[0].data| <= MAX_MANIFEST_BYTES
              && x.im.read(entries[0].data).Ok? && x.im.read(entries[0].data).value.id == id
  {
    var contents := Contents(entries);
    forall i | 0 <= i < |contents|
      ensures IsPlain(contents[i]) && (IsManifest(contents[i]) <==> i == 0)
    {
      OnlyFirstIsManifest(entries, i);
    }
    FoundFirst(contents, x.im.read);
    WrittenAndCheckedIff(entries, id, x, accepted);
  }

  /** What writing and checking the entries asks for. */
  ghost predicate Exportable(entries: seq<Found>, id: string, x: Exporter, alnum: char -> bool)
    requires entries != []
  {
    && AllFieldsFit(ToItems(entries)) && AllImportable(entries, alnum)
    && |x.write(ToItems(entries))| <= MAX_ARCHIVE_BYTES && TotalBytes(entries) <= MAX_TOTAL_BYTES
    && |entries[0].data| <= MAX_MANIFEST_BYTES && x.im.read(entries[0].data).Ok? && x.im.read(entries[0].data).value.id == id
  }

  lemma WrittenParsesBack(entries: seq<Found>, x: Exporter, alnum: char -> bool, zip: ZipLibrary)
    requires OneManifest(entries) && |entries| <= ZipDirectory.MAX_ENTRIES && WritesPackages(x, alnum, zip)
    ensures ParsesBack(entries, x, AllImportable(entries, alnum))
  {
    if AllFieldsFit(ToItems(entries)) && |x.write(ToItems(entries))| <= MAX_ARCHIVE_BYTES {
      ParsedByExporter(entries, x, alnum, zip);
    }
  }

  lemma WrittenIff(entries: seq<Found>, id: string, x: Exporter, alnum: char -> bool)
    requires OneManifest(entries) && ParsesBack(entries, x, AllImportable(entries, alnum))
    ensures WriteAndCheck(entries, id, x).Ok? <==> Exportable(entries, id, x, alnum)
  {
    CheckedIff(entries, id, x, AllImportable(entries, alnum));
  }

  lemma ExportWithIff(files: seq<Found>, manifest: seq<Byte>, extras: seq<Found>, write: seq<Found> -> Result<Archive, ArchiveError>)
    ensures var entries := Entries(files, manifest, extras);
            && |entries| == |files| + |extras| + 1 && entries[0] == Found([MANIFEST_NAME], manifest)
            && (ExportWith(files, manifest, extras, write).Ok? <==>
                  && |entries| <= ZipDirectory.MAX_ENTRIES && TotalBytes(files) + TotalBytes(extras) <= MAX_TOTAL_BYTES
                  && write(entries).Ok?)
  {
    SortKeeps(files + extras, NameKey());
  }

  lemma ExportSucceedsGiven(files: seq<Found>, id: string, manifest: seq<Byte>, index: seq<Byte>, media: seq<Media>, x: Exporter,
                            alnum: char -> bool)
    requires var entries := Entries(files, manifest, Extras(index, media));
             |entries| <= ZipDirectory.MAX_ENTRIES ==> (WriteAndCheck(entries, id, x).Ok? <==> Exportable(entries, id, x, alnum))
    ensures var extras := Extras(index, media);
            var entries := Entries(files, manifest, extras);
            ExportFiles(files, id, manifest, index, media, x).Ok? <==>
              && (forall i :: 0 <= i < |media| ==> |media[i].data| <= MAX_MEDIA_FILE_BYTES)
              && |entries| <= ZipDirectory.MAX_ENTRIES
              && TotalBytes(files) + TotalBytes(extras) <= MAX_TOTAL_BYTES
              && Exportable(entries, id, x, alnum)
  {
    ExportWithIff(files, manifest, Extras(index, media), Writer(id, x));
  }

  /** An export succeeds exactly when: the media files are within their limit; files, media, index and manifest are at
      most 500 entries within the total limits; every name is acceptable to the import and fits its field; the archive is
      within 20 MiB; and the reprinted manifest is small, readable and names the package. */
  lemma ExportSucceedsIff(root: FileTree.Node, files: seq<Found>, id: string, manifest: seq<Byte>, index: seq<Byte>, media: seq<Media>,
                          x: Exporter, alnum: char -> bool, zip: ZipLibrary)
    requires Named(root) && Collected(root, files) && MediaNamed(media) && WritesPackages(x, alnum, zip)
    ensures var extras := Extras(index, media);
            var entries := Entries(files, manifest, extras);
            ExportFiles(files, id, manifest, index, media, x).Ok? <==>
              && (forall i :: 0 <= i < |media| ==> |media[i].data| <= MAX_MEDIA_FILE_BYTES)
              && |entries| <= ZipDirectory.MAX_ENTRIES
              && TotalBytes(files) + TotalBytes(extras) <= MAX_TOTAL_BYTES
              && Exportable(entries, id, x, alnum)
  {
    var entries := Entries(files, manifest, Extras(index, media));
    EntriesHaveOneManifest(root, files, manifest, index, media);
    if |entries| <= ZipDirectory.MAX_ENTRIES {
      WrittenParsesBack(entries, x, alnum, zip);
      WrittenIff(entries, id, x, alnum);
    }
    ExportSucceedsGiven(files, id, manifest, index, media, x, alnum);
  }
}
