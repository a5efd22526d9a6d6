# Gamer verification

A Dafny model of the parts of the Gamer server and panel client whose correctness is hardest to see: exact template
matching and its cache, the package archive and the package store, schema migration, and three small protocols. The
whole project is checked with `dafny verify dfyconfig.toml`.

- **Template matching** (`Ncc`, `Template`, `Search`, `TemplateCache`). The score of a window is kept as the exact
  triple of covariance and two variances, and compared by signed squares. Integer Cauchy–Schwarz with its equality case
  says what a score of 1 means; the parallel search returns one determined window whatever the reduction tree; the
  cache in front of it answers as if it were not there and accounts for its bytes.
- **Archives** (`ArchivePath`, `ZipDirectory`, `ZipBytes`, `Extraction`, `Collecting`, `Export`, `ExportImport`,
  `ExportSuccess`, `ExportExample`, `MediaIndex`, `IndexText`, `Utf8`, `Sorting`). The central directory parser (ZIP
  APPNOTE.TXT, sections 4.3.12 and 4.3.16) is characterised byte by byte and tied to the repository's own writer of such
  bytes in both directions. On top of it stand the path whitelist, extraction with its limits, the walk over a package,
  when an export succeeds, and the theorem that exporting and extracting gives the package back.
- **Packages** (`Toml`, `Manifest`, `ManifestInput`, `FileTree`, `LinkCircles`, `PackageStore`, `ReplaceBinary`). What a
  manifest keeps of its input, its printer and a parser of the TOML v1.0.0 it emits; counting and copying directory
  trees, and when such a walk over links ends; activity handles racing with deletion; replacing a resource through a
  staged file, a hook and a rollback under every combination of faults.
- **Migrations** (`Migrations`). The stepwise engine, resuming after a failure, and the two maintenance commands that
  observe it.
- **Protocols** (`TaskEditing`, `UiClient`, `Paging`). Compare-and-save editing of tasks under interleaving, the
  request bookkeeping of the panel client, and pagination through a filter.

What the source takes from outside is a parameter: decoding, resizing and grey conversion of images, content hashes,
the compressor, the Unicode letter test, URL parsing, schedules and clocks, authorisation decisions, and every
input/output step that can fail. Steps of concurrent protocols are the places where the source releases its lock or
awaits. Imperative code is a method proved equal to a specification function, and the theorems are about that function.
The definitions that recur are passed to the inductions as function values (`Checks`, `Layout`, `Grammar`, `Rules`,
`Importer`), so that a proof about a loop does not depend on what a single step does.

Where the promise fails, the code is kept and the exact condition is proved:

- The cache can stay over its limits after a preparation that fails, also through later successful lookups: for every
  template over 64 MiB that cannot be prepared (`TemplateCache.LimitsCanBeExceeded`). A run keeps the limits throughout
  if every preparation succeeds (`TemplateCache.Cache.Run`), and is over them exactly while a failed preparation that
  put an entry back has not been followed by a successful miss (`TemplateCache.OverLimitsIff`).
- A manifest with a control character in its name or author, with a revision of 2⁶³ or more, or with a URL whose normal
  form exceeds 4096 bytes, is written and then cannot be read (`Manifest.RoundTrip`, `PackageStore.CreatedIsListedIff`,
  `PackageStore.DuplicateIsListedIff`; an input in `Manifest.LineBreakInNameIsRefused`). The comment at
  server/src/resources.rs:472 says such names had been rejected before; they are not.
- The export does not apply the import's 10 MiB per-file limit (`ExportImport.ExportThenExtract`; an input in
  `ExportExample.LargeFileIsRefused`), and writes an index that the import refuses when it is over 1 MiB, or has more
  than 1024 references, an ill-formed one, or two to one media file (`MediaIndex.ExportedIndexAcceptedIff`; inputs in
  `IndexText.LongIndexIsRefused` and `MediaIndex.RepeatedReferenceIsRefused`).
- A duplicated package can have other byte totals than its source, since a link is counted with its own length and
  copied as the file it names (`FileTree.DuplicateKeepsStatsIff`; an input in `FileTree.LinkedDuplicateGrows`).
- Counting and copying directories have no guard against links that lead in a circle, and end of their own exactly if
  there is none (`LinkCircles.WalkEndsIffNoCircle`; an input in `LinkCircles.CircleCountsAgain`).
- An archive whose names are accepted as distinct can still be refused while it is extracted, on a file system that does
  not tell its names apart (`Extraction.FoldedExtractIff`; inputs in `Extraction.FoldedNamesClash`).
- A rename that fails in its hook or after it keeps the hook's rewrites (`ReplaceBinary.FailedMoveKeepsRewrites`; an input
  in `ReplaceBinary.RewriteOutlivesFailedMove`), and a replacement reported as restored has its references back only if
  the hook of the way back undoes the first (`ReplaceBinary.RestoredIffUndone`; an input in
  `ReplaceBinary.RewriteOutlivesRestoring`).
- A negative schema version is called migratable and refused (`Migrations.NegativeVersionDisagrees`), and a migration
  that fails after its first level reports nothing as applied (`Migrations.AppliedIsExecutedIff`; an input in
  `Migrations.UnderreportedRun`). A comment in server/src/migrations.rs still speaks of version 7 as the highest; the
  model follows the code, which says 8.
- A panel call whose message cannot be cloned is rejected and stays pending (`UiClient.OnePlaceIffAllCloned`; an input in
  `UiClient.UnsendableStaysPending`).
- Deleting the run a pagination cursor names ends the list early, and nothing else hides a run that is stored throughout
  from a client that follows the pages (`Paging.FollowHistory`; an input in `Paging.PrunedCursorHidesOlderRuns`).

## Model

| member | source | states |
|---|---|---|
| `Ncc.VarSign` | server/src/matcher.rs:350-366 | n·Σx² − (Σx)² is never negative, and zero exactly when all pixels are equal; so the unsigned subtraction cannot underflow and the "uniform colour" refusal is exact |
| `Ncc.CauchySchwarz` | server/src/matcher.rs:730-737 | For any two equally long pixel sequences cov² ≤ i_var·t_var |
| `Ncc.EqualityIffRecolouring` | server/src/matcher.rs:730-743 | For a template of more than one colour, cov > 0 and cov² = i_var·t_var hold together exactly when the window is a positive affine recolouring of the template |
| `Ncc.SignedSquareOrder` | server/src/matcher.rs:602-614 | Comparing signed squares of scores is comparing the scores, so the exact search needs no square root |
| `Ncc.KeyIsSignedSquare` | server/src/matcher.rs:736-737 | The key of a score is the signed square of cov / √(i_var·t_var) |
| `Ncc.ScoreRange` | server/src/matcher.rs:733-743 | Every key lies in [−1, 1], the defensive range check never fires, and key 1 is reached exactly by positive recolourings |
| `Ncc.ExactCopyScoresOne` | server/src/matcher.rs:730-743 | An exact copy of a template of more than one colour has key 1 |
| `Ncc.AccumulatorsFit` | server/src/matcher.rs:712-736 | Within the 32-megapixel budget every sum fits u64, every product u128 and the covariance i128; nothing wraps |
| `Ncc.AccumulateRow` | server/src/matcher.rs:722-728 | One inner loop adds exactly the row's Σ, Σ² and Σ of products to the accumulators |
| `Ncc.AccumulateWindow` | server/src/matcher.rs:715-729 | The nested loops compute the three moments of exactly the pixels of the window at (x0, y0) |
| `Ncc.NccAt` | server/src/matcher.rs:697-744 | The method returns the exact score of the window against the template, and the refusal score outside the image |
| `Template.BuildRefusesUniform` | server/src/matcher.rs:350-366 | Preparation refuses exactly images of one colour, empty ones with an error of their own, and otherwise stores the image with its own pixel sum and its positive variance |
| `Template.SumPixels` | server/src/matcher.rs:355-356 | The loops sum up the pixels and their squares |
| `Template.BuildPrepared` | server/src/matcher.rs:350-366 | The preparing method equals the preparation the theorems are about |
| `Search.BracketingIrrelevant` | server/src/matcher.rs:596-619 | Every bracketing of the parallel reduction gives the result of the sequential fold |
| `Search.FirstGreatestUnique` | server/src/matcher.rs:596-619 | There is only one "first window in (x, then y) order with the greatest score" |
| `Search.ScanColumn` | server/src/matcher.rs:598-609 | A column scan keeps the topmost of the greatest scores of its column |
| `Search.SearchRange` | server/src/matcher.rs:578-619 | Whatever bracketing the pool chose, and with the statistics that were prepared, the search returns the first greatest window of the range |
| `Search.Refine` | server/src/matcher.rs:625-646 | The ±1 neighbourhood refinement never moves a first greatest window |
| `Search.MatchTemplate` | server/src/matcher.rs:503-693 | The whole match: a template not smaller than the screen; a region refused exactly when the part of it on the screen is empty or smaller than the template, or an edge is no 32-bit number; a template of one colour; otherwise the first greatest window among those wholly on the screen and inside the region, or in the scaled screen between the images of its corners, if it reaches the threshold and the colour check, mapped back; and none if there is no such window |
| `Search.ClipIsRegion` | server/src/matcher.rs:518-525 | The clip with its wrapping 32-bit edges has room for the template exactly when the region has, and its window origins are exactly those wholly on the screen and inside the region |
| `Search.ClipIsScaled` | server/src/matcher.rs:570-580 | On a scaled screen the window origins searched are those between the images of the corners of the screen and within the scaled screen |
| `Search.MatchIn` | server/src/matcher.rs:553-683 | The part of a match after its view is known: the prepared statistics are the ones every score is computed with |
| `Search.DefaultThreshold` | server/src/matcher.rs:661-664 | Without a threshold a match has a score of at least 0.8 |
| `Search.AnswerUnique` | server/src/matcher.rs:596-693 | The answer of a request is determined; it does not depend on how the work was split |
| `Search.PlantedTemplateIsFound` | server/src/matcher.rs:512-683 | In the view that is searched, scaled or not, with no colour check and a threshold of at most 1: a template of more than one colour, smaller than the screen, whose pixels stand anywhere in the searched area, is reported with score 1 from a positive recolouring of it in that area |
| `Search.PlantedInRegionIsFound` | server/src/matcher.rs:512-683 | Without scaling: a template whose pixels stand wholly on the screen and inside the region is found, and the reported place is where a positive recolouring stands, wholly on the screen and inside the region |
| `Search.PerfectMatchIsRecolouring` | server/src/matcher.rs:666-683 | A match at threshold 1, scaled or not, is reported from a positive recolouring of the template in the searched area, never from a flat window |
| `TemplateCache.SumOfRemove` | server/src/matcher.rs:442-451 | The byte total of a map is the weight of any one entry plus the total of the others |
| `TemplateCache.Cache.Tick` | server/src/matcher.rs:287-290 | The clock advances modulo 2⁶⁴ and skips 0 |
| `TemplateCache.Cache.Touch` | server/src/matcher.rs:340-346 | A hit renews the entry's time and changes nothing else in the cache |
| `TemplateCache.Cache.Renew` | server/src/matcher.rs:340-346 | A hit leaves the limits kept or broken as they were |
| `TemplateCache.Cache.Oldest` | server/src/matcher.rs:436-440 | The victim is an entry with the least time of use |
| `TemplateCache.Cache.DropOldest` | server/src/matcher.rs:433-452 | One eviction removes exactly one least recently used entry and its bytes |
| `TemplateCache.Cache.Evict` | server/src/matcher.rs:432-453 | Eviction terminates, within the limits of 128 entries and 64 MiB, having removed only entries used no later than those kept, and no more than needed |
| `TemplateCache.NewestSurvives` | server/src/matcher.rs:432-453 | An eviction that drops the oldest first never drops the newest entry if that entry alone is within the limits |
| `TemplateCache.Cache.CachedSource` | server/src/matcher.rs:319-348 | The answer is what decoding from scratch gives; the total stays the sum of the entries; a hit only renews the time of use; a miss ends within the limits with the oldest entries gone, and until the clock wraps the new entry survives if it fits alone |
| `TemplateCache.Cache.FillSource` | server/src/matcher.rs:334-345 | A miss adds the decoded source with its bytes under its key, used later than everything else |
| `TemplateCache.Cache.EvictAround` | server/src/matcher.rs:345-347 | The eviction after a miss keeps the entry just filled whenever it is the newest and fits the byte limit alone |
| `TemplateCache.Cache.InsertFresh` | server/src/matcher.rs:336-345 | A new entry under a free key holds the decoded source and its bytes, and the other entries stay |
| `TemplateCache.Cache.CachedPrepared` | server/src/matcher.rs:370-430 | The answer is what preparing from scratch gives, errors included. A hit renews the entry; a success after a miss leaves, within the limits, the prepared variant in its entry with the oldest entries gone, and until the clock wraps that entry survives if it fits alone; an error leaves everything as it was, except that a source evicted before is put back |
| `TemplateCache.Cache.PutBack` | server/src/matcher.rs:390-399 | A source evicted meanwhile is put back with its bytes and the oldest possible time |
| `TemplateCache.Cache.PrepareFilled` | server/src/matcher.rs:400-428 | The preparation for an entry that is there: an error changes nothing, a success ends within the limits |
| `TemplateCache.Cache.Fill` | server/src/matcher.rs:416-425 | The entry holds the new variant and its bytes and is the newest |
| `TemplateCache.Cache.AddPrepared` | server/src/matcher.rs:416-427 | A prepared variant is added with its bytes to its entry and to the total |
| `TemplateCache.Cache.Perform` | server/src/matcher.rs:319-430 | Each call answers like the computation from scratch and moves the contents by one of three transitions: a success, a failed preparation that put an entry back, or no change |
| `TemplateCache.Cache.Run` | server/src/matcher.rs:319-430 | Over every sequence of calls each answer equals the computation from scratch and the byte accounting holds; and if every preparation among them succeeds, the limits hold after each call of the sequence |
| `TemplateCache.PreparationsKeepLimits` | server/src/matcher.rs:432-453 | In a run from within the limits in which every preparation succeeds the limits hold throughout |
| `TemplateCache.OverLimitsIff` | server/src/matcher.rs:390-430 | In every run from within the limits the cache is over them after call i exactly when some earlier preparation failed after putting its entry back, left too much, and no successful miss has followed since |
| `TemplateCache.LimitsCanBeExceeded` | server/src/matcher.rs:390-417 | For every template over 64 MiB that cannot be prepared at some size: lookup, failed preparation, lookup leaves the cache over its byte limit although the last call succeeded |
| `Utf8.DecodeEncode` | server/src/package_archive.rs:441-442 | Decoding the UTF-8 form of a text gives the text |
| `Utf8.EncodeDecode` | server/src/package_archive.rs:441-442 | A byte string that decodes is the UTF-8 form of what it decodes to, so distinct names stay distinct |
| `ArchivePath.SanitizeEachKeeps` | server/src/package_archive.rs:249-257 | The segment check accepts exactly the valid segments, keeps them unchanged, and each of them is safe to join |
| `ArchivePath.RelativePathKeeps` | server/src/package_archive.rs:202-260 | An accepted name becomes exactly its own segments, and they lead strictly below the extraction directory |
| `ArchivePath.RelativePathIff` | server/src/package_archive.rs:202-260 | A name is accepted exactly when, without the slashes after a directory, it is package.toml, or shared or plugins with a valid plugin id followed by good segments, or media/index.json, or media/files with a hash of 64 hex digits |
| `ArchivePath.TrimEndSlashesIff` | server/src/package_archive.rs:203-207 | Only slashes at the end are trimmed, and all of them |
| `ArchivePath.ReservedIff` | server/src/core/fs/safe_name.rs:22-50 | A name is reserved exactly when what stands before its first dot is a device name in any case |
| `ArchivePath.DistinctDestinations` | server/src/package_archive.rs:385-389 | Distinct accepted names lead to distinct places |
| `ZipDirectory.FindEndOfCentralDirectory` | server/src/package_archive.rs:476-491 | The bounded backward scan finds the last end record whose comment ends the file, as an unbounded search would |
| `ZipDirectory.CollectEntries` | server/src/package_archive.rs:420-473 | The loop with cursor and seen-set equals the recursive parse, error cases included |
| `ZipDirectory.ParseCentralDirectory` | server/src/package_archive.rs:391-474 | The parser method equals the parse function that the theorems are about |
| `ZipDirectory.ParsedIffWellFormed` | server/src/package_archive.rs:422-472 | The loop accepts a list of entries exactly when their headers tile the directory and their names are accepted and pairwise distinct |
| `ZipDirectory.AcceptedIffTiled` | server/src/package_archive.rs:391-474 | An archive is accepted as a list exactly when the last end record announces as many entries on one disk within the limits and the list tiles the announced range with nothing left over |
| `ZipBytes.AcceptedBytesIff` | server/src/package_archive.rs:391-491 | Byte by byte: a file is accepted as an archive of some entries exactly when its last end record, whose comment ends the file, announces as many, at most 500 and on one disk, in a directory that ends where the record begins, and the directory consists of their headers one after the other, with UTF-8 names that are harmless, pairwise distinct and lead into a package |
| `ZipBytes.ExtentIff` | server/src/package_archive.rs:393-419 | What an end record must hold for its directory to be read, field by field |
| `ZipBytes.HeaderIff` | server/src/package_archive.rs:424-440 | What the bytes at a position must be for them to be read as a header, field by field |
| `ZipDirectory.AcceptedDestinations` | server/src/package_archive.rs:202-260 | The entries of an accepted archive are extracted to pairwise distinct paths strictly below the target |
| `ZipDirectory.WriteParts` | server/src/package_archive.rs:948-985 | The writer's loop produces the local part and the directory side by side |
| `ZipDirectory.RawZip` | server/src/package_archive.rs:948-1002 | The written archive is the local part, the directory and the end record |
| `ZipDirectory.ExpectedContents` | server/src/package_archive.rs:424-466 | The entries to be read back carry the written names, kinds and sizes in the written order |
| `ZipDirectory.ParseWritten` | server/src/package_archive.rs:948-1002 | Round trip for the raw writer: for distinct accepted names within the count and field limits, and whatever bytes precede the directory, parsing returns exactly the written entries in order |
| `ZipDirectory.WrittenAcceptedIff` | server/src/package_archive.rs:391-474 | Whatever a writer puts into the header fields the parser skips, extra fields and comments included: within the limits of the fields a written directory is accepted exactly when its names are all acceptable and pairwise distinct, and then parsed as exactly the written entries |
| `ZipDirectory.RawWritesHeaders` | server/src/package_archive.rs:967-980 | The headers of the raw writer are headers for what they were written for |
| `Toml.ReadPrinted` | server/src/resources.rs:426-484 | Reading a printed document gives the same statements exactly when its strings hold no control character TOML forbids and its integers fit 63 bits; otherwise it is refused |
| `Toml.KeyIff` | server/src/resources.rs:395-400 | A key is recognised exactly by the name it is printed with; any other name is unknown |
| `Manifest.CollectClean` | server/src/resources.rs:215-229 | The loop over the targets keeps the first of equal cleaned items, in order |
| `Manifest.CleanAllGives` | server/src/resources.rs:215-229 | Kept targets are pairwise distinct and each was cleaned from some input |
| `Manifest.RebuildIff` | server/src/resources.rs:189-254 | Building again from a built manifest gives it back exactly when its normalised URL prefixes still fit 4096 bytes |
| `Manifest.RoundTrip` | server/src/resources.rs:395-484 | Parsing the printed form of a built manifest gives the same manifest exactly when name and author hold no forbidden control character, the revision is below 2⁶³ and the normalised prefixes fit; otherwise it is refused, never misread |
| `Manifest.ReadIsBuilt` | server/src/resources.rs:395-423 | Every manifest that is read could have been built from input with its plugins in order |
| `Manifest.RepetitionIsRefused` | server/src/resources.rs:395-400 | A document that opens a table twice or gives a field of one twice is refused |
| `Manifest.LineBreakInNameIsRefused` | server/src/resources.rs:191-195 | A name with a line break is accepted when building, and its printed form is refused when reading |
| `Manifest.StandardLibraryIsFaithful` | server/src/resources.rs:46-66 | With the repository's id rule, only the URL library is left to trust in the round trip |
| `Manifest.TrimIff` | server/src/resources.rs:192-196 | Trimming takes away the white space around a text and nothing else |
| `ManifestInput.InputIsKept` | server/src/resources.rs:189-254 | A manifest keeps its input: ids, revision and plugins as they are, name, author and version without the white space around them, 0.1.0 for an absent or blank version, and each target and normalised prefix once, in the order in which they are first given |
| `ManifestInput.BuildsIff` | server/src/resources.rs:189-254 | An input builds a manifest exactly when its ids are valid, name and author are absent or not blank and within 200 bytes, the version is within 64 bytes and without control characters and slashes, targets and prefixes are well formed within 200 and 4096 bytes, and there is at least one of them |
| `Manifest.JoinQuoted` | server/src/resources.rs:441-450 | The comma-joined list of quoted items |
| `Manifest.SerializePackageToml` | server/src/resources.rs:426-469 | The sequence of appends prints exactly the statements of the manifest |
| `Sorting.AscendingIsUnique` | server/src/package_archive.rs:733 | An ascending sequence is determined by its elements |
| `Sorting.LessIff` | server/src/package_archive.rs:674 | One name is before another exactly when it is smaller where they first differ |
| `Sorting.SortForgetsOrder` | server/src/package_archive.rs:674 | Sorting items with distinct names gives the same sequence whatever order they came in |
| `FileTree.ReadDirectory` | server/src/resources.rs:1533-1549 | Reading one directory moves its files into the counters and its subdirectories onto the stack without losing or counting anything twice, links followed to what they name and counted with their own length |
| `FileTree.DirTotals` | server/src/resources.rs:1529-1552 | The explicit-stack walk returns the recursive file count and byte sum of the tree it finds, in any listing order; a link to a file adds its own length |
| `FileTree.AddedFile` | server/src/resources.rs:1538-1549 | One more file in a directory counts once, with its bytes, unless its name begins with a dot or is package.toml |
| `FileTree.CopyDirContents` | server/src/resources.rs:1508-1525 | The recursive copy to a place where nothing is yet, which its caller makes sure of, gives the tree without hidden names and special nodes, at every depth, with every link replaced by what it names |
| `FileTree.CopyKeepsSum` | server/src/resources.rs:1508-1552 | Every sum over a copy that does not look at hidden names is the sum over the source with links followed |
| `FileTree.CopyKeepsTotalsIff` | server/src/resources.rs:1508-1552 | A copied directory has the file count of its source, and its byte sum exactly when the links of the source are together as long as the files they lead to |
| `FileTree.CollectPlugins` | server/src/resources.rs:1010-1024 | Exactly the subdirectories of plugins/ with a valid id are listed, each once, with their totals |
| `FileTree.PackageStatistics` | server/src/resources.rs:1002-1030 | The statistics are the totals and the plugin totals in ascending order of ids |
| `FileTree.DuplicateKeepsStatsIff` | server/src/resources.rs:982-1030 | A duplicated package has the file counts of its source, although hidden files stayed behind, and all its statistics exactly when in the package and in each plugin the links to files are together as long as the files |
| `FileTree.LinkedDuplicateGrows` | server/src/resources.rs:1546-1548 | A package holding one link of length 1 to a file of two bytes: its duplicate is a byte larger |
| `LinkCircles.WalkEndsIffNoCircle` | server/src/resources.rs:1508-1552 | A walk that follows links ends of its own, within some number of links on each path, exactly when no chain of links comes to one place twice; then as many links as the disk has targets are enough and the tree found does not depend on the limit |
| `LinkCircles.AtIff` | server/src/resources.rs:1508-1552 | A path leads on from the folder it has come to, by the names in it |
| `LinkCircles.EnoughIsAll` | server/src/resources.rs:1508-1552 | Once a number of links on each path cuts nothing off, a larger one finds the same tree |
| `LinkCircles.CircleCountsAgain` | server/src/resources.rs:1529-1552 | A folder with one file and a link to itself: the totals count the file once more for every link the system lets a path go through |
| `PackageStore.NextKeeps` | server/src/resources.rs:714-979 | Every step of every operation keeps the counts equal to the live handles and the packages in use in place |
| `PackageStore.RunKeeps` | server/src/resources.rs:714-979 | So does every interleaving of create, duplicate, edit, acquire, drop and delete steps |
| `PackageStore.InUseStays` | server/src/resources.rs:781-965 | From a store without handles, after any interleaving: a package with a live handle exists, its stored count is the number of its handles, and deletion is refused and changes nothing |
| `PackageStore.LockExcludes` | server/src/resources.rs:714-979 | While the lock is held only its holder goes on and handles are released; an edit changes one existing package and nothing else |
| `PackageStore.ListedIff` | server/src/resources.rs:881-922 | A package is listed exactly when it is a directory with a readable manifest that names it |
| `PackageStore.CreatedIff` | server/src/resources.rs:842-854 | A package is created exactly when its input builds a manifest and nothing has its name, with an error for each case |
| `PackageStore.NewPackageHolds` | server/src/resources.rs:846-852 | A new package has its manifest and the empty directories shared and plugins |
| `PackageStore.DuplicatedIff` | server/src/resources.rs:982-991 | A package is duplicated exactly when the new id is valid and free and the source is listed, with an error for each case |
| `PackageStore.CreatedIsListedIff` | server/src/resources.rs:842-922 | A package just created is listed under its manifest exactly when the printed manifest is readable |
| `PackageStore.DuplicateIsListedIff` | server/src/resources.rs:982-998 | A duplicate carries the source manifest with the new id and revision 1, and is listed with it exactly when the printed form is readable |
| `PackageStore.Store.constructor` | server/src/resources.rs:732-745 | A new store has no handles and no counts |
| `PackageStore.Store.AcquireActivity` | server/src/resources.rs:781-789 | Acquiring succeeds exactly for packages with a readable manifest and adds one handle and one to its count |
| `PackageStore.AcquiredInTwoSteps` | server/src/resources.rs:781-789 | Acquiring without a pause is the two steps of acquiring that other threads may separate |
| `PackageStore.Store.DropActivity` | server/src/resources.rs:719-729 | Dropping a handle takes one from its package's count, removes a count that reaches zero, and touches no other package |
| `PackageStore.Store.DeletePackage` | server/src/resources.rs:961-979 | Deleting is refused without effect exactly while a handle exists; then a bad id, an absent package, a removal that fails and one that succeeds each give their own result, and success removes exactly the package |
| `PackageStore.Store.CreatePackage` | server/src/resources.rs:842-854 | Creating adds one package or is refused without effect |
| `PackageStore.Store.DuplicatePackage` | server/src/resources.rs:982-999 | Duplicating adds the copied tree with the new manifest or is refused without effect |
| `PackageStore.Store.PackageStats` | server/src/resources.rs:1002-1030 | The statistics of an existing package; an error exactly for a bad id or a missing directory |
| `ReplaceBinary.NormalizedIsPlain` | server/src/resources.rs:1556-1559 | No part of a normalised resource path begins with a dot |
| `ReplaceBinary.NormalizedStays` | server/src/resources.rs:1556-1559 | Normalising a normalised path changes nothing |
| `ReplaceBinary.NormalizeIff` | server/src/resources.rs:1556-1559 | A path is accepted exactly when, without the white space around it, it is not empty, has no backslash and consists of valid segments, and it stays as it is but for that white space |
| `ReplaceBinary.StagedIsNoResource` | server/src/resources.rs:1217 | The name of a staged file is one no resource can have |
| `ReplaceBinary.StagedIsBeside` | server/src/resources.rs:1217 | The staged file lies in the directory of the new name |
| `ReplaceBinary.OutcomeMeans` | server/src/resources.rs:1191-1243 | Success: old name gone, new name = replacement. Restored: old name = original, new name free. Failed rollback: original under the new name. No other resource disappears, and none appears but those the hooks wrote |
| `ReplaceBinary.RestoredIffUndone` | server/src/resources.rs:1188-1230 | When the original is reported as restored its name and contents are back, and its references, hence everything, exactly when the second hook undoes the first; a resource the first hook created stays |
| `ReplaceBinary.FailedMoveKeepsRewrites` | server/src/resources.rs:1296-1302 | A move that fails, in its hook or after it, leaves both names alone, but everything is as before exactly when the hook wrote nothing new |
| `ReplaceBinary.RewriteOutlivesFailedMove` | server/src/resources.rs:1206-1243 | A replacement whose hook rewrites a reference and whose move then fails returns an error, leaves the original in place and the reference rewritten |
| `ReplaceBinary.RewriteOutlivesRestoring` | server/src/resources.rs:1206-1243 | A replacement whose hook rewrites a reference and whose publishing then fails reports the original as restored, with the reference still rewritten |
| `ReplaceBinary.SafeEverywhere` | server/src/resources.rs:1191-1243 | In a trace that is safe as a whole no state has lost the original without the replacement being published |
| `ReplaceBinary.Resources.Rename` | server/src/resources.rs:1274-1304 | When a rename succeeds, the files after it in each case, and that what the hook wrote, existing or new, stays when the hook or the move fails |
| `ReplaceBinary.Resources.WriteBinary` | server/src/resources.rs:1143-1186 | The conditional write succeeds exactly on a matching version, with the stated contents |
| `ReplaceBinary.Resources.Stage` | server/src/resources.rs:1217-1218 | Staging adds the staged file, or fails with or without leaving it |
| `ReplaceBinary.Resources.Discard` | server/src/resources.rs:1220 | The staged file is removed, or stays when removing fails |
| `ReplaceBinary.Resources.Publish` | server/src/resources.rs:1223-1231 | After the move: the staged bytes are published, or the name is given back, or the original stays under the new name |
| `ReplaceBinary.Resources.MoveForth` | server/src/resources.rs:1219-1222 | The original moves to the new name, or the staged bytes are discarded |
| `ReplaceBinary.Resources.MoveAndPublish` | server/src/resources.rs:1219-1232 | The outcome of both legs, exactly, for every combination of faults |
| `ReplaceBinary.Resources.Replace` | server/src/resources.rs:1206-1243 | For every combination of faults: which result is returned, the files it leaves, and that the original is under one of its names or the replacement published in every intermediate state |
| `ReplaceBinary.Resources.ReplaceBinary` | server/src/resources.rs:1191-1243 | The whole operation on paths as given: for every combination of faults which result is returned, exactly, and the files it leaves; under the same name a conditional write, a conflict exactly on a mismatch and a success exactly on a match with working staging |
| `Collecting.CollectDir` | server/src/package_archive.rs:540-583 | The recursive walk collects exactly the visible files, each once, in any listing order, and refuses exactly when a visible node is neither file nor directory |
| `Collecting.ListedMeans` | server/src/package_archive.rs:540-583 | The files collected are the regular ones, except hidden ones, those in hidden directories, the manifest and the media directory at the top |
| `Extraction.CopyChunks` | server/src/package_archive.rs:172-189 | Whatever the chunk sizes and however much an entry unpacks to: the copy succeeds exactly when the contents are within the per-file and the total limit, and never writes more than either allows |
| `Extraction.WriteFile` | server/src/package_archive.rs:158-191 | One file is extracted, or refused for its declared size, its place, its actual size or the total; a refused one holds a beginning that would itself have been accepted |
| `Extraction.UnpackEntry` | server/src/package_archive.rs:142-192 | One entry, directory or file, and what the staging directory holds afterwards, also after a refusal |
| `Extraction.UnpackAll` | server/src/package_archive.rs:140-192 | The loop over the entries equals the extraction function, with the error of the first entry that fails and the files left behind by then |
| `Extraction.ExtractArchive` | server/src/package_archive.rs:133-198 | Extraction equals the extraction function, and states which files it leaves, finished or refused |
| `Extraction.ExtractAllIff` | server/src/package_archive.rs:142-192 | Entries are all extracted exactly when each file declares and unpacks to no more than its limit, all together within 100 MiB, and no file stands where another entry is or needs a directory; directories and files are then exactly those of the entries |
| `Extraction.AcceptedTargets` | server/src/package_archive.rs:462-464 | If the reader agrees with the directory on names and kinds, every entry of an accepted archive has a place to go |
| `Extraction.TargetIff` | server/src/package_archive.rs:142-149 | An entry is extracted exactly when it is neither encrypted nor a link and its name leads to one of the places in a package, and it goes there as it is |
| `Extraction.TargetsDistinct` | server/src/package_archive.rs:385-389 | Those places are then pairwise distinct |
| `Extraction.ExtractIff` | server/src/package_archive.rs:133-198 | Whatever the archive reader finds: extraction succeeds exactly when the directory is accepted with as many entries, all of them are plain and have a place in a package, they fit, and a readable manifest is among them; the staged files and directories are then exactly theirs, strictly below the staging directory |
| `Extraction.LeftIsBounded` | server/src/package_archive.rs:171-189 | Whatever the archive reader finds, and whether or not extraction succeeds: every file left is strictly below the staging directory and within its own limit, and all together within 100 MiB |
| `Extraction.FoldedExtractIff` | server/src/package_archive.rs:142-192 | On a file system that takes some names for the same, such as one that ignores case, entries are all extracted exactly when they are on one that tells all names apart and no file stands where another entry of a name folded alike is or needs a directory |
| `Extraction.FoldedNamesClash` | server/src/package_archive.rs:167-170 | Two different accepted file names below shared/ that fold alike: both empty files are extracted where names differ, and the archive is refused where they do not |
| `Export.ScanForManifest` | server/src/package_archive.rs:101-130 | The loop over the entries: the last of the manifests that declare to be small and are readable, or the first error |
| `Export.ValidateArchive` | server/src/package_archive.rs:74-131 | Validation before unpacking equals the function the export theorems use |
| `Export.ExportPackage` | server/src/package_archive.rs:592-700 | Export is refused exactly for special nodes at the walk, and otherwise is what the collected files determine |
| `Export.ExportForgetsOrder` | server/src/package_archive.rs:670-746 | However the directories are listed, the same package gives the same archive or the same refusal |
| `ExportImport.EntriesHold` | server/src/package_archive.rs:712-738 | The entries of an export are exactly the reprinted manifest, the visible files, the media index and the media files |
| `ExportImport.NotInTheWay` | server/src/package_archive.rs:712-738 | No entry of an export is a file where another entry needs a directory |
| `ExportImport.ReprintedManifest` | server/src/package_archive.rs:709-713 | A reprinted manifest that can be read is the manifest that was on disk |
| `ExportImport.OnlyFilesCanBeTooLarge` | server/src/package_archive.rs:263-269 | After the export's own checks only visible files and the media index can be over a per-file limit of the import |
| `ExportImport.ExportThenExtract` | server/src/package_archive.rs:592-770 | For every zip library, whatever method, time, checksum, attributes, extra fields and comments it writes: extraction of an exported archive succeeds exactly when every visible file is within 10 MiB and the index within 90 MiB, and then gives back the manifest, exactly the visible files, the reprinted manifest, the index and the media files, and exactly the directories such a file lies in |
| `ExportSuccess.ExportSucceedsIff` | server/src/package_archive.rs:592-771 | An export succeeds exactly when the media files, the entry count and the totals are within their limits, every name is one the import accepts and fits its field, the archive is within 20 MiB, and the reprinted manifest is small, readable and names the package |
| `ExportExample.SampleRoundTrip` | server/src/package_archive.rs:592-770 | A family of inputs at the edge: a package with one plugin file of up to 50 MiB is exported whenever the library packs it into 20 MiB, and its archive can be extracted exactly when that file is within 10 MiB |
| `ExportExample.LargeFileIsRefused` | server/src/package_archive.rs:263-269 | A package with a stored file of 10 MiB and one byte is exported, and its own archive is refused |
| `MediaIndex.CollectMedia` | server/src/package_archive.rs:616-665 | The loop over the references with its seen-set equals the collecting function, errors included |
| `MediaIndex.CollectGives` | server/src/package_archive.rs:620-663 | One index entry per reference in order, telling all of it and whether it is included; every file of an included entry is carried exactly once, from one of its references and within 90 MiB |
| `MediaIndex.CollectsIff` | server/src/package_archive.rs:634-655 | The media can be collected exactly when every file to be carried is readable, of its recorded size and within 90 MiB |
| `MediaIndex.EntryIff` | server/src/package_archive.rs:347-373 | An entry is accepted exactly when name and kind are good texts within 200 and 64 bytes, the hash has 64 hex digits, an included file is within 90 MiB and the plugin id is valid |
| `MediaIndex.IncludedIsTrueIff` | server/src/package_archive.rs:286-310 | The index tells truly which files are carried exactly when nothing is carried or readiness does not differ between references to one file |
| `MediaIndex.CarriedAreNamed` | server/src/package_archive.rs:381-383 | With lower-case hashes the carried files have distinct, well-formed archive names |
| `MediaIndex.CarriedHavePlaces` | server/src/package_archive.rs:381-383 | Each file carried goes to media/files under its own hash, a place the import accepts |
| `Export.LowerAsciiFolds` | server/src/package_archive.rs:381-383 | Folding a hash leaves no upper-case letter and changes nothing but the case of letters |
| `MediaIndex.ParseIndex` | server/src/package_archive.rs:314-378 | The size, the JSON, the schema version and the validation loop equal the refusal function, with the first error |
| `MediaIndex.CheckEntriesIff` | server/src/package_archive.rs:334-376 | An index is accepted exactly when each entry is well formed and no id repeats |
| `MediaIndex.ExportedIndexAcceptedIff` | server/src/package_archive.rs:314-378 | The index of an export is accepted by an import exactly when it is within 1 MiB, the references are at most 1024, each is well formed on its own and no media file is referenced twice; the export checks none of the four |
| `MediaIndex.RepeatedReferenceIsRefused` | server/src/package_archive.rs:342-347 | Two references to one media file: the export writes the index, the import refuses it, and with one of them it accepts |
| `IndexText.EscapedReadsBack` | server/src/package_archive.rs:287-310 | Texts are escaped so that a JSON reader (RFC 8259, section 7) gets them back |
| `IndexText.EntryLength` | server/src/package_archive.rs:287-310 | A lower bound on the length of one pretty-printed entry, from its escaped texts |
| `IndexText.LongIndexIsRefused` | server/src/package_archive.rs:314-319 | 1024 references to different media files, each well formed, whose pretty-printed index is over 1 MiB: the export writes it and the import refuses it |
| `Migrations.ProblemIffInvalid` | server/src/migrations.rs:177-199 | Validation accepts exactly the registries whose levels advance by one and start and end at distinct versions |
| `Migrations.ValidateRegistry` | server/src/migrations.rs:177-199 | The loop with two sets finds the first problem of the registry, if any |
| `Migrations.TargetIsHighest` | server/src/migrations.rs:117-121 | The target is the highest version any level leads to, and version 8 without any levels |
| `Migrations.Connection.Transact` | server/src/migrations.rs:156-160 | A level and its version mark are committed together or not at all |
| `Migrations.Connection.StepOnce` | server/src/migrations.rs:143-167 | One turn of the loop applies exactly the level of the current version, or stops without effect |
| `Migrations.Connection.AdvanceTo` | server/src/migrations.rs:141-169 | The loop equals the recursive run, with the levels it committed |
| `Migrations.Connection.RunMigrations` | server/src/migrations.rs:111-170 | The engine with its refusals equals the run function, and refusals change nothing |
| `Migrations.AdvanceOutcome` | server/src/migrations.rs:141-169 | A run reaches the target with exactly the levels from the start applied in order, or stops at some level k with version k and exactly the levels below k applied |
| `Migrations.ReachesIff` | server/src/migrations.rs:141-169 | The target is reached exactly when every level in between is registered and succeeds |
| `Migrations.AdvanceFrom` | server/src/migrations.rs:141-169 | Going on from a version that was reached is the same as running from the start |
| `Migrations.ResumeEqualsUninterrupted` | server/src/migrations.rs:111-170 | Running again with a registry repaired from the failed level ends in the same database as one uninterrupted run of the repaired registry, and executes only the levels from the failed one on |
| `Migrations.Migrate` | server/src/maintenance.rs:305-396 | The migrating command returns its report and leaves the database the specification says |
| `Migrations.ShippedRegistry` | server/src/migrations.rs:59-106 | For every stored version the levels pending in a registry of the shipped shape are the versions from it to the target |
| `Migrations.ObserversAgree` | server/src/maintenance.rs:281-370 | From version 1 to the target, the pending list, the applied list of a success and the executed levels are one sequence; version 0 is refused as unversioned and versions above the maximum as too new, unchanged; below the target a database needs migration, at the target it is up to date |
| `Migrations.NegativeVersionDisagrees` | server/src/maintenance.rs:39-49 | A negative version is reported as migratable with every level pending, and refused unchanged by the engine |
| `Migrations.FailureUnderreports` | server/src/maintenance.rs:386-394 | A failed migration reports no applied level although exactly the levels below the failed one were committed |
| `Migrations.AppliedIsExecutedIff` | server/src/maintenance.rs:386-394 | The reported applied list is the list of executed levels exactly when no level was pending, or the first pending level cannot be executed, or all can be and the result is valid |
| `Migrations.UnderreportedRun` | server/src/maintenance.rs:386-394 | A registry of the shipped shape whose level 1 succeeds and level 2 fails: level 1 is committed, the report lists nothing |
| `TaskEditing.RetargetTask` | server/src/mcp_core_tasks.rs:241-288 | The field-by-field edit equals the retarget computation, refusals included |
| `TaskEditing.SaveTask` | server/src/mcp_core_tasks.rs:317-393 | The field-by-field edit equals the save computation, refusals included |
| `TaskEditing.ControlTask` | server/src/mcp_core_tasks.rs:404-466 | The field-by-field edit equals the control computation, refusals included |
| `TaskEditing.Database.CompareSave` | server/src/store.rs:1454-1491 | A save happens exactly when the token is active and the stored task equals the snapshot, and replaces only that task |
| `TaskEditing.RetargetFrame` | server/src/mcp_core_tasks.rs:263-288 | Retargeting sets the entrypoint, the payload if one is given, the timestamp and the policy receipt, and nothing else |
| `TaskEditing.RetargetIff` | server/src/mcp_core_tasks.rs:251-286 | A retarget is written exactly when the task still is what the caller saw and the token may see it, may run it if enabled, owns the new entrypoint and the runner knows it |
| `TaskEditing.SaveGives` | server/src/mcp_core_tasks.rs:338-393 | A save writes what its arguments say; a new task is disabled unless they say otherwise, a disabled task is suspended, and a new one has no history |
| `TaskEditing.SaveIff` | server/src/mcp_core_tasks.rs:290-393 | A save is written exactly when a task saved over still is what the caller saw and in scope, device, schedule and concurrency are good, the task is valid before and after it takes over the old one, and the token may run it, or see it if disabled, and owns its entrypoint |
| `TaskEditing.UpdateFrame` | server/src/mcp_core_tasks.rs:355-376 | Saving over a task keeps its id, creation time, run history, preset, summary and other extensions |
| `TaskEditing.ControlFrame` | server/src/mcp_core_tasks.rs:437-465 | Control never changes what a task would execute; each action sets state, wakeup, reason and timestamp as it should, and enables only tasks that were not cancelled |
| `TaskEditing.ControlIff` | server/src/mcp_core_tasks.rs:404-465 | Which control actions are written, exactly: enabling needs execution rights, a task that was not cancelled and a next wakeup, cancelling needs rights over the run |
| `TaskEditing.WrittenIsAuthorised` | server/src/mcp_core_tasks.rs:378-395 | Whatever is written enabled passed the execution authorisation for exactly the contents written and carries that token's receipt |
| `TaskEditing.BeginReads` | server/src/mcp_core_tasks.rs:241-310 | A call reads the task it is about as it is stored, and a call that creates one reads nothing |
| `TaskEditing.OthersWrite` | server/src/mcp_core_tasks.rs:115-138 | A client makes one call at a time, and other parts of the server may write or remove any task at any time |
| `TaskEditing.SameTarget` | server/src/mcp_core_tasks.rs:26-113 | The checks look at the identity of a task and at everything it would execute |
| `TaskEditing.SavedIffUnchanged` | server/src/mcp_core_tasks.rs:115-138 | With anything in between: a computed write is saved exactly if the token is still active and the stored task is the one that was read, and nothing else changes |
| `TaskEditing.UndisturbedCallSaves` | server/src/mcp_core_tasks.rs:115-138 | A call on its own leaves exactly the task it computed changed |
| `TaskEditing.NextKeeps` | server/src/mcp_core_tasks.rs:115-138 | Every step keeps: the store is the replay of its log, and every logged save was computed from the value it replaced |
| `TaskEditing.RunKeeps` | server/src/mcp_core_tasks.rs:115-138 | So does every run |
| `TaskEditing.EverySaveIsSound` | server/src/mcp_core_tasks.rs:241-475 | In every interleaving of save, retarget, control and foreign writes, each committed write was computed from a value equal to the one it replaced, and an enabled one was authorised |
| `UiClient.RunInv` | sdk/ui/gamer-ui.js:2-39 | Every run keeps the numbering of requests, timers exactly for the pending ones, and the separation of waiting, pending and settled calls, unsendable ones apart |
| `UiClient.EveryCallHasAPlace` | sdk/ui/gamer-ui.js:22-31 | In every run a started call is waiting, pending or settled; no two of these together, except that a call whose message could not be posted is settled and still pending; only such a call can see a second, idle settlement |
| `UiClient.OnePlaceIffAllCloned` | sdk/ui/gamer-ui.js:26-30 | Throughout a run every call is in exactly one place if and only if every message that was sent could be cloned |
| `UiClient.UnsendableStaysPending` | sdk/ui/gamer-ui.js:26-30 | A call with a parameter that cannot be cloned is rejected while its id stays pending with an armed timer |
| `UiClient.OutcomeStays` | sdk/ui/gamer-ui.js:11-37 | Whatever follows, the first outcome of a promise stays |
| `UiClient.ConnectionStays` | sdk/ui/gamer-ui.js:6-20 | Whatever follows, the first outcome of the connection stays |
| `UiClient.ResponseSettlesItsSender` | sdk/ui/gamer-ui.js:11-18 | A response settles at most the call that sent its id, with the outcome it carries unless that call was already rejected as unsendable; a late or unknown id changes nothing |
| `UiClient.LateTimerChangesNothing` | sdk/ui/gamer-ui.js:15-27 | The timer of an answered request never fires again |
| `UiClient.TimeoutSettlesItsSender` | sdk/ui/gamer-ui.js:27 | A timer that fires settles only the call that sent its id, as timed out unless it was already rejected as unsendable |
| `UiClient.WaitingCallGoesOn` | sdk/ui/gamer-ui.js:22-31 | A waiting call is refused as not connected or closed, or sent under a new number, or rejected as unsendable |
| `UiClient.DisposeSettlesAll` | sdk/ui/gamer-ui.js:32-37 | Disposal settles every pending call as closed, except that an unsendable one keeps its error |
| `UiClient.NothingAfterDispose` | sdk/ui/gamer-ui.js:32-37 | After disposal no request is pending and none becomes pending again, whatever happens |
| `UiClient.Client.OnConnect` | sdk/ui/gamer-ui.js:8-20 | The connect handler makes the connect step |
| `UiClient.Client.OnConnectTimeout` | sdk/ui/gamer-ui.js:7 | The connection timer makes its step |
| `UiClient.Client.Proceed` | sdk/ui/gamer-ui.js:23-30 | The part of a call after the connection is known makes its step, a throwing postMessage included |
| `UiClient.Client.OnMessage` | sdk/ui/gamer-ui.js:11-18 | The message handler makes the response step |
| `UiClient.Client.OnTimeout` | sdk/ui/gamer-ui.js:27 | The timer callback, which does not look whether its request is still pending, makes the timeout step |
| `UiClient.Client.CloseOne` | sdk/ui/gamer-ui.js:35 | One turn of the closing loop clears one timer and settles one call |
| `UiClient.Client.CloseAll` | sdk/ui/gamer-ui.js:35-36 | The closing loop settles every pending call once, in any order |
| `UiClient.Client.DisposeClient` | sdk/ui/gamer-ui.js:32-37 | Disposal makes the dispose step |
| `Paging.CandidatesBehind` | server/src/store/journal.rs:236-239 | A cursor at a row of the device selects exactly the device's rows behind it |
| `Paging.RequestShows` | server/src/store/journal.rs:236-239 | A request shows the device's rows behind the cursor as they are then, and nothing if the row of the cursor is gone |
| `Paging.PageIs` | server/src/store/journal.rs:239 | A page of ordered rows is those not after its last row |
| `Paging.HistoryIsPage` | server/src/store/journal.rs:239 | A page holds the first 30 of the rows it may show, or all of them |
| `Paging.PageSeen` | server/src/mcp_core.rs:493-511 | A non-empty page comes in order after everything seen, and its last row is a cursor to what is stored behind it, while runs arrive anywhere in the order and others are deleted |
| `Paging.NothingMore` | server/src/mcp_core.rs:500-511 | After an empty page a run that stayed stored has been missed exactly when the row of the cursor is gone and the run lies behind it |
| `Paging.FollowHistory` | server/src/mcp_core.rs:493-512 | Following next_before until it is null, while between the pages runs arrive anywhere in the order and others are deleted, and whole pages are filtered away: what is seen is in order, nothing twice, and was stored at some request; an authorised run that stays stored is missed exactly when the row of the last cursor was deleted and the run lies behind it; and with arrivals in front only and no deletions exactly the authorised runs of the start are seen |
| `Paging.LastPageIff` | server/src/store/journal.rs:237-238 | A page is empty exactly when the cursor's row is gone or nothing of the device lies behind it |
| `Paging.PageMeans` | server/src/mcp_core_media.rs:51-63 | A page holds up to its limit of items from its offset, with the total, and leads on until the last item; an offset beyond the end is refused |
| `Paging.PrunedCursorHidesOlderRuns` | server/src/store/journal.rs:340 | After retention deletes the cursor's row a reader is told the list has ended although older runs remain |
| `Paging.FollowPages` | server/src/mcp_core_media.rs:51-63 | For every limit of at least 1, following next_offset concatenates to the whole list |

## Left out

- Search.MatchTemplate: on a scaled screen the resized images and the conversions of coordinates there and back through 32-bit floats are parameters (`View`); without scaling the conversions are taken as exact, which they are below 2²⁴.
- Ncc.NccAt: scores are exact; the final rounding to f64 and f32, and ties that rounding may create, are not modelled.
- Search.MatchTemplate: the hue and saturation recheck is a parameter (`colorOk`), its colour arithmetic is not modelled.
- TemplateCache.Cache.Run: byte totals are unbounded, so saturation at 2⁶⁴ is not modelled; the mutex makes concurrent calls a sequence.
- TemplateCache.Cache.CachedPrepared: which entry is newest is stated until the 64-bit clock wraps; after that the eviction still drops the least time first, as the code does.
- ZipDirectory.WrittenAcceptedIff: local headers and compressed data are arbitrary bytes before the directory; DEFLATE and CRC are the identity on contents.
- Extraction.ExtractIff: names are compared as texts, as on a file system that tells all of them apart (FoldedExtractIff covers the others); faults while an entry is read or written, such as a damaged stream or a full disk; the directories a refused extraction leaves behind.
- ExportImport.ExportThenExtract: the archive reader finds the names, kinds and contents that were written; directories that cannot be read, and file names that are not UTF-8; the order of the media index.
- MediaIndex.ExportedIndexAcceptedIff: reading the JSON back is a parameter, taken to give what was written.
- IndexText.LongIndexIsRefused: the sorting of the index entries; the witness is in order.
- Manifest.RoundTrip: the TOML reader covers the emitted subset; manifests edited by hand with other TOML features are outside it, and URL parsing is an assumed normal form that is stable, trimmed and free of control characters.
- FileTree.CopyDirContents: copying into a directory that already exists, where files would be merged (the one caller refuses that before); directories that cannot be read; a package directory that is itself a link.
- LinkCircles.WalkEndsIffNoCircle: a link names its target by plain folders from the root, so a target reached through further links appears as its final place; the system's limit on links is a parameter.
- FileTree.DirTotals: the counters are unbounded.
- PackageStore.Store.DeletePackage: the plugin clean-up after deletion only logs; it is not modelled. What a failed removal leaves behind is a parameter.
- PackageStore.RunKeeps: replacing a package by an import takes place in code outside the modelled files; only the lock discipline of the modelled operations is assumed for other writers.
- ReplaceBinary.Resources.Replace: directories created on the way and temporary files of single atomic writes do not appear in the trace; a hook writes, in one step, existing or new resources other than the two being moved, the staged file and places of directories, and deletes none (a staged file taken away is a fault in publishing).
- Migrations.Connection.Transact: SQLite transactions are all or nothing; the schema bodies, the structural check and the checkpoint are parameters or omitted.
- TaskEditing.EverySaveIsSound: JSON values are opaque texts, times are numbers; running a task now and stopping a run are calls without a write.
- UiClient.RunInv: request numbers beyond 2⁵³, other message types, and a host that answers on a closed port.
- Paging.FollowHistory: run ids are numbers standing for their text order, and a run keeps what the filter looks at; the other filters of the query are absent in this call.
- Image decoding limits, template names with region suffixes, re-encoding.
- Web prefix and Android target matching, short resource paths, listing and annotating resources, text resources, manifest updates by revision.
- HTTP and MCP tool schemas, devices, recording, browser control, market, metrics, configuration.
