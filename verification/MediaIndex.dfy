/** The media references of a package: which media files an export carries, and which indexes an import accepts. */
module MediaIndex {
  import opened Bytes
  import opened Export
  import ArchivePath
  import Extraction
  import Manifest
  import Utf8

  const MAX_INDEX_BYTES := 1024 * 1024
  const MAX_INDEX_ENTRIES := 1024
  const SCHEMA_VERSION := 1
  const MAX_ID_BYTES := 64

  /** What the media library found out about a file; the import takes it over unseen. */
  datatype Probe = Probe(container: string, codec: string, width: nat, height: nat, rotation: nat, duration: Option<nat>)

  /** A reference of the package to a media file; `file` is what reading the file gives, if it can be read. */
  datatype Ref = Ref(id: string, name: string, sha: string, size: nat, ready: bool, plugin: string, kind: string, probe: Probe,
                     file: Option<seq<Byte>>)

  datatype IndexEntry = IndexEntry(id: string, name: string, sha: string, size: nat, plugin: string, kind: string, included: bool,
                                   probe: Probe)

  /** What the JSON of an index says. */
  datatype Document = Document(version: nat, entries: seq<IndexEntry>)

  datatype MediaError = Unreadable | SizeMismatch | FileTooLarge
                      | IndexTooLarge | NotJson | BadVersion | TooManyEntries | BadId | RepeatedId | BadName | BadHash | BadPlugin | BadKind

  // ---- Collecting ----

  function FileRefusal(r: Ref): Option<MediaError> {
    match r.file
    case None => Some(Unreadable)
    case Some(data) =>
      if |data| != r.size then Some(SizeMismatch)
      else if |data| > Extraction.MAX_MEDIA_FILE_BYTES then Some(FileTooLarge)
      else None
  }

  function EntryOf(r: Ref, carry: bool): IndexEntry {
    IndexEntry(r.id, r.name, r.sha, r.size, r.plugin, r.kind, carry && r.ready, r.probe)
  }

  datatype MediaSet = MediaSet(entries: seq<IndexEntry>, media: seq<Media>)

  predicate Carries(media: seq<Media>, sha: string) { exists i :: 0 <= i < |media| && media[i].sha == sha }

  function AddRef(c: MediaSet, r: Ref, carry: bool): Result<MediaSet, MediaError> {
    var entries := c.entries + [EntryOf(r, carry)];
    if !(carry && r.ready) then Ok(MediaSet(entries, c.media))
    else
      match FileRefusal(r)
      case Some(e) => Err(e)
      case None => Ok(MediaSet(entries, if Carries(c.media, r.sha) then c.media else c.media + [Media(r.sha, r.file.value)]))
  }

  function CollectRefs(refs: seq<Ref>, carry: bool): (r: Result<MediaSet, MediaError>)
    ensures r.Ok? ==> |r.value.entries| == |refs|
  {
    if refs == [] then Ok(MediaSet([], []))
    else
      var c :- CollectRefs(refs[..|refs| - 1], carry);
      AddRef(c, refs[|refs| - 1], carry)
  }

  method CollectMedia(refs: seq<Ref>, carry: bool) returns (r: Result<MediaSet, MediaError>)
    ensures r == CollectRefs(refs, carry)
  {
    var c := MediaSet([], []);
    var seen: set<string> := {};
    for i := 0 to |refs|
      invariant CollectRefs(refs[..i], carry) == Ok(c)
      invariant forall sha :: sha in seen <==> Carries(c.media, sha)
    {
      var ref := refs[i];
      assert refs[..i + 1][..i] == refs[..i];
      var media := c.media;
      if carry && ref.ready {
        var refusal := FileRefusal(ref);
        if refusal.Some? {
          RefusalStays(refs, i + 1, carry);
          return Err(refusal.value);
        }
        if ref.sha !in seen {
          media := media + [Media(ref.sha, ref.file.value)];
          CarriesMore(c.media, media[|c.media|]);
          seen := seen + {ref.sha};
        }
      }
      c := MediaSet(c.entries + [EntryOf(ref, carry)], media);
    }
    assert refs[..|refs|] == refs;
    return Ok(c);
  }

  lemma CarriesMore(media: seq<Media>, m: Media)
    ensures forall sha :: Carries(media + [m], sha) <==> Carries(media, sha) || sha == m.sha
  {
    assert (media + [m])[|media|] == m;
    assert forall i :: 0 <= i < |media| ==> (media + [m])[i] == media[i];
  }

  lemma {:induction false} RefusalStays(refs: seq<Ref>, i: nat, carry: bool)
    requires i <= |refs| && CollectRefs(refs[..i], carry).Err?
    ensures CollectRefs(refs, carry) == CollectRefs(refs[..i], carry)
  {
    if i == |refs| {
      assert refs[..i] == refs;
    } else {
      var n := |refs| - 1;
      assert refs[..n][..i] == refs[..i];
      RefusalStays(refs[..n], i, carry);
    }
  }

  // ---- What is carried along ----

  ghost predicate FromRef(refs: seq<Ref>, carry: bool, m: Media) {
    exists i :: 0 <= i < |refs| && carry && refs[i].ready && refs[i].sha == m.sha && refs[i].file == Some(m.data)
  }

  /** The media carried for some references: each file once, from one of them, and within the media limit. */
  ghost predicate CarriedFrom(refs: seq<Ref>, carry: bool, media: seq<Media>) {
    && (forall k :: 0 <= k < |media| ==> FromRef(refs, carry, media[k]) && |media[k].data| <= Extraction.MAX_MEDIA_FILE_BYTES)
    && forall j, k :: 0 <= j < k < |media| ==> media[j].sha != media[k].sha
  }

  lemma FromMore(before: seq<Ref>, last: Ref, carry: bool, m: Media)
    requires FromRef(before, carry, m) || (carry && last.ready && last.sha == m.sha && last.file == Some(m.data))
    ensures FromRef(before + [last], carry, m)
  {
    var all := before + [last];
    if FromRef(before, carry, m) {
      var i :| 0 <= i < |before| && carry && before[i].ready && before[i].sha == m.sha && before[i].file == Some(m.data);
      assert all[i] == before[i];
    } else {
      assert all[|before|] == last;
    }
  }

  lemma CarriedMore(before: seq<Ref>, last: Ref, carry: bool, c: MediaSet)
    requires CarriedFrom(before, carry, c.media) && AddRef(c, last, carry).Ok?
    ensures CarriedFrom(before + [last], carry, AddRef(c, last, carry).value.media)
  {
    var media := AddRef(c, last, carry).value.media;
    forall k | 0 <= k < |media|
      ensures FromRef(before + [last], carry, media[k])
    {
      FromMore(before, last, carry, media[k]);
    }
  }

  lemma CarriesStill(b: MediaSet, last: Ref, carry: bool)
    requires AddRef(b, last, carry).Ok?
    ensures var c := AddRef(b, last, carry).value;
            && c.entries == b.entries + [EntryOf(last, carry)]
            && (EntryOf(last, carry).included ==> Carries(c.media, last.sha))
            && forall sha :: Carries(b.media, sha) ==> Carries(c.media, sha)
  {
    var c := AddRef(b, last, carry).value;
    if c.media != b.media {
      CarriesMore(b.media, Media(last.sha, last.file.value));
    }
  }

  /** An entry tells of its reference, and says it is included if files are carried and the reference is ready. */
  predicate TellsOf(e: IndexEntry, r: Ref, carry: bool) {
    && e.id == r.id && e.name == r.name && e.sha == r.sha && e.size == r.size && e.plugin == r.plugin && e.kind == r.kind
    && e.probe == r.probe && (e.included <==> carry && r.ready)
  }

  /** A file that can be carried: readable, of the size that was recorded, and within 90 MiB. */
  predicate Fit(r: Ref) { r.file.Some? && |r.file.value| == r.size && r.size <= 90 * 1024 * 1024 }

  /** The media of a package can be collected exactly when every file that is to be carried is fit. */
  lemma {:induction false} CollectsIff(refs: seq<Ref>, carry: bool)
    ensures CollectRefs(refs, carry).Ok? <==> forall i :: 0 <= i < |refs| && carry && refs[i].ready ==> Fit(refs[i])
  {
    if refs != [] {
      var n := |refs| - 1;
      CollectsIff(refs[..n], carry);
      assert forall i :: 0 <= i < n ==> refs[i] == refs[..n][i];
      assert FileRefusal(refs[n]) == None <==> Fit(refs[n]);
    }
  }

  lemma CollectGivesMore(before: seq<Ref>, last: Ref, carry: bool, b: MediaSet)
    requires |b.entries| == |before| && AddRef(b, last, carry).Ok? && CarriedFrom(before, carry, b.media)
    requires forall i :: 0 <= i < |before| ==> b.entries[i] == EntryOf(before[i], carry)
    requires forall i :: 0 <= i < |before| && b.entries[i].included ==> Carries(b.media, before[i].sha)
    ensures var refs, c := before + [last], AddRef(b, last, carry).value;
            && |c.entries| == |refs| && CarriedFrom(refs, carry, c.media)
            && (forall i :: 0 <= i < |refs| ==> c.entries[i] == EntryOf(refs[i], carry))
            && (forall i :: 0 <= i < |refs| && c.entries[i].included ==> Carries(c.media, refs[i].sha))
  {
    CarriedMore(before, last, carry, b);
    CarriesStill(b, last, carry);
  }

  /** One index entry for every reference, in order; every file that some included entry names is carried exactly once,
      with the bytes of one of its references. */
  lemma {:induction false} CollectGives(refs: seq<Ref>, carry: bool)
    requires CollectRefs(refs, carry).Ok?
    ensures var c := CollectRefs(refs, carry).value;
            && (forall i :: 0 <= i < |refs| ==> c.entries[i] == EntryOf(refs[i], carry) && TellsOf(c.entries[i], refs[i], carry))
            && (forall i :: 0 <= i < |refs| && c.entries[i].included ==> Carries(c.media, refs[i].sha))
            && CarriedFrom(refs, carry, c.media)
  {
    if refs != [] {
      var n := |refs| - 1;
      var before, last := refs[..n], refs[n];
      CollectGives(before, carry);
      CollectGivesMore(before, last, carry, CollectRefs(before, carry).value);
      assert refs == before + [last];
    }
  }

  /** Some reference to the file with this hash is ready. */
  ghost predicate Ready(refs: seq<Ref>, sha: string) { exists j :: 0 <= j < |refs| && refs[j].ready && refs[j].sha == sha }

  lemma CarriesIff(refs: seq<Ref>, carry: bool, sha: string)
    requires CollectRefs(refs, carry).Ok?
    ensures Carries(CollectRefs(refs, carry).value.media, sha) <==> carry && Ready(refs, sha)
  {
    var c := CollectRefs(refs, carry).value;
    CollectGives(refs, carry);
    if Carries(c.media, sha) {
      var k :| 0 <= k < |c.media| && c.media[k].sha == sha;
      assert FromRef(refs, carry, c.media[k]);
    }
    if carry && Ready(refs, sha) {
      var j :| 0 <= j < |refs| && refs[j].ready && refs[j].sha == sha;
      assert c.entries[j].included;
    }
  }

  ghost predicate TellsTruth(refs: seq<Ref>, c: MediaSet)
    requires |c.entries| == |refs|
  {
    forall i :: 0 <= i < |refs| ==> (c.entries[i].included <==> Carries(c.media, refs[i].sha))
  }

  /** Ready or not does not depend on which reference to a file is asked. */
  ghost predicate ReadyByFile(refs: seq<Ref>) {
    forall i, j :: 0 <= i < |refs| && 0 <= j < |refs| && refs[i].sha == refs[j].sha ==> refs[i].ready == refs[j].ready
  }

  /** The index says of every entry truly whether its file is carried, exactly when nothing is carried at all or no media
      file is ready for one reference and not ready for another. */
  lemma IncludedIsTrueIff(refs: seq<Ref>, carry: bool)
    requires CollectRefs(refs, carry).Ok?
    ensures TellsTruth(refs, CollectRefs(refs, carry).value) <==> !carry || ReadyByFile(refs)
  {
    var c := CollectRefs(refs, carry).value;
    CollectGives(refs, carry);
    forall i | 0 <= i < |refs|
      ensures c.entries[i].included <==> carry && refs[i].ready
      ensures Carries(c.media, refs[i].sha) <==> carry && Ready(refs, refs[i].sha)
    {
      CarriesIff(refs, carry, refs[i].sha);
    }
    if carry && TellsTruth(refs, c) {
      forall i, j | 0 <= i < |refs| && 0 <= j < |refs| && refs[i].sha == refs[j].sha
        ensures refs[i].ready ==> refs[j].ready
      {}
    }
  }

  predicate LowerHex(s: string) { ArchivePath.IsSha256(s) && forall i :: 0 <= i < |s| ==> !('A' <= s[i] <= 'Z') }

  /** With the hashes the media library computes, the names of the carried files are distinct and well formed. */
  lemma CarriedAreNamed(refs: seq<Ref>, carry: bool)
    requires CollectRefs(refs, carry).Ok? && forall i :: 0 <= i < |refs| ==> LowerHex(refs[i].sha)
    ensures MediaNamed(CollectRefs(refs, carry).value.media)
  {
    var media := CollectRefs(refs, carry).value.media;
    CollectGives(refs, carry);
    forall k | 0 <= k < |media|
      ensures media[k].sha != "" && '/' !in media[k].sha && LowerAscii(media[k].sha) == media[k].sha
    {
      assert FromRef(refs, carry, media[k]);
      assert LowerHex(media[k].sha);
      assert forall i :: 0 <= i < 64 ==> ArchivePath.IsHex(media[k].sha[i]);
    }
  }

  /** Each of the files carried goes to the place that its own hash has among the media files of a package. */
  lemma CarriedHavePlaces(refs: seq<Ref>, carry: bool, alnum: char -> bool, k: nat)
    requires CollectRefs(refs, carry).Ok? && forall i :: 0 <= i < |refs| ==> LowerHex(refs[i].sha)
    requires k < |CollectRefs(refs, carry).value.media| && forall c: char :: ArchivePath.IsLowerOrDigit(c) ==> alnum(c)
    ensures var m := CollectRefs(refs, carry).value.media[k];
            MediaPath(m.sha) == ["media", "files", m.sha] && ArchivePath.InPackage(MediaPath(m.sha), alnum)
  {
    var m := CollectRefs(refs, carry).value.media[k];
    assert LowerHex(m.sha) by {
      CollectGives(refs, carry);
      assert FromRef(refs, carry, m);
    }
    LowerStays(m.sha);
    HashHasPlace(m.sha, alnum);
  }

  lemma LowerStays(sha: string)
    requires LowerHex(sha)
    ensures LowerAscii(sha) == sha && MediaPath(sha) == ["media", "files", sha]
  {}

  lemma HashHasPlace(sha: string, alnum: char -> bool)
    requires LowerHex(sha) && forall c: char :: ArchivePath.IsLowerOrDigit(c) ==> alnum(c)
    ensures ArchivePath.InPackage(["media", "files", sha], alnum)
  {
    var rest := ["media", "files", sha][1..];
    assert rest == ["files", sha];
    assert forall i :: 0 <= i < 64 ==> ArchivePath.IsHex(sha[i]);
    LowerIsSegment(sha, alnum);
    assert forall c :: c in "files" ==> 'a' <= c <= 'z';
    LowerIsSegment("files", alnum);
  }

  lemma LowerIsSegment(s: string, alnum: char -> bool)
    requires |s| > 4 && (forall i :: 0 <= i < |s| ==> ArchivePath.IsLowerOrDigit(s[i]))
    requires forall c: char :: ArchivePath.IsLowerOrDigit(c) ==> alnum(c)
    ensures ArchivePath.GoodSegment(s, alnum)
  {
    ArchivePath.ReservedIff(s, s);
    assert forall r :: r in ArchivePath.RESERVED_NAMES ==> |r| <= 4;
  }

  // ---- Which indexes an import accepts ----

  predicate ValidId(id: string) {
    && id != "" && |id| <= MAX_ID_BYTES
    && forall i :: 0 <= i < |id| ==> 'a' <= id[i] <= 'z' || 'A' <= id[i] <= 'Z' || '0' <= id[i] <= '9' || id[i] in "-_"
  }

  /** A trimmed text of limited length without control characters inside. */
  predicate ValidText(text: string, limit: nat) {
    Manifest.Trim(text) != "" && Utf8.Length(Manifest.Trim(text)) <= limit && !Manifest.HasControl(Manifest.Trim(text))
  }

  function EntryRefusal(e: IndexEntry): Option<MediaError> {
    if !ValidText(e.name, 200) then Some(BadName)
    else if !ArchivePath.IsSha256(e.sha) then Some(BadHash)
    else if e.included && e.size > Extraction.MAX_MEDIA_FILE_BYTES then Some(FileTooLarge)
    else if !ArchivePath.ValidScopeId(e.plugin) then Some(BadPlugin)
    else if !ValidText(e.kind, 64) then Some(BadKind)
    else None
  }

  /** A text that is neither blank nor too long without the white space around it, and has no control character inside. */
  ghost predicate GoodText(text: string, limit: nat) {
    exists t :: Manifest.IsTrimOf(text, t) && t != "" && |Utf8.Encode(t)| <= limit
                && forall i :: 0 <= i < |t| ==> !(t[i] as int < 0x20 || 0x7F <= t[i] as int <= 0x9F)
  }

  lemma TextIff(text: string, limit: nat)
    ensures ValidText(text, limit) <==> GoodText(text, limit)
  {
    var t := Manifest.Trim(text);
    Manifest.TrimIff(text, t);
    assert Manifest.HasControl(t) <==> exists i :: 0 <= i < |t| && (t[i] as int < 0x20 || 0x7F <= t[i] as int <= 0x9F);
    if u :| Manifest.IsTrimOf(text, u) && u != "" && |Utf8.Encode(u)| <= limit
            && forall i :: 0 <= i < |u| ==> !(u[i] as int < 0x20 || 0x7F <= u[i] as int <= 0x9F) {
      Manifest.TrimIff(text, u);
    }
  }

  /** An entry with an acceptable id is accepted exactly when its name and kind are good texts, its hash is one, a file it
      includes is within 90 MiB, and its plugin has a valid id. */
  lemma EntryIff(e: IndexEntry)
    ensures EntryRefusal(e) == None <==>
              && GoodText(e.name, 200) && GoodText(e.kind, 64) && ArchivePath.ValidScopeId(e.plugin)
              && |e.sha| == 64 && (forall i :: 0 <= i < 64 ==> ArchivePath.IsHex(e.sha[i]))
              && (e.included ==> e.size <= 90 * 1024 * 1024)
  {
    TextIff(e.name, 200);
    TextIff(e.kind, 64);
  }

  function CheckEntries(entries: seq<IndexEntry>, seen: set<string>, refuse: IndexEntry -> Option<MediaError>): Option<MediaError>
    decreases |entries|
  {
    if entries == [] then None
    else
      var e := entries[0];
      if !ValidId(e.id) then Some(BadId)
      else if e.id in seen then Some(RepeatedId)
      else match refuse(e)
        case Some(error) => Some(error)
        case None => CheckEntries(entries[1..], seen + {e.id}, refuse)
  }

  /** `read` is the JSON reader. */
  function IndexRefusal(index: seq<Byte>, read: seq<Byte> -> Option<Document>): Option<MediaError> {
    if |index| > MAX_INDEX_BYTES then Some(IndexTooLarge)
    else
      match read(index)
      case None => Some(NotJson)
      case Some(doc) =>
        if doc.version != SCHEMA_VERSION then Some(BadVersion)
        else if |doc.entries| > MAX_INDEX_ENTRIES then Some(TooManyEntries)
        else CheckEntries(doc.entries, {}, EntryRefusal)
  }

  method ParseIndex(index: seq<Byte>, read: seq<Byte> -> Option<Document>) returns (r: Option<MediaError>)
    ensures r == IndexRefusal(index, read)
  {
    if |index| > MAX_INDEX_BYTES {
      return Some(IndexTooLarge);
    }
    var doc := read(index);
    if doc == None {
      return Some(NotJson);
    }
    if doc.value.version != SCHEMA_VERSION {
      return Some(BadVersion);
    }
    var entries := doc.value.entries;
    if |entries| > MAX_INDEX_ENTRIES {
      return Some(TooManyEntries);
    }
    var seen: set<string> := {};
    for i := 0 to |entries|
      invariant CheckEntries(entries, {}, EntryRefusal) == CheckEntries(entries[i..], seen, EntryRefusal)
    {
      var e := entries[i];
      assert entries[i..][1..] == entries[i + 1..];
      if !ValidId(e.id) {
        return Some(BadId);
      }
      if e.id in seen {
        return Some(RepeatedId);
      }
      seen := seen + {e.id};
      var refusal := EntryRefusal(e);
      if refusal.Some? {
        return refusal;
      }
    }
    return None;
  }

  lemma {:induction false} CheckEntriesIff(entries: seq<IndexEntry>, seen: set<string>, refuse: IndexEntry -> Option<MediaError>)
    ensures CheckEntries(entries, seen, refuse) == None <==>
              && (forall i :: 0 <= i < |entries| ==> ValidId(entries[i].id) && entries[i].id !in seen && refuse(entries[i]) == None)
              && forall i, j :: 0 <= i < j < |entries| ==> entries[i].id != entries[j].id
  {
    if entries != [] {
      var e, rest := entries[0], entries[1..];
      assert forall i :: 0 < i < |entries| ==> entries[i] == rest[i - 1];
      assert forall i :: 0 <= i < |rest| ==> rest[i] == entries[i + 1];
      if ValidId(e.id) && e.id !in seen && refuse(e) == None {
        CheckEntriesIff(rest, seen + {e.id}, refuse);
      }
    }
  }

  lemma IncludedIsFine(r: Ref, carry: bool)
    requires carry && r.ready ==> r.size <= Extraction.MAX_MEDIA_FILE_BYTES
    ensures EntryRefusal(EntryOf(r, carry)) == EntryRefusal(EntryOf(r, false))
  {}

  lemma AcceptedIffDistinct(refs: seq<Ref>, carry: bool, refuse: IndexEntry -> Option<MediaError>)
    requires CollectRefs(refs, carry).Ok?
    ensures CheckEntries(CollectRefs(refs, carry).value.entries, {}, refuse) == None <==>
              && (forall i :: 0 <= i < |refs| ==> ValidId(refs[i].id) && refuse(EntryOf(refs[i], carry)) == None)
              && forall i, j :: 0 <= i < j < |refs| ==> refs[i].id != refs[j].id
  {
    var entries := CollectRefs(refs, carry).value.entries;
    CollectGives(refs, carry);
    CheckEntriesIff(entries, {}, refuse);
    assert forall i :: 0 <= i < |refs| ==> entries[i].id == refs[i].id;
  }

  /** The index of an export, read back as what was written, is accepted by an import exactly when it is within 1 MiB, the
      references are at most 1024, each of them is well formed on its own, and no media file is referenced twice. The
      export asks for none of the four. */
  lemma ExportedIndexAcceptedIff(refs: seq<Ref>, carry: bool, index: seq<Byte>, read: seq<Byte> -> Option<Document>)
    requires CollectRefs(refs, carry).Ok?
    requires read(index) == Some(Document(SCHEMA_VERSION, CollectRefs(refs, carry).value.entries))
    ensures IndexRefusal(index, read) == None <==>
              && |index| <= MAX_INDEX_BYTES
              && |refs| <= MAX_INDEX_ENTRIES
              && (forall i :: 0 <= i < |refs| ==> ValidId(refs[i].id) && EntryRefusal(EntryOf(refs[i], false)) == None)
              && forall i, j :: 0 <= i < j < |refs| ==> refs[i].id != refs[j].id
  {
    forall i | 0 <= i < |refs|
      ensures EntryRefusal(EntryOf(refs[i], carry)) == EntryRefusal(EntryOf(refs[i], false))
    {
      if carry && refs[i].ready {
        IncludedIsSmall(refs, carry, i);
      }
      IncludedIsFine(refs[i], carry);
    }
    AcceptedIffDistinct(refs, carry, EntryRefusal);
  }

  function ZeroHash(): string { seq(64, _ => '0') }

  /** A reference by which nothing is carried; only its id matters. */
  function PlainRef(id: string): Ref { Ref(id, "n", ZeroHash(), 0, false, "p", "k", Probe("", "", 1, 1, 0, None), None) }

  lemma PlainRefIsFine(id: string)
    ensures EntryRefusal(EntryOf(PlainRef(id), false)) == None
  {
    Manifest.ShortTexts();
    Manifest.TrimmedStays("n");
    Manifest.TrimmedStays("k");
    Manifest.LengthBound("n");
    Manifest.LengthBound("k");
  }

  /** A JSON reader that finds these entries. */
  function ReaderOf(entries: seq<IndexEntry>): seq<Byte> -> Option<Document> {
    (index: seq<Byte>) => Some(Document(SCHEMA_VERSION, entries))
  }

  /** Two references of a package to one media file: the export writes the index, and the import refuses it. With one of them
      it accepts. */
  lemma RepeatedReferenceIsRefused(index: seq<Byte>)
    requires |index| <= MAX_INDEX_BYTES
    ensures var refs := [PlainRef("m"), PlainRef("m")];
            && CollectRefs(refs, false).Ok?
            && IndexRefusal(index, ReaderOf(CollectRefs(refs, false).value.entries)) == Some(RepeatedId)
            && IndexRefusal(index, ReaderOf(CollectRefs(refs[..1], false).value.entries)) == None
  {
    var one, entry := [PlainRef("m")], EntryOf(PlainRef("m"), false);
    var refs := [PlainRef("m"), PlainRef("m")];
    assert refs[..1] == one && one[..0] == [];
    assert CollectRefs(one, false) == Ok(MediaSet([] + [entry], []));
    assert CollectRefs(refs, false) == Ok(MediaSet([] + [entry] + [entry], []));
    PlainRefIsFine("m");
    var two := [] + [entry] + [entry];
    assert two == [entry, entry] && two[1..] == [entry];
    assert CheckEntries([entry], {} + {"m"}, EntryRefusal) == Some(RepeatedId);
    assert [entry][1..] == [] && [] + [entry] == [entry];
    assert CheckEntries([entry], {}, EntryRefusal) == CheckEntries([], {} + {"m"}, EntryRefusal) == None;
  }

  lemma {:induction false} IncludedIsSmall(refs: seq<Ref>, carry: bool, i: nat)
    requires CollectRefs(refs, carry).Ok? && i < |refs| && carry && refs[i].ready
    ensures refs[i].size <= Extraction.MAX_MEDIA_FILE_BYTES
  {
    var n := |refs| - 1;
    if i < n {
      IncludedIsSmall(refs[..n], carry, i);
    }
  }
}
